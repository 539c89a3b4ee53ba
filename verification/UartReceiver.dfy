/** The receive buffer of drivers/mmi_muc_uart/mmi_uart.c and the packet
    callback of muc_uart.c that empties it. */
module UartReceiver {
  import opened Common
  import opened UartFrame
  import opened UartStream

  /** Messages before a result. */
  function Onto(before: seq<Msg>, r: (seq<Msg>, seq<byte>)): (s: (seq<Msg>, seq<byte>)) {
    (before + r.0, r.1)
  }

  /** A full buffer from which nothing can be taken is thrown away. */
  function Room(x: seq<byte>): (x0: seq<byte>) {
    if |x| == MAX_MSG then [] else x
  }

  function CopySize(x0: seq<byte>, todo: nat): (n: nat)
    requires |x0| <= MAX_MSG
  {
    if todo <= MAX_MSG - |x0| then todo else MAX_MSG - |x0|
  }

  /** The buffer after one copy. */
  function Copied(x: seq<byte>, cp: seq<byte>, todo: nat): (d: seq<byte>)
    requires |x| <= MAX_MSG && todo <= |cp|
    ensures |d| <= MAX_MSG
  {
    Room(x) + cp[..CopySize(Room(x), todo)]
  }

  /** The loop of n_mmi_uart_receive_buf2 with `todo` bytes of the chunk left:
      every turn copies from the start of the chunk. */
  function Received(crc: Crc, x: seq<byte>, cp: seq<byte>, todo: nat): (r: (seq<Msg>, seq<byte>))
    requires |x| <= MAX_MSG && todo <= |cp|
    decreases todo
  {
    if todo == 0 then ([], x)
    else
      var d := Drain(crc, Copied(x, cp, todo));
      DrainShrinks(crc, Copied(x, cp, todo));
      Onto(d.0, Received(crc, d.1, cp, todo - CopySize(Room(x), todo)))
  }

  lemma {:induction false} DrainShrinks(crc: Crc, d: seq<byte>)
    ensures |Drain(crc, d).1| <= |d|
    decreases |d|
  {
    var t := Take(crc, d);
    if t.size > 0 { DrainShrinks(crc, d[t.size..]); }
  }

  /** A full buffer always has something to take: what is left has room. */
  lemma {:induction false} DrainHasRoom(crc: Crc, d: seq<byte>)
    requires |d| <= MAX_MSG
    ensures |Drain(crc, d).1| < MAX_MSG
    decreases |d|
  {
    var t := Take(crc, d);
    if t.size > 0 { DrainHasRoom(crc, d[t.size..]); }
  }

  lemma OntoTwice(a: seq<Msg>, b: seq<Msg>, r: (seq<Msg>, seq<byte>))
    ensures Onto([], r) == r && Onto(a, ([], r.1)) == (a, r.1) && Onto(a, Onto(b, r)) == Onto(a + b, r)
  {
    assert [] + r.0 == r.0;
    assert a + [] == a;
    assert a + (b + r.0) == (a + b) + r.0;
  }

  lemma ReceivedTurn(crc: Crc, x: seq<byte>, cp: seq<byte>, todo: nat, now: seq<Msg>, x': seq<byte>, todo': nat)
    requires |x| <= MAX_MSG && 0 < todo <= |cp| && |x'| <= MAX_MSG
    requires (now, x') == Drain(crc, Copied(x, cp, todo)) && todo' == todo - CopySize(Room(x), todo)
    ensures Received(crc, x, cp, todo) == Onto(now, Received(crc, x', cp, todo'))
  {
  }

  lemma ReceivedStep(crc: Crc, x: seq<byte>, cp: seq<byte>, todo: nat, now: seq<Msg>, x': seq<byte>, todo': nat,
                     before: seq<Msg>)
    requires |x| <= MAX_MSG && 0 < todo <= |cp| && |x'| <= MAX_MSG
    requires (now, x') == Drain(crc, Copied(x, cp, todo)) && todo' == todo - CopySize(Room(x), todo)
    ensures Onto(before, Received(crc, x, cp, todo)) == Onto(before + now, Received(crc, x', cp, todo'))
  {
    ReceivedTurn(crc, x, cp, todo, now, x', todo');
    OntoTwice(before, now, Received(crc, x', cp, todo'));
  }

  lemma ReceivedEnd(crc: Crc, x: seq<byte>, cp: seq<byte>, before: seq<Msg>)
    requires |x| <= MAX_MSG
    ensures Onto(before, Received(crc, x, cp, 0)) == (before, x)
  {
    OntoTwice(before, [], ([], x));
  }

  /** How much each turn of that loop copies. */
  datatype Turns = Done | Turn(n: nat, rest: Turns)

  function TurnsOf(crc: Crc, x: seq<byte>, cp: seq<byte>, todo: nat): (ts: Turns)
    requires |x| <= MAX_MSG && todo <= |cp|
    decreases todo
  {
    if todo == 0 then Done
    else
      var n := CopySize(Room(x), todo);
      var d := Drain(crc, Copied(x, cp, todo));
      DrainShrinks(crc, Copied(x, cp, todo));
      Turn(n, TurnsOf(crc, d.1, cp, todo - n))
  }

  /** The turns copy `todo` bytes. */
  predicate Sums(ts: Turns, todo: nat) {
    match ts
    case Done => todo == 0
    case Turn(n, rest) => n <= todo && Sums(rest, todo - n)
  }

  /** What they copy: every turn starts at the start of the chunk. */
  function Copies(cp: seq<byte>, ts: Turns): (cs: seq<seq<byte>>) {
    match ts
    case Done => []
    case Turn(n, rest) => [if n <= |cp| then cp[..n] else cp] + Copies(cp, rest)
  }

  /** The chunk repeats its start where the driver copies its start again: in each
      turn the bytes that are due are the ones that are copied. A chunk that fits
      is copied in one turn, from its start. */
  predicate Repeats(cp: seq<byte>, due: nat, ts: Turns)
    decreases ts
  {
    match ts
    case Done => true
    case Turn(n, rest) => due + n <= |cp| && cp[due..due + n] == cp[..n] && Repeats(cp, due + n, rest)
  }

  lemma TurnsStep(crc: Crc, x: seq<byte>, cp: seq<byte>, todo: nat, n: nat, x': seq<byte>)
    requires |x| <= MAX_MSG && 0 < todo <= |cp| && |x'| <= MAX_MSG
    requires n == CopySize(Room(x), todo) && x' == Drain(crc, Copied(x, cp, todo)).1
    ensures TurnsOf(crc, x, cp, todo) == Turn(n, TurnsOf(crc, x', cp, todo - n))
  {
  }

  /** One turn with a buffer that has room. */
  lemma NextTurn(crc: Crc, x: seq<byte>, cp: seq<byte>, todo: nat) returns (n: nat, now: seq<Msg>, x': seq<byte>)
    requires |x| < MAX_MSG && 0 < todo <= |cp|
    ensures 0 < n <= todo && |x'| < MAX_MSG && (now, x') == Drain(crc, x + cp[..n])
    ensures TurnsOf(crc, x, cp, todo) == Turn(n, TurnsOf(crc, x', cp, todo - n))
    ensures Received(crc, x, cp, todo) == Onto(now, Received(crc, x', cp, todo - n))
    ensures |x| + todo <= MAX_MSG ==> n == todo
  {
    n := CopySize(x, todo);
    DrainHasRoom(crc, Copied(x, cp, todo));
    now, x' := Drain(crc, Copied(x, cp, todo)).0, Drain(crc, Copied(x, cp, todo)).1;
    TurnsStep(crc, x, cp, todo, n, x');
    ReceivedTurn(crc, x, cp, todo, now, x', todo - n);
  }

  lemma {:induction false} TurnsSum(crc: Crc, x: seq<byte>, cp: seq<byte>, todo: nat)
    requires |x| < MAX_MSG && todo <= |cp|
    ensures Sums(TurnsOf(crc, x, cp, todo), todo)
    decreases todo
  {
    if todo > 0 {
      var n, now, x' := NextTurn(crc, x, cp, todo);
      TurnsSum(crc, x', cp, todo - n);
    }
  }

  lemma {:induction false} ReceivedHasRoom(crc: Crc, x: seq<byte>, cp: seq<byte>, todo: nat)
    requires |x| < MAX_MSG && todo <= |cp|
    ensures |Received(crc, x, cp, todo).1| < MAX_MSG
    decreases todo
  {
    if todo > 0 {
      var n, now, x' := NextTurn(crc, x, cp, todo);
      ReceivedHasRoom(crc, x', cp, todo - n);
    }
  }

  /** Receiving a chunk is receiving what is copied of it. */
  lemma {:induction false} ReceivedIsCopies(crc: Crc, x: seq<byte>, cp: seq<byte>, todo: nat)
    requires |x| < MAX_MSG && todo <= |cp|
    ensures Received(crc, x, cp, todo) == Feed(crc, x, Copies(cp, TurnsOf(crc, x, cp, todo)))
    decreases todo
  {
    if todo > 0 {
      var n, now, x' := NextTurn(crc, x, cp, todo);
      ReceivedIsCopies(crc, x', cp, todo - n);
      FeedStep(crc, x, cp[..n], Copies(cp, TurnsOf(crc, x', cp, todo - n)));
    }
  }

  lemma FeedStep(crc: Crc, x: seq<byte>, c: seq<byte>, rest: seq<seq<byte>>)
    ensures var d := Drain(crc, x + c); Feed(crc, x, [c] + rest) == Onto(d.0, Feed(crc, d.1, rest))
  {
    assert ([c] + rest)[1..] == rest;
  }

  /** The bytes received are the bytes of the chunk exactly when it repeats its
      start in all later turns. */
  lemma {:induction false} CopiesRightIff(cp: seq<byte>, due: nat, ts: Turns)
    requires due <= |cp| && Sums(ts, |cp| - due)
    ensures |Concat(Copies(cp, ts))| == |cp| - due
    ensures Concat(Copies(cp, ts)) == cp[due..] <==> Repeats(cp, due, ts)
    decreases ts
  {
    if ts.Turn? {
      CopiesRightIff(cp, due + ts.n, ts.rest);
      FirstCopy(cp, due, ts.n, Copies(cp, ts.rest));
    }
  }

  /** The first copy and the rest, against the bytes that are due. */
  lemma FirstCopy(cp: seq<byte>, due: nat, n: nat, rest: seq<seq<byte>>)
    requires due + n <= |cp|
    ensures |Concat([cp[..n]] + rest)| == n + |Concat(rest)|
    ensures Concat([cp[..n]] + rest) == cp[due..] <==> cp[due..due + n] == cp[..n] && Concat(rest) == cp[due + n..]
  {
    assert ([cp[..n]] + rest)[1..] == rest;
    SplitSame(cp[..n], Concat(rest), cp[due..], n);
    assert cp[due..][..n] == cp[due..due + n] && cp[due..][n..] == cp[due + n..];
  }

  lemma SplitSame(a: seq<byte>, b: seq<byte>, c: seq<byte>, n: nat)
    requires |a| == n <= |c|
    ensures a + b == c <==> a == c[..n] && b == c[n..]
  {
    assert c == c[..n] + c[n..];
    if a + b == c {
      assert a == (a + b)[..n] && b == (a + b)[n..];
    }
  }

  lemma FitsRepeats(crc: Crc, x: seq<byte>, cp: seq<byte>)
    requires |x| < MAX_MSG && |x| + |cp| <= MAX_MSG
    ensures Repeats(cp, 0, TurnsOf(crc, x, cp, |cp|))
  {
    if cp != [] {
      var n, now, x' := NextTurn(crc, x, cp, |cp|);
    }
  }

  class Receiver {
    const crc: Crc
    const data: array<byte>
    var len: nat

    ghost predicate Valid()
      reads this
    {
      data.Length == MAX_MSG && len <= MAX_MSG
    }

    ghost function Held(): (d: seq<byte>)
      requires Valid()
      reads this, data
    {
      data[..len]
    }

    constructor (crc: Crc)
      ensures Valid() && Held() == [] && this.crc == crc
    {
      this.crc := crc;
      data := new byte[MAX_MSG](_ => 0);
      len := 0;
    }

    /** muc_uart_rx_cb */
    method RxCallback() returns (size: nat, msg: Option<Msg>)
      requires Valid()
      ensures Taken(size, msg) == Take(crc, Held())
    {
      size, msg := 0, None;
      ghost var d := Held();
      if len >= HEADER {
        if data[0] as nat + 0x100 * data[1] as nat != MAGIC {
          var i := 1;
          while i < len - 1 && data[i] as nat + 0x100 * data[i + 1] as nat != MAGIC
            invariant 1 <= i < len && FindMagic(d, 1) == FindMagic(d, i)
          {
            i := i + 1;
          }
          size := i;
        } else {
          size, msg := RxPacket();
        }
      }
    }

    /** The part of muc_uart_rx_cb after the magic number. */
    method RxPacket() returns (size: nat, msg: Option<Msg>)
      requires Valid() && len >= HEADER && MagicAt(Held(), 0)
      ensures Taken(size, msg) == Take(crc, Held())
    {
      size, msg := 0, None;
      ghost var d := Held();
      var n: nat := data[4] as nat + 0x100 * data[5] as nat;
      if n > MAX_PAYLOAD {
        size := HEADER;
      } else if len >= META + n {
        size := META + n;
        assert d[..HEADER + n] == data[..HEADER + n] && d[HEADER..HEADER + n] == data[HEADER..HEADER + n];
        if data[HEADER + n] as nat + 0x100 * data[HEADER + n + 1] as nat == crc(data[..HEADER + n]) {
          msg := Some(Msg(data[2] as nat + 0x100 * data[3] as nat, data[HEADER..HEADER + n]));
        }
      }
    }

    /** mmi_uart_consume_segment: one segment is taken off the front. */
    method ConsumeSegment() returns (more: bool, msg: Option<Msg>)
      requires Valid()
      modifies this`len, data
      ensures Valid()
      ensures var t := Take(crc, old(Held()));
              Held() == old(Held())[t.size..] && msg == t.msg && more == (t.size > 0 && Held() != [])
    {
      var size;
      size, msg := RxCallback();
      more := false;
      if size > 0 {
        var rest := data[size..len];
        len := len - size;
        if len > 0 {
          forall i | 0 <= i < len { data[i] := rest[i]; }
          more := true;
        }
        assert Held() == rest;
      }
    }

    /** The do-while loop around mmi_uart_consume_segment. */
    method ConsumeAll() returns (msgs: seq<Msg>)
      requires Valid()
      modifies this`len, data
      ensures Valid() && (msgs, Held()) == Drain(crc, old(Held()))
    {
      msgs := [];
      OntoTwice([], [], Drain(crc, Held()));
      var more := true;
      while more
        invariant Valid()
        invariant Drain(crc, old(Held())) == if more then Onto(msgs, Drain(crc, Held())) else (msgs, Held())
        decreases more, len
      {
        DrainStep(crc, Held(), msgs);
        var msg;
        more, msg := ConsumeSegment();
        msgs := msgs + Listed(msg);
      }
    }

    /** n_mmi_uart_receive_buf2; `stale` tells that the last bytes came too long
        ago. */
    method Receive(cp: seq<byte>, stale: bool) returns (msgs: seq<Msg>)
      requires Valid()
      modifies this`len, data
      ensures Valid()
      ensures (msgs, Held()) == Received(crc, if stale then [] else old(Held()), cp, |cp|)
      ensures old(len) < MAX_MSG ==> len < MAX_MSG
    {
      if len > 0 && stale { len := 0; }
      assert Held() == if stale then [] else old(Held());
      if len < MAX_MSG { ReceivedHasRoom(crc, Held(), cp, |cp|); }
      msgs := ReceiveFrom(cp, Held());
    }

    /** The loop over the chunk. */
    method ReceiveFrom(cp: seq<byte>, ghost x: seq<byte>) returns (msgs: seq<Msg>)
      requires Valid() && x == Held()
      modifies this`len, data
      ensures Valid() && (msgs, Held()) == Received(crc, x, cp, |cp|)
    {
      msgs := [];
      var todo: nat := |cp|;
      ghost var h := x;
      OntoTwice([], [], Received(crc, x, cp, |cp|));
      while todo > 0
        invariant Valid() && h == Held() && todo <= |cp|
        invariant Received(crc, x, cp, |cp|) == Onto(msgs, Received(crc, h, cp, todo))
      {
        var now;
        now, todo, h := ReceiveTurn(cp, todo, h, msgs);
        msgs := msgs + now;
      }
      ReceivedEnd(crc, h, cp, msgs);
    }

    method ReceiveTurn(cp: seq<byte>, todo: nat, ghost h: seq<byte>, ghost before: seq<Msg>)
      returns (now: seq<Msg>, todo': nat, ghost h': seq<byte>)
      requires Valid() && h == Held() && 0 < todo <= |cp|
      modifies this`len, data
      ensures Valid() && h' == Held() && todo' < todo
      ensures Onto(before, Received(crc, h, cp, todo)) == Onto(before + now, Received(crc, h', cp, todo'))
    {
      now, todo' := ReceiveSome(cp, todo);
      h' := Held();
      ReceivedStep(crc, h, cp, todo, now, h', todo', before);
    }

    /** One turn of that loop. */
    method ReceiveSome(cp: seq<byte>, todo: nat) returns (now: seq<Msg>, todo': nat)
      requires Valid() && 0 < todo <= |cp|
      modifies this`len, data
      ensures Valid() && todo' == todo - CopySize(Room(old(Held())), todo) < todo
      ensures (now, Held()) == Drain(crc, Copied(old(Held()), cp, todo))
    {
      var n := Fill(cp, todo);
      now := ConsumeAll();
      todo' := todo - n;
    }

    /** Copy as much as there is room for. */
    method Fill(cp: seq<byte>, todo: nat) returns (n: nat)
      requires Valid() && 0 < todo <= |cp|
      modifies this`len, data
      ensures Valid() && 0 < n <= todo && n == CopySize(Room(old(Held())), todo)
      ensures Held() == Copied(old(Held()), cp, todo)
    {
      if len == MAX_MSG { len := 0; }
      n := if todo <= MAX_MSG - len then todo else MAX_MSG - len;
      Append(cp[..n]);
    }

    /** memcpy to the end of the buffer. */
    method Append(s: seq<byte>)
      requires Valid() && |s| <= MAX_MSG - len
      modifies this`len, data
      ensures Valid() && Held() == old(Held()) + s
    {
      var start := len;
      forall i | 0 <= i < |s| { data[start + i] := s[i]; }
      len := len + |s|;
    }
  }

  function Listed(msg: Option<Msg>): (ms: seq<Msg>) {
    if msg.Some? then [msg.value] else []
  }

  /** One more segment of what is to be drained. */
  lemma DrainStep(crc: Crc, d: seq<byte>, before: seq<Msg>)
    ensures var t := Take(crc, d);
            var rest := d[t.size..];
            Onto(before, Drain(crc, d)) == if t.size > 0 && rest != []
                                           then Onto(before + Listed(t.msg), Drain(crc, rest))
                                           else (before + Listed(t.msg), rest)
  {
    var t := Take(crc, d);
    var rest := d[t.size..];
    if t.size > 0 {
      OntoTwice(before, Listed(t.msg), Drain(crc, rest));
      OntoTwice(before + Listed(t.msg), [], ([], []));
    }
  }

  /** What is copied of all the chunks. */
  function AllCopies(crc: Crc, x: seq<byte>, chunks: seq<seq<byte>>): (cs: seq<seq<byte>>)
    requires |x| < MAX_MSG
    decreases |chunks|
  {
    if chunks == [] then []
    else
      var cp := chunks[0];
      ReceivedHasRoom(crc, x, cp, |cp|);
      Copies(cp, TurnsOf(crc, x, cp, |cp|)) + AllCopies(crc, Received(crc, x, cp, |cp|).1, chunks[1..])
  }

  /** Every chunk fits the space that is free when it comes, or repeats its start. */
  predicate Faithful(crc: Crc, x: seq<byte>, chunks: seq<seq<byte>>)
    requires |x| < MAX_MSG
    decreases |chunks|
  {
    chunks == [] ||
    var cp := chunks[0];
    ReceivedHasRoom(crc, x, cp, |cp|);
    Repeats(cp, 0, TurnsOf(crc, x, cp, |cp|)) && Faithful(crc, Received(crc, x, cp, |cp|).1, chunks[1..])
  }

  lemma {:induction false} ConcatParts(a: seq<seq<byte>>, b: seq<seq<byte>>)
    ensures Concat(a + b) == Concat(a) + Concat(b)
  {
    if a == [] {
      assert a + b == b;
    } else {
      assert (a + b)[1..] == a[1..] + b;
      ConcatParts(a[1..], b);
      assert a[0] + (Concat(a[1..]) + Concat(b)) == (a[0] + Concat(a[1..])) + Concat(b);
    }
  }

  lemma {:induction false} FeedParts(crc: Crc, x: seq<byte>, a: seq<seq<byte>>, b: seq<seq<byte>>)
    ensures Feed(crc, x, a + b) == Onto(Feed(crc, x, a).0, Feed(crc, Feed(crc, x, a).1, b))
    decreases |a|
  {
    if a == [] {
      assert a + b == b;
      OntoTwice([], [], Feed(crc, x, b));
    } else {
      var d := Drain(crc, x + a[0]);
      assert (a + b)[1..] == a[1..] + b;
      FeedParts(crc, d.1, a[1..], b);
      OntoTwice(d.0, Feed(crc, d.1, a[1..]).0, Feed(crc, Feed(crc, x, a).1, b));
    }
  }

  /** The bytes received are the bytes sent exactly when every chunk fits or
      repeats its start. */
  lemma {:induction false} AllRightIff(crc: Crc, x: seq<byte>, chunks: seq<seq<byte>>)
    requires |x| < MAX_MSG
    ensures |Concat(AllCopies(crc, x, chunks))| == |Concat(chunks)|
    ensures Concat(AllCopies(crc, x, chunks)) == Concat(chunks) <==> Faithful(crc, x, chunks)
    decreases |chunks|
  {
    if chunks != [] {
      var cp := chunks[0];
      ReceivedHasRoom(crc, x, cp, |cp|);
      var now, x' := Copies(cp, TurnsOf(crc, x, cp, |cp|)), Received(crc, x, cp, |cp|).1;
      var later := AllCopies(crc, x', chunks[1..]);
      ConcatParts(now, later);
      TurnsSum(crc, x, cp, |cp|);
      CopiesRightIff(cp, 0, TurnsOf(crc, x, cp, |cp|));
      AllRightIff(crc, x', chunks[1..]);
      var whole := cp + Concat(chunks[1..]);
      assert cp[0..] == cp && whole[..|cp|] == cp && whole[|cp|..] == Concat(chunks[1..]);
      SplitSame(Concat(now), Concat(later), whole, |cp|);
    }
  }

  /** Every chunk fits into the room that the buffer then has. */
  ghost predicate AllFit(crc: Crc, x: seq<byte>, chunks: seq<seq<byte>>)
    requires |x| <= MAX_MSG
    decreases |chunks|
  {
    chunks == [] ||
    (|x| + |chunks[0]| <= MAX_MSG
     && |Received(crc, x, chunks[0], |chunks[0]|).1| <= MAX_MSG
     && AllFit(crc, Received(crc, x, chunks[0], |chunks[0]|).1, chunks[1..]))
  }

  /** Chunks that fit are received as they are. */
  lemma {:induction false} AllFitFaithful(crc: Crc, x: seq<byte>, chunks: seq<seq<byte>>)
    requires |x| < MAX_MSG && AllFit(crc, x, chunks)
    ensures Faithful(crc, x, chunks)
    decreases |chunks|
  {
    if chunks != [] {
      var cp := chunks[0];
      FitsRepeats(crc, x, cp);
      ReceivedHasRoom(crc, x, cp, |cp|);
      AllFitFaithful(crc, Received(crc, x, cp, |cp|).1, chunks[1..]);
    }
  }

  /** A whole reception, one call for each chunk: what is received is what is
      copied; and when the chunks carry garbage and messages and every one of them
      fits or repeats its start, each message is delivered once, in order. */
  method ReceiveAll(r: Receiver, chunks: seq<seq<byte>>, ghost g: seq<byte>, ghost ms: seq<Msg>)
    returns (msgs: seq<Msg>)
    requires r.Valid() && r.Held() == [] && Garbage(g) && Sendable(ms)
    requires Concat(chunks) == g + Stream(r.crc, ms)
    modifies r`len, r.data
    ensures r.Valid() && (msgs, r.Held()) == Feed(r.crc, [], AllCopies(r.crc, [], chunks))
    ensures Faithful(r.crc, [], chunks) ==> msgs == ms && (ms != [] || g == [] ==> r.Held() == [])
    ensures AllFit(r.crc, [], chunks) ==> msgs == ms && (ms != [] || g == [] ==> r.Held() == [])
  {
    msgs := [];
    assert chunks[0..] == chunks;
    OntoTwice([], [], Feed(r.crc, [], AllCopies(r.crc, [], chunks)));
    for i := 0 to |chunks|
      invariant r.Valid() && r.len < MAX_MSG
      invariant Feed(r.crc, [], AllCopies(r.crc, [], chunks))
             == Onto(msgs, Feed(r.crc, r.Held(), AllCopies(r.crc, r.Held(), chunks[i..])))
    {
      ghost var x := r.Held();
      assert chunks[i..][0] == chunks[i] && chunks[i..][1..] == chunks[i + 1..];
      ChunkStep(r.crc, x, chunks[i..], msgs);
      var now := r.Receive(chunks[i], false);
      msgs := msgs + now;
    }
    OntoTwice(msgs, [], ([], r.Held()));
    if AllFit(r.crc, [], chunks) { AllFitFaithful(r.crc, [], chunks); }
    if Faithful(r.crc, [], chunks) {
      AllRightIff(r.crc, [], chunks);
      ExactlyOnce(r.crc, g, ms, AllCopies(r.crc, [], chunks));
    }
  }

  /** One chunk of a reception. */
  lemma ChunkStep(crc: Crc, x: seq<byte>, chunks: seq<seq<byte>>, before: seq<Msg>)
    requires |x| < MAX_MSG && chunks != []
    ensures var r := Received(crc, x, chunks[0], |chunks[0]|);
            && |r.1| < MAX_MSG
            && Onto(before, Feed(crc, x, AllCopies(crc, x, chunks)))
               == Onto(before + r.0, Feed(crc, r.1, AllCopies(crc, r.1, chunks[1..])))
  {
    var cp := chunks[0];
    ReceivedHasRoom(crc, x, cp, |cp|);
    ReceivedIsCopies(crc, x, cp, |cp|);
    var r := Received(crc, x, cp, |cp|);
    var later := AllCopies(crc, r.1, chunks[1..]);
    FeedParts(crc, x, Copies(cp, TurnsOf(crc, x, cp, |cp|)), later);
    OntoTwice(before, r.0, Feed(crc, r.1, later));
  }

  /** A chunk that does not fit and does not repeat its start: two packets, the
      first of which fills the buffer. The second turn copies the first bytes of
      the first packet again; the second packet is lost, and these bytes are left. */
  lemma TooLongLoses(crc: Crc, m1: Msg, m2: Msg)
    requires |m1.payload| == MAX_PAYLOAD && m2.payload == []
    ensures var cp := Stream(crc, [m1, m2]);
            && Received(crc, [], cp, |cp|) == ([m1], Encode(crc, m1)[..META])
            && Feed(crc, [], [cp]) == ([m1, m2], [])
  {
    var cp := Stream(crc, [m1, m2]);
    LostSecond(crc, m1, m2);
    TwoPackets(crc, m1, m2);
    ExactlyOnce(crc, [], [m1, m2], [cp]);
  }

  lemma LostSecond(crc: Crc, m1: Msg, m2: Msg)
    requires |m1.payload| == MAX_PAYLOAD && m2.payload == []
    ensures var cp := Stream(crc, [m1, m2]);
            Received(crc, [], cp, |cp|) == ([m1], Encode(crc, m1)[..META])
  {
    var cp, e1 := Stream(crc, [m1, m2]), Encode(crc, m1);
    TwoPackets(crc, m1, m2);
    TakesPacket(crc, m1, []);
    assert e1 + [] == e1 && e1[|e1|..] == [];
    assert [m1] + [] == [m1];
    assert Drain(crc, e1) == ([m1], []);
    WaitsForRest(crc, m1, e1[..META]);
    assert [] + cp[..META] == e1[..META] && [] + cp[..MAX_MSG] == e1;
    OntoTwice([], [], ([], e1[..META]));
    assert Received(crc, [], cp, META) == ([], e1[..META]);
  }

  lemma TwoPackets(crc: Crc, m1: Msg, m2: Msg)
    requires |m1.payload| == MAX_PAYLOAD && m2.payload == []
    ensures var cp, e1 := Stream(crc, [m1, m2]), Encode(crc, m1);
            |cp| == MAX_MSG + META && cp[..MAX_MSG] == e1 && cp[..META] == e1[..META] && Concat([cp]) == [] + cp
  {
    var cp, e1, e2 := Stream(crc, [m1, m2]), Encode(crc, m1), Encode(crc, m2);
    assert [m1, m2][1..] == [m2] && [m2][1..] == [];
    assert Stream(crc, [m2]) == e2 + Stream(crc, []);
    assert cp == e1 + Stream(crc, [m2]);
  }
}

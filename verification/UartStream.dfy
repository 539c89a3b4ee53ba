/** Delivery over a stream of bytes: any messages, behind any garbage, cut into
    any chunks. */
module UartStream {
  import opened Common
  import opened UartFrame

  /** What was received of `g` and the messages `ms`, and what is still to come. */
  ghost predicate Cut(crc: Crc, g: seq<byte>, ms: seq<Msg>, x: seq<byte>, todo: seq<byte>) {
    Garbage(g) && Sendable(ms) && x + todo == g + Stream(crc, ms)
  }

  lemma SliceBoth(x: seq<byte>, todo: seq<byte>, g: seq<byte>, s: seq<byte>, k: nat)
    requires x + todo == g + s && k <= |x| && k <= |g|
    ensures x[k..] + todo == g[k..] + s && x[..k] == g[..k]
  {
    assert x[k..] + todo == (x + todo)[k..];
    assert g[k..] + s == (g + s)[k..];
    assert x[..k] == (x + todo)[..k] && g[..k] == (g + s)[..k];
  }

  lemma ThrowsGarbage(crc: Crc, g: seq<byte>, ms: seq<Msg>, x: seq<byte>, todo: seq<byte>)
    requires Cut(crc, g, ms, x, todo) && g != [] && |x| >= HEADER
    ensures var t := Take(crc, x); 0 < t.size <= |g| && t.size <= |x| && t.msg == None
  {
    var whole := g + Stream(crc, ms);
    assert x == whole[..|x|];
    if ms != [] { StreamStarts(crc, ms); }
    if |x| <= |g| + 1 {
      assert x <= g + [MAGIC_BYTE];
      GarbageAlone(crc, g, x);
    } else {
      assert x[..|g|] == g && x[|g|] == whole[|g|] && x[|g| + 1] == whole[|g| + 1];
      GarbageBefore(crc, g, x);
    }
  }

  /** A front of garbage is thrown out, but for the byte that may start a magic
      number. */
  lemma TakesGarbage(crc: Crc, g: seq<byte>, ms: seq<Msg>, x: seq<byte>, todo: seq<byte>)
    requires Cut(crc, g, ms, x, todo) && g != [] && |x| >= HEADER
    ensures var t := Take(crc, x);
            0 < t.size <= |g| && t.msg == None && Cut(crc, g[t.size..], ms, x[t.size..], todo)
  {
    ThrowsGarbage(crc, g, ms, x, todo);
    var k := Take(crc, x).size;
    GarbageSuffix(g, k);
    SliceBoth(x, todo, g, Stream(crc, ms), k);
  }

  lemma WholePacket(crc: Crc, m: Msg, s: seq<byte>, x: seq<byte>, todo: seq<byte>)
    requires |m.payload| <= MAX_PAYLOAD && x + todo == Encode(crc, m) + s && |x| >= |Encode(crc, m)|
    ensures var t, k := Take(crc, x), |Encode(crc, m)|;
            t.size == k > 0 && t.msg == Some(m) && x[k..] + todo == s
  {
    var e := Encode(crc, m);
    var k := |e|;
    SliceBoth(x, todo, e, s, k);
    assert e[..k] == e && e[k..] + s == s && x == e + x[k..];
    TakesPacket(crc, m, x[k..]);
  }

  lemma PartPacket(crc: Crc, m: Msg, s: seq<byte>, x: seq<byte>, todo: seq<byte>)
    requires |m.payload| <= MAX_PAYLOAD && x + todo == Encode(crc, m) + s && |x| < |Encode(crc, m)|
    ensures Take(crc, x).size == 0
  {
    SliceBoth(x, todo, Encode(crc, m), s, |x|);
    assert x[..|x|] == x;
    WaitsForRest(crc, m, x);
  }

  /** A front that is the start of a packet waits for the rest, or is taken. */
  lemma TakesFirst(crc: Crc, ms: seq<Msg>, x: seq<byte>, todo: seq<byte>)
    requires Cut(crc, [], ms, x, todo)
    ensures var t := Take(crc, x);
            && (t.size == 0 <==> ms == [] || |x| < |Encode(crc, ms[0])|)
            && (t.size > 0 ==> t.msg == Some(ms[0]) && Cut(crc, [], ms[1..], x[t.size..], todo))
  {
    if ms != [] {
      var s := Stream(crc, ms[1..]);
      assert [] + s == s && [] + Stream(crc, ms) == Encode(crc, ms[0]) + s;
      if |x| < |Encode(crc, ms[0])| {
        PartPacket(crc, ms[0], s, x, todo);
      } else {
        WholePacket(crc, ms[0], s, x, todo);
      }
    }
  }

  /** What is left after k messages: nothing that could be taken, the rest of the
      garbage only if no message was there yet. */
  ghost predicate Settled(crc: Crc, g: seq<byte>, ms: seq<Msg>, k: nat, x: seq<byte>, todo: seq<byte>) {
    k <= |ms| && Cut(crc, g, ms[k..], x, todo) && Take(crc, x).size == 0 && (k > 0 ==> g == [])
  }

  lemma {:induction false} DrainDelivers(crc: Crc, g: seq<byte>, ms: seq<Msg>, x: seq<byte>, todo: seq<byte>)
    returns (g': seq<byte>, k: nat)
    requires Cut(crc, g, ms, x, todo)
    ensures k <= |ms| && Drain(crc, x).0 == ms[..k]
    ensures Settled(crc, g', ms, k, Drain(crc, x).1, todo) && (g == [] ==> g' == [])
    decreases |x|
  {
    g', k := g, 0;
    var t := Take(crc, x);
    assert ms[0..] == ms;
    if t.size > 0 && g != [] {
      TakesGarbage(crc, g, ms, x, todo);
      g', k := DrainDelivers(crc, g[t.size..], ms, x[t.size..], todo);
      assert [] + ms[..k] == ms[..k];
    } else if t.size > 0 {
      TakesFirst(crc, ms, x, todo);
      g', k := DrainDelivers(crc, [], ms[1..], x[t.size..], todo);
      assert ms[1..][k..] == ms[k + 1..] && [ms[0]] + ms[1..][..k] == ms[..k + 1];
      k := k + 1;
    }
  }

  function Concat(chunks: seq<seq<byte>>): (d: seq<byte>) {
    if chunks == [] then [] else chunks[0] + Concat(chunks[1..])
  }

  /** Receiving the chunks one after the other, from a buffer that holds `x`. */
  function Feed(crc: Crc, x: seq<byte>, chunks: seq<seq<byte>>): (r: (seq<Msg>, seq<byte>))
    decreases |chunks|
  {
    if chunks == [] then ([], x)
    else
      var (now, x') := Drain(crc, x + chunks[0]);
      var (later, rest) := Feed(crc, x', chunks[1..]);
      (now + later, rest)
  }

  /** When all has come, all is delivered. */
  lemma NothingLeft(crc: Crc, g: seq<byte>, ms: seq<Msg>, x: seq<byte>)
    requires Cut(crc, g, ms, x, []) && Take(crc, x).size == 0
    ensures ms == [] && x == g
  {
    assert x + [] == x;
    if ms != [] {
      StreamStarts(crc, ms);
      if g != [] {
        TakesGarbage(crc, g, ms, x, []);
      } else {
        assert [] + Stream(crc, ms) == Stream(crc, ms);
        TakesFirst(crc, ms, x, []);
      }
    } else {
      assert g + [] == g;
    }
  }

  lemma {:induction false} FeedDelivers(crc: Crc, g: seq<byte>, ms: seq<Msg>, x: seq<byte>, chunks: seq<seq<byte>>)
    requires Cut(crc, g, ms, x, Concat(chunks)) && Take(crc, x).size == 0
    ensures Feed(crc, x, chunks).0 == ms
    ensures ms != [] || g == [] ==> Feed(crc, x, chunks).1 == []
    decreases |chunks|
  {
    if chunks == [] {
      NothingLeft(crc, g, ms, x);
    } else {
      var todo := Concat(chunks[1..]);
      assert x + (chunks[0] + todo) == (x + chunks[0]) + todo;
      var g', k := DrainDelivers(crc, g, ms, x + chunks[0], todo);
      FeedDelivers(crc, g', ms[k..], Drain(crc, x + chunks[0]).1, chunks[1..]);
      assert ms[..k] + ms[k..] == ms;
    }
  }

  /** Any messages, sent back to back behind any garbage and received in any
      chunks, are delivered once each and in order, and nothing is left over. */
  lemma ExactlyOnce(crc: Crc, g: seq<byte>, ms: seq<Msg>, chunks: seq<seq<byte>>)
    requires Garbage(g) && Sendable(ms) && Concat(chunks) == g + Stream(crc, ms)
    ensures Feed(crc, [], chunks).0 == ms
    ensures ms != [] || g == [] ==> Feed(crc, [], chunks).1 == []
  {
    assert [] + Concat(chunks) == Concat(chunks);
    FeedDelivers(crc, g, ms, [], chunks);
  }

  /** A header with a length that no message has is dropped alone: the packet behind
      it is received as if it had not been there. */
  lemma BadLengthDropped(crc: Crc, h: seq<byte>, rest: seq<byte>)
    requires |h| == 6 && h[0] == 0xA1 && h[1] == 0xA1 && h[4] as nat + 0x100 * h[5] as nat > 2040
    ensures Drain(crc, h + rest) == Drain(crc, rest)
  {
    var d := h + rest;
    BadLength(crc, d);
    assert d[6..] == rest;
    var r := Drain(crc, rest);
    assert [] + r.0 == r.0;
  }

  /** A packet whose check sum is wrong is dropped alone: what follows it is
      received as if it had not been there. */
  lemma CorruptDropped(crc: Crc, m: Msg, sum: u16, rest: seq<byte>)
    requires |m.payload| <= MAX_PAYLOAD && sum != crc(Content(m))
    ensures Drain(crc, Content(m) + Le16Bytes(sum) + rest) == Drain(crc, rest)
  {
    var d, n := Content(m) + Le16Bytes(sum) + rest, |m.payload|;
    var good := Encode(crc, m) + rest;
    PacketFields(crc, m, rest);
    assert d[..HEADER + n] == Content(m) && good[..HEADER + n] == Content(m);
    assert d[0] == good[0] && d[1] == good[1] && d[4] == good[4] && d[5] == good[5];
    assert d[HEADER + n..HEADER + n + 2] == Le16Bytes(sum);
    Le16RoundTrip(sum, d, HEADER + n);
    assert Take(crc, d) == Taken(META + n, None);
    assert d[META + n..] == rest && [] + Drain(crc, rest).0 == Drain(crc, rest).0;
  }
}

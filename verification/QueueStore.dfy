/** The sysfs attribute of the playback queue, on the device state:
    cs40l2x_cp_trigger_queue_store and cs40l2x_cp_trigger_queue_show. */
module QueueStore {
  import opened Common
  import opened Playback
  import opened PlaybackQueue
  import opened QueuePlayer
  import opened QueueRoundTrip
  import opened QueueText
  import opened Text
  import opened WholeQueue

  /** The pairs and variables of the parser stand for what was read. */
  ghost predicate Holds(ps: seq<Pair>, depth: nat, repeat: int, marker: int, st: Parsed) {
    depth <= |ps| && Items(ps[..depth]) == st.items && repeat == st.repeat && marker == st.marker
  }

  /** What was read, from the pairs and variables. */
  ghost function Read(ps: seq<Pair>, depth: nat, repeat: int, marker: int): (st: Parsed)
    requires depth <= |ps|
  {
    Parsed(Items(ps[..depth]), repeat, marker)
  }

  /** The items of a good queue are well formed pairs. */
  lemma {:induction false} GoodIsWellFormed(ps: seq<Pair>, numWaves: nat)
    requires GoodItems(Items(ps), numWaves)
    ensures WellFormed(ps) && Marker(ps) == MarkerOf(Items(ps))
  {
    if ps != [] {
      assert Items(ps)[..|ps| - 1] == Items(ps[..|ps| - 1]);
      assert Items(ps)[|ps| - 1] == ItemOf(ps[|ps| - 1]);
      GoodIsWellFormed(ps[..|ps| - 1], numWaves);
    }
  }

  lemma ItemsPut(ps: seq<Pair>, depth: nat, p: Pair)
    requires depth < |ps|
    ensures Items(ps[depth := p][..depth + 1]) == Items(ps[..depth]) + [ItemOf(p)]
  {
  }

  /** Fill the pair at `depth`; fields that its tag does not use keep their value. */
  method PutPair(q: Queue, depth: nat, p: Pair)
    requires depth < q.pairs.Length
    modifies q.pairs
    ensures Items(q.pairs[..depth + 1]) == Items(old(q.pairs[..depth])) + [ItemOf(p)]
    ensures q.pairs[depth + 1..] == old(q.pairs[depth + 1..])
  {
    q.pairs[depth] := p;
    ItemsPut(old(q.pairs[..]), depth, p);
    assert q.pairs[..] == old(q.pairs[..])[depth := p];
    assert q.pairs[..depth + 1] == q.pairs[..][..depth + 1];
    assert old(q.pairs[..depth]) == old(q.pairs[..])[..depth];
  }

  /** The loop over the tokens between exclamation marks. */
  method CountBangs(seg: string) returns (ok: bool, val: nat, empty: nat)
    ensures Bangs(Some(seg), 0, 0) == if ok then Some((val, empty)) else None
  {
    ok, val, empty := true, 0, 0;
    var str := Some(seg);
    while ok && str.Some?
      invariant Bangs(Some(seg), 0, 0) == if ok then Bangs(str, val, empty) else None
      decreases ok, if str.Some? then |str.value| + 1 else 0
    {
      var (tok, rest) := Strsep(str.value, '!');
      str := rest;
      if tok == [] {
        empty := empty + 1;
      } else {
        var n := Kstrtou32(tok);
        if n.None? || n.value > REPEAT_MAX {
          ok := false;
        } else {
          val := n.value;
        }
      }
    }
  }

  /** What a segment did: `cmd` was applied, or was not possible. */
  ghost predicate Did(st: Parsed, cmd: Option<Command>, ok: bool, ps: seq<Pair>, depth: nat, repeat: int, marker: int) {
    var st' := if cmd.None? then None else Apply(st, cmd.value);
    ok == st'.Some? && (ok ==> Holds(ps, depth, repeat, marker, st'.value))
  }

  /** Waveform specifier. */
  method StoreWave(q: Queue, seg: string, numWaves: nat, depth: nat, ghost marker: int) returns (ok: bool)
    requires depth < q.pairs.Length && '.' in seg && numWaves <= TAG_START
    modifies q.pairs
    ensures Did(Read(old(q.pairs[..]), depth, q.repeat, marker), ReadWave(seg, numWaves), ok,
                q.pairs[..], depth + 1, q.repeat, marker)
    ensures q.pairs[depth + 1..] == old(q.pairs[depth + 1..])
  {
    IndexOfFirst(seg, '.');
    var (tok, rest) := Strsep(seg, '.');
    var index := Kstrtou32(tok);
    ok := index.Some? && 0 < index.value < numWaves;
    if ok {
      q.pairs[depth] := q.pairs[depth].(tag := index.value);
      assert q.pairs[..depth] == old(q.pairs[..depth]);
      var scale := Kstrtou32(Strsep(rest.value, '.').0);
      ok := scale.Some? && 0 < scale.value <= SCALE_MAX;
      if ok {
        PutPair(q, depth, q.pairs[depth].(mag := scale.value));
        assert q.pairs[..][..depth + 1] == q.pairs[..depth + 1];
      }
    }
    assert old(q.pairs[..])[..depth] == old(q.pairs[..depth]);
  }

  /** Duration specifier. */
  method StoreDelay(q: Queue, seg: string, depth: nat, ghost marker: int) returns (ok: bool)
    requires depth < q.pairs.Length
    modifies q.pairs
    ensures Did(Read(old(q.pairs[..]), depth, q.repeat, marker), ReadDelay(seg), ok,
                q.pairs[..], depth + 1, q.repeat, marker)
    ensures q.pairs[depth + 1..] == old(q.pairs[depth + 1..])
  {
    q.pairs[depth] := q.pairs[depth].(tag := TAG_SILENCE);
    assert q.pairs[..depth] == old(q.pairs[..depth]);
    var ms := Kstrtou32(seg);
    ok := ms.Some? && ms.value <= DELAY_MAX;
    if ok {
      PutPair(q, depth, q.pairs[depth].(mag := ms.value));
      assert q.pairs[..][..depth + 1] == q.pairs[..depth + 1];
    }
    assert old(q.pairs[..])[..depth] == old(q.pairs[..depth]);
  }

  /** Repetition specifier: the number of empty tokens tells which. */
  method StoreRepeat(q: Queue, seg: string, depth: nat, marker: int) returns (ok: bool, depth': nat, marker': int)
    requires depth < q.pairs.Length && -1 <= marker
    modifies q.pairs, q`repeat
    ensures ok ==> depth <= depth' <= depth + 1
    ensures Did(Read(old(q.pairs[..]), depth, old(q.repeat), marker), ReadRepeat(seg), ok,
                q.pairs[..], depth', q.repeat, marker')
    ensures ok ==> q.pairs[depth'..] == old(q.pairs[depth'..])
  {
    var val, empty;
    ok, val, empty := CountBangs(seg);
    depth', marker' := depth, marker;
    assert old(q.pairs[..])[..depth] == old(q.pairs[..depth]);
    if ok && empty == 1 {
      ok := q.repeat == 0;
      if ok { q.repeat := val; }
    } else if ok && empty == 2 {
      ok := marker >= 0;
      if ok {
        PutPair(q, depth, q.pairs[depth].(tag := TAG_STOP, mag := marker, repeat := val));
        depth', marker' := depth + 1, -1;
        assert q.pairs[..][..depth + 1] == q.pairs[..depth + 1];
      }
    } else if ok && empty == 3 {
      ok := marker < 0;
      if ok {
        PutPair(q, depth, q.pairs[depth].(tag := TAG_START));
        depth', marker' := depth + 1, depth;
        assert q.pairs[..][..depth + 1] == q.pairs[..depth + 1];
      }
    } else {
      ok := false;
    }
  }

  /** One segment of the text. */
  method StoreSegment(q: Queue, tok: string, numWaves: nat, depth: nat, marker: int)
    returns (err: Option<Error>, depth': nat, marker': int)
    requires depth < q.pairs.Length == DEPTH_MAX && -1 <= marker && numWaves <= TAG_START
    modifies q.pairs, q`repeat
    ensures var r := Segment(Read(old(q.pairs[..]), depth, old(q.repeat), marker), tok, numWaves);
            && err == (if r.Ok? then None else Some(r.error))
            && (r.Ok? ==> depth' < DEPTH_MAX && Holds(q.pairs[..], depth', q.repeat, marker', r.value))
    ensures err.None? ==> depth <= depth' < DEPTH_MAX && q.pairs[depth'..] == old(q.pairs[depth'..])
  {
    var seg := Strim(tok);
    depth', marker' := depth, marker;
    if |seg| > SEG_LEN_MAX {
      err := Some(E2BIG);
    } else {
      var ok;
      ok, depth', marker' := StoreTrimmed(q, seg, numWaves, depth, marker);
      err := if !ok then Some(EINVAL) else if depth' == DEPTH_MAX then Some(E2BIG) else None;
    }
  }

  method StoreTrimmed(q: Queue, seg: string, numWaves: nat, depth: nat, marker: int)
    returns (ok: bool, depth': nat, marker': int)
    requires depth < q.pairs.Length && -1 <= marker && numWaves <= TAG_START
    modifies q.pairs, q`repeat
    ensures ok ==> depth <= depth' <= depth + 1
    ensures Did(Read(old(q.pairs[..]), depth, old(q.repeat), marker), ReadSegment(seg, numWaves), ok,
                q.pairs[..], depth', q.repeat, marker')
    ensures ok ==> q.pairs[depth'..] == old(q.pairs[depth'..])
  {
    depth', marker' := depth + 1, marker;
    if '.' in seg {
      ok := StoreWave(q, seg, numWaves, depth, marker);
    } else if '!' in seg {
      ok, depth', marker' := StoreRepeat(q, seg, depth, marker);
    } else if '~' in seg {
      depth' := depth;
      ok := q.repeat == 0;
      if ok { q.repeat := FOREVER; }
    } else {
      ok := StoreDelay(q, seg, depth, marker);
    }
  }

  /** The loop over the segments. */
  method StoreAll(q: Queue, text: string, numWaves: nat) returns (err: Option<Error>, depth: nat, ghost marker: int)
    requires q.pairs.Length == DEPTH_MAX && numWaves <= TAG_START && q.repeat == 0
    modifies q.pairs, q`repeat
    ensures var r := Parse(NOTHING, Some(text), numWaves);
            && err == (if r.Ok? then None else Some(r.error))
            && (r.Ok? ==> depth < DEPTH_MAX && Holds(q.pairs[..], depth, q.repeat, marker, r.value))
    ensures err.None? ==> depth < DEPTH_MAX && q.pairs[depth..] == old(q.pairs[depth..])
  {
    err, depth := None, 0;
    var mark: int := -1;
    var str := Some(text);
    ghost var st := NOTHING;
    while str.Some? && err.None?
      invariant err.None? ==> depth < DEPTH_MAX && mark >= -1 && st == Read(q.pairs[..], depth, q.repeat, mark)
      invariant err.None? ==> q.pairs[depth..] == old(q.pairs[depth..])
      invariant Parse(NOTHING, Some(text), numWaves) == if err.Some? then Err(err.value) else Parse(st, str, numWaves)
      decreases err.None?, if str.Some? then |str.value| + 1 else 0
    {
      var (tok, rest) := Strsep(str.value, ',');
      ghost var r, d, ps := Segment(st, tok, numWaves), depth, q.pairs[..];
      err, depth, mark := StoreSegment(q, tok, numWaves, depth, mark);
      str := rest;
      if r.Ok? {
        LaterSame(q.pairs[..], ps, old(q.pairs[..]), d, depth);
        MarkerKept(st, tok, numWaves);
        st := r.value;
      }
    }
    marker := mark;
  }

  lemma LaterSame(a: seq<Pair>, b: seq<Pair>, c: seq<Pair>, d: nat, d': nat)
    requires d <= d' <= |a| == |b| == |c| && a[d'..] == b[d'..] && b[d..] == c[d..]
    ensures a[d'..] == c[d'..]
  {
    assert b[d'..] == b[d..][d' - d..] && c[d'..] == c[d..][d' - d..];
  }

  lemma MarkerKept(st: Parsed, tok: string, numWaves: nat)
    requires st.marker >= -1 && Segment(st, tok, numWaves).Ok?
    ensures Segment(st, tok, numWaves).value.marker >= -1
  {
  }

  /** A queue that a successful store left. */
  ghost predicate Good(q: Queue, numWaves: nat)
    reads q, q.pairs
  {
    q.Stored() && GoodItems(Items(q.pairs[..q.depth]), numWaves) && q.repeat <= REPEAT_MAX
  }

  /** cs40l2x_cp_trigger_queue_store: on success the queue is what the text
      says; on any error it is empty. */
  method Store(q: Queue, buf: string, numWaves: nat) returns (err: Option<Error>)
    requires q.pairs.Length == DEPTH_MAX && buf != [] && numWaves <= TAG_START
    modifies q.pairs, q`repeat, q`depth
    ensures var r := ParseText(buf, numWaves);
            && err == (if r.Ok? then None else Some(r.error))
            && (r.Ok? ==> q.Stored() && Items(q.pairs[..q.depth]) == r.value.items && q.repeat == r.value.repeat)
            && (r.Ok? ==> Good(q, numWaves))
            && (r.Err? ==> q.depth == 0)
            && (r.Ok? ==> q.pairs[q.depth..] == old(q.pairs[|r.value.items|..]))
  {
    q.depth, q.repeat := 0, 0;
    var text := Strlcpy(buf, |buf|);
    var depth: nat;
    ghost var marker;
    if Parse(NOTHING, Some(text), numWaves).Ok? { ParseGood(NOTHING, Some(text), numWaves); }
    err, depth, marker := StoreAll(q, text, numWaves);
    if err.None? {
      q.depth := depth;
      GoodIsWellFormed(q.pairs[..][..depth], numWaves);
      assert q.pairs[..][..depth] == q.pairs[..depth];
    }
  }

  lemma {:induction false} ShowItemsSnoc(items: seq<Item>, k: nat)
    requires k < |items|
    ensures ShowItems(items[..k + 1])
         == if k == 0 then ShowItem(items[0]) else ShowItems(items[..k]) + ", " + ShowItem(items[k])
    decreases |items|
  {
    if k > 0 {
      ShowItemsSnoc(items[1..], k - 1);
      assert items[1..][..k] == items[..k + 1][1..] && items[1..][..k - 1] == items[..k][1..];
    }
  }

  function ShowPair(p: Pair): (s: string)
    ensures s == ShowItem(ItemOf(p))
  {
    if p.tag == TAG_SILENCE then Dec(p.mag)
    else if p.tag == TAG_START then "!!"
    else if p.tag == TAG_STOP then Dec(p.repeat) + "!!"
    else Dec(p.tag) + "." + Dec(p.mag)
  }

  lemma ShowNext(items: seq<Item>, i: nat, text: string)
    requires i < |items| && text == ShowItems(items[..i]) + Comma(i, |items|)
    ensures text + ShowItem(items[i]) + Comma(i + 1, |items|) == ShowItems(items[..i + 1]) + Comma(i + 1, |items|)
  {
    ShowItemsSnoc(items, i);
  }

  function Comma(i: nat, n: nat): (s: string) {
    if 0 < i < n then ", " else ""
  }

  /** The items of the queue, one after the other. */
  method ShowPairs(q: Queue) returns (text: string)
    requires q.depth <= q.pairs.Length
    ensures text == ShowItems(Items(q.pairs[..q.depth]))
  {
    ghost var items := Items(q.pairs[..q.depth]);
    text := "";
    var i := 0;
    while i < q.depth
      invariant 0 <= i <= q.depth
      invariant text == ShowItems(items[..i]) + Comma(i, |items|)
    {
      ShowNext(items, i, text);
      text := text + ShowPair(q.pairs[i]) + (if i < q.depth - 1 then ", " else "");
      i := i + 1;
    }
    assert items[..i] == items;
  }

  /** cs40l2x_cp_trigger_queue_show; None is the error ENODATA. */
  method Show(q: Queue, ghost numWaves: nat) returns (buf: Option<string>)
    requires Good(q, numWaves) && numWaves <= TAG_START
    ensures buf.None? <==> q.depth == 0
    ensures buf.Some? ==> buf.value == ShowText(Items(q.pairs[..q.depth]), q.repeat) && |buf.value| < PAGE_SIZE
  {
    buf := None;
    if q.depth > 0 {
      var text := ShowPairs(q);
      ShowFits(Items(q.pairs[..q.depth]), q.repeat, numWaves);
      buf := Some(text + (if q.repeat == FOREVER then ", ~\n"
                          else if q.repeat == 0 then "\n"
                          else ", " + Dec(q.repeat) + "!\n"));
    }
  }

  /** Storing what the attribute shows changes nothing in the meaning of a
      queue that is not empty: the same items, the same repeat. */
  method Reload(q: Queue, numWaves: nat) returns (err: Option<Error>)
    requires Good(q, numWaves) && q.depth > 0 && numWaves <= TAG_START
    modifies q.pairs, q`repeat, q`depth
    ensures err == None && Good(q, numWaves) && q.depth == old(q.depth)
    ensures Items(q.pairs[..q.depth]) == old(Items(q.pairs[..q.depth])) && q.repeat == old(q.repeat)
  {
    ghost var items := Items(q.pairs[..q.depth]);
    var buf := Show(q, numWaves);
    ShowStore(Parsed(items, q.repeat, MarkerOf(items)), numWaves);
    err := Store(q, buf.value, numWaves);
  }

  /** The store does not look at playback. When the queue is stored while it plays,
      the launches that follow look at pairs of the new queue only exactly when the
      index that playback has reached is not past its end, and it is not empty or
      playback was in its last pass. */
  method StoreMidway(q: Queue, buf: string, numWaves: nat) returns (err: Option<Error>)
    requires q.Shaped() && q.remain >= FOREVER && buf != [] && numWaves <= TAG_START
    modifies q.pairs, q`repeat, q`depth
    ensures q.Shaped() && q.index == old(q.index) && q.remain == old(q.remain)
    ensures var r := ParseText(buf, numWaves);
            var depth := if r.Ok? then |r.value.items| else 0;
            && q.depth == depth
            && ((forall k: nat :: InQueue(Later(q.Everything(), k))) <==>
                  old(q.index) <= depth && (depth > 0 || old(q.remain) == 0))
  {
    err := Store(q, buf, numWaves);
    q.EverythingIs();
    InQueueIff(q.Everything());
  }

  lemma SilenceMore(items: seq<Item>, ms: nat)
    requires GoodItems(items, 1) && MarkerOf(items) == -1 && ms <= DELAY_MAX
    ensures var more := items + [Play(Silence(ms))]; GoodItems(more, 1) && MarkerOf(more) == -1
  {
    var more := items + [Play(Silence(ms))];
    assert more[..|more| - 1] == items;
  }

  lemma OneText()
    ensures ParseText("5\n", 1) == Ok(Parsed([Play(Silence(5))], 0, -1))
  {
    var one := [] + [Play(Silence(5))];
    SilenceMore([], 5);
    ShowStore(Parsed(one, 0, -1), 1);
    assert Dec(5) == "5" && ShowText(one, 0) == "5\n";
  }

  lemma ThreeText()
    ensures ParseText("5, 6, 7\n", 1) == Ok(Parsed([Play(Silence(5)), Play(Silence(6)), Play(Silence(7))], 0, -1))
  {
    var one, three := [Play(Silence(5))], [Play(Silence(5)), Play(Silence(6)), Play(Silence(7))];
    SilenceMore([], 5);
    assert [] + one == one;
    SilenceMore(one, 6);
    SilenceMore(one + [Play(Silence(6))], 7);
    assert one + [Play(Silence(6))] + [Play(Silence(7))] == three;
    ShowStore(Parsed(three, 0, -1), 1);
    ThreeShown(three);
  }

  lemma ThreeShown(items: seq<Item>)
    requires items == [Play(Silence(5)), Play(Silence(6)), Play(Silence(7))]
    ensures ShowText(items, 0) == "5, 6, 7\n"
  {
    assert Dec(5) == "5" && Dec(6) == "6" && Dec(7) == "7";
    assert items[1..] == [Play(Silence(6)), Play(Silence(7))] && items[1..][1..] == [Play(Silence(7))];
    assert ShowItems(items[1..]) == "6" + ", " + "7";
  }

  /** A silence is launched, and the index moves on. */
  lemma SilenceNext(p: Player, ms: nat)
    requires Playable(p) && p.index < |p.q| && Items(p.q)[p.index] == Play(Silence(ms))
    ensures !Spinning(p) && Launch(p) == Launched(Silence(ms), p.(index := p.index + 1))
  {
    assert Items(p.q)[p.index] == ItemOf(p.q[p.index]);
    assert HasEvent(p.q);
    SpinningIff(p);
  }

  lemma ThreeStart(ps: seq<Pair>)
    requires Items(ps) == [Play(Silence(5)), Play(Silence(6)), Play(Silence(7))] && WellFormed(ps)
    ensures HasEvent(ps) && |Reset(ps)| == 3 && ItemOf(Reset(ps)[2]) == Play(Silence(7))
    ensures var p := Player(Reset(ps), 0, 0);
            && Playable(p) && !Spinning(p) && Launch(p) == Launched(Silence(5), p.(index := 1))
            && Playable(p.(index := 1)) && !Spinning(p.(index := 1))
            && Launch(p.(index := 1)) == Launched(Silence(6), p.(index := 2))
  {
    assert Items(ps)[0] == ItemOf(ps[0]);
    assert HasEvent(ps);
    StartReady(ps, 0);
    ItemsOfShape(ps, Reset(ps));
    SilenceNext(Player(Reset(ps), 0, 0), 5);
    SilenceNext(Player(Reset(ps), 1, 0), 6);
    assert Items(Reset(ps))[2] == ItemOf(Reset(ps)[2]);
  }

  /** Three silences are stored and two of them launched. */
  method PlayTwo() returns (q: Queue)
    ensures fresh(q) && fresh(q.pairs) && q.Shaped() && q.index == 2 && q.remain == 0
    ensures ItemOf(q.pairs[2]) == Play(Silence(7))
  {
    ThreeText();
    q := new Queue();
    var err := Store(q, "5, 6, 7\n", 1);
    ThreeStart(q.pairs[..q.depth]);
    var ev := q.Start();
    ev := q.Worker(true);
    assert q.pairs[..3][2] == q.pairs[2];
  }

  /** How it happens: of three silences two were launched when a queue of one silence
      is stored. The worker then launches the third of the old ones. */
  method StoredPastEnd() returns (q: Queue, ev: Option<Event>)
    ensures q.Shaped() && Items(q.pairs[..q.depth]) == [Play(Silence(5))]
    ensures ev == Some(Silence(7))
  {
    OneText();
    q := PlayTwo();
    ghost var stale := q.pairs[2];
    var err := Store(q, "5\n", 1);
    assert q.pairs[1..][1] == stale;
    var finished;
    ev, finished := q.OneTurn();
  }

  /** A start looks at pairs of the queue only exactly when there are any or the queue
      is not repeated. */
  lemma StartInQueueIff(pairs: seq<Pair>, depth: nat, repeat: int)
    requires depth <= |pairs| && WellFormed(pairs[..depth]) && repeat >= FOREVER
    ensures var w := Whole(Reset(pairs[..depth]) + pairs[depth..], depth, 0, repeat);
            (forall k: nat :: InQueue(Later(w, k))) <==> depth > 0 || repeat == 0
  {
    var w := Whole(Reset(pairs[..depth]) + pairs[depth..], depth, 0, repeat);
    assert w.pairs[..depth] == Reset(pairs[..depth]);
    ResetShape(pairs[..depth]);
    InQueueIff(w);
  }

  /** A text that is accepted and leaves an empty queue to repeat for ever. */
  lemma EmptyText(pairs: seq<Pair>)
    ensures ParseText("~\n", 1) == Ok(Parsed([], FOREVER, -1))
    ensures !InQueue(Whole(pairs, 0, 0, FOREVER))
  {
    CopyLosesLast("~");
    assert "~" + "\n" == "~\n";
    EndlessReads(1);
    SegmentIs(NOTHING, "~", "~", Endless, Parsed([], FOREVER, -1), 1);
    ParseStep(NOTHING, "~", "", Parsed([], FOREVER, -1), 1);
  }

  /** A text that is accepted and hangs the launch: an open loop, repeated for ever. */
  lemma SpinningText(q: seq<Pair>)
    requires Items(q) == [LoopStart]
    ensures ParseText("!!, ~\n", 1) == Ok(Parsed([LoopStart], FOREVER, 0))
    ensures WellFormed(q) && forall k: nat :: After(Player(q, 0, FOREVER), k).More?
  {
    var st := Parsed([LoopStart], FOREVER, 0);
    assert st.items[..0] == [];
    ShowStore(st, 1);
    assert ShowText(st.items, FOREVER) == "!!, ~\n";
    GoodIsWellFormed(q, 1);
    assert Items(q)[0] == ItemOf(q[0]);
    SpinningIff(Player(q, 0, FOREVER));
    forall k: nat ensures After(Player(q, 0, FOREVER), k).More? { SpinsOn(Player(q, 0, FOREVER), k); }
  }
}

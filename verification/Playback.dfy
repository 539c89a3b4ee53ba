/** The haptics playback queue of drivers/misc/cs40l2x.c: what a queue means,
    and how one pass over it runs. */
module Playback {
  const TAG_SILENCE: nat := 0x0000
  const TAG_START: nat := 0x8000
  const TAG_STOP: nat := 0x8001

  /** struct cs40l2x_pbq_pair */
  datatype Pair = Pair(tag: nat, mag: nat, repeat: nat, remain: nat)

  /** What the queue makes the device do. */
  datatype Event = Silence(ms: nat) | Wave(index: nat, scale: nat)

  predicate IsEvent(p: Pair) {
    p.tag != TAG_START && p.tag != TAG_STOP
  }

  function EventOf(p: Pair): (e: Event) {
    if p.tag == TAG_SILENCE then Silence(p.mag) else Wave(p.tag, p.mag)
  }

  /** What a pair stands for: the fields its tag does not use are left out. */
  datatype Item = Play(e: Event) | LoopStart | LoopStop(target: nat, times: nat)

  function ItemOf(p: Pair): (it: Item) {
    if p.tag == TAG_START then LoopStart
    else if p.tag == TAG_STOP then LoopStop(p.mag, p.repeat)
    else Play(EventOf(p))
  }

  function Items(q: seq<Pair>): (its: seq<Item>)
    ensures |its| == |q|
  {
    seq(|q|, i requires 0 <= i < |q| => ItemOf(q[i]))
  }

  /** The events of items that are not about loops. */
  function Events(s: seq<Item>): (es: seq<Event>) {
    if s == [] then []
    else if s[0].Play? then [s[0].e] + Events(s[1..])
    else Events(s[1..])
  }

  function Times<T>(s: seq<T>, k: nat): (r: seq<T>) {
    if k == 0 then [] else s + Times(s, k - 1)
  }

  /** The index of the inner loop start that is still open, or -1. */
  function Marker(q: seq<Pair>): (m: int)
    ensures -1 <= m < |q|
  {
    if q == [] then -1
    else
      var p := q[|q| - 1];
      if p.tag == TAG_START then |q| - 1
      else if p.tag == TAG_STOP then -1
      else Marker(q[..|q| - 1])
  }

  /** The queues the parser makes: inner loops do not nest, and every loop stop
      names its start. */
  predicate WellFormed(q: seq<Pair>) {
    q == [] ||
    var p, before := q[|q| - 1], q[..|q| - 1];
    && WellFormed(before)
    && (p.tag == TAG_START ==> Marker(before) < 0)
    && (p.tag == TAG_STOP ==> Marker(before) == p.mag)
  }

  /** How many items are played before the next one that is about a loop. */
  function Lead(s: seq<Item>): (b: nat)
    ensures b <= |s|
    ensures b < |s| ==> !s[b].Play?
  {
    if s == [] || !s[0].Play? then 0 else 1 + Lead(s[1..])
  }

  /** The meaning of a queue: the body of an inner loop is played once and then
      as often again as its stop says; a start without a stop does nothing. */
  function Unrolled(s: seq<Item>): (es: seq<Event>)
    decreases |s|
  {
    if s == [] then []
    else if s[0].Play? then [s[0].e] + Unrolled(s[1..])
    else
      var b := Lead(s[1..]);
      if s[0].LoopStart? && 1 + b < |s| && s[1 + b].LoopStop? then
        Times(Events(s[1..1 + b]), s[1 + b].times + 1) + Unrolled(s[2 + b..])
      else Unrolled(s[1..])
  }

  /** The pairs at the start of a pass. */
  function Reset(q: seq<Pair>): (r: seq<Pair>)
    ensures |r| == |q|
  {
    seq(|q|, i requires 0 <= i < |q| => q[i].(remain := q[i].repeat))
  }

  function SumRemain(q: seq<Pair>): (n: nat) {
    if q == [] then 0 else SumRemain(q[..|q| - 1]) + q[|q| - 1].remain
  }

  lemma {:induction false} SumRemainDown(q: seq<Pair>, i: nat)
    requires i < |q| && q[i].remain > 0
    ensures SumRemain(q[i := q[i].(remain := q[i].remain - 1)]) == SumRemain(q) - 1
  {
    var q' := q[i := q[i].(remain := q[i].remain - 1)];
    if i < |q| - 1 {
      SumRemainDown(q[..|q| - 1], i);
      assert q'[..|q| - 1] == q[..|q| - 1][i := q'[i]];
    } else {
      assert q'[..|q| - 1] == q[..|q| - 1];
    }
  }

  /** Loop stops lead back. */
  predicate Backward(q: seq<Pair>) {
    forall i :: 0 <= i < |q| && q[i].tag == TAG_STOP ==> q[i].mag < i
  }

  /** The pairs after one more turn of the inner loop that ends at i. */
  function Turned(q: seq<Pair>, i: nat): (r: seq<Pair>)
    requires i < |q| && q[i].remain > 0
    ensures |r| == |q|
  {
    q[i := q[i].(remain := q[i].remain - 1)]
  }

  /** What is still played in this pass from index i, by the rules of the
      interpreter. */
  function RestOfPass(q: seq<Pair>, i: nat): (es: seq<Event>)
    requires Backward(q)
    decreases SumRemain(q), |q| - i
  {
    if i >= |q| then []
    else if IsEvent(q[i]) then [EventOf(q[i])] + RestOfPass(q, i + 1)
    else if q[i].tag == TAG_STOP && q[i].remain > 0 then
      SumRemainDown(q, i);
      RestOfPass(Turned(q, i), q[i].mag)
    else RestOfPass(q, i + 1)
  }

  /** Equal up to the turns still to make. */
  predicate SameShape(q: seq<Pair>, r: seq<Pair>) {
    |q| == |r| && forall i :: 0 <= i < |q| ==> r[i] == q[i].(remain := r[i].remain)
  }

  lemma {:induction false} ShapeKept(q: seq<Pair>, r: seq<Pair>)
    requires SameShape(q, r)
    ensures Marker(q) == Marker(r) && WellFormed(q) == WellFormed(r)
  {
    if q != [] { ShapeKept(q[..|q| - 1], r[..|r| - 1]); }
  }

  lemma {:induction false} WellFormedPrefix(q: seq<Pair>, k: nat)
    requires WellFormed(q) && k <= |q|
    ensures WellFormed(q[..k])
    decreases |q|
  {
    if k < |q| {
      WellFormedPrefix(q[..|q| - 1], k);
      assert q[..|q| - 1][..k] == q[..k];
    } else {
      assert q[..k] == q;
    }
  }

  /** A loop that is open since index m has only events after it. */
  lemma {:induction false} MarkerOpen(q: seq<Pair>)
    requires Marker(q) >= 0
    ensures q[Marker(q)].tag == TAG_START
    ensures forall j :: Marker(q) < j < |q| ==> IsEvent(q[j])
  {
    if IsEvent(q[|q| - 1]) {
      var front := q[..|q| - 1];
      MarkerOpen(front);
      forall j | Marker(q) < j < |q| ensures IsEvent(q[j]) {
        if j < |q| - 1 { assert q[j] == front[j]; }
      }
    }
  }

  /** A loop stop ends the loop that starts at the index it names: everything
      between is events. */
  lemma StopEnds(q: seq<Pair>, e: nat)
    requires WellFormed(q) && e < |q| && q[e].tag == TAG_STOP
    ensures q[e].mag < e && q[q[e].mag].tag == TAG_START
    ensures forall j :: q[e].mag < j < e ==> IsEvent(q[j])
  {
    WellFormedPrefix(q, e + 1);
    var p := q[..e + 1];
    assert p[..e] == q[..e];
    MarkerOpen(q[..e]);
    var m := q[e].mag;
    assert q[..e][m] == q[m];
    forall j | m < j < e ensures IsEvent(q[j]) { assert q[..e][j] == q[j]; }
  }

  lemma WellFormedBackward(q: seq<Pair>)
    requires WellFormed(q)
    ensures Backward(q)
  {
    forall i | 0 <= i < |q| && q[i].tag == TAG_STOP ensures q[i].mag < i { StopEnds(q, i); }
  }

  /** After a start that opens a loop come events, and then its stop or the end. */
  lemma {:induction false} OpenUntil(q: seq<Pair>, m: nat, e: nat)
    requires m < e < |q| && WellFormed(q) && q[m].tag == TAG_START
    requires !IsEvent(q[e]) && forall j :: m < j < e ==> IsEvent(q[j])
    ensures q[e].tag == TAG_STOP && q[e].mag == m
  {
    WellFormedPrefix(q, e + 1);
    var p := q[..e + 1];
    assert p[..e] == q[..e];
    MarkerAt(q[..e], m);
  }

  lemma {:induction false} MarkerAt(q: seq<Pair>, m: nat)
    requires m < |q| && q[m].tag == TAG_START && forall j :: m < j < |q| ==> IsEvent(q[j])
    ensures Marker(q) == m
  {
    if m < |q| - 1 { MarkerAt(q[..|q| - 1], m); }
  }

  lemma ItemsTail(q: seq<Pair>, i: nat, j: nat)
    requires i < j <= |q|
    ensures Items(q[i..j])[0] == ItemOf(q[i]) && Items(q[i..j])[1..] == Items(q[i + 1..j])
  {
  }

  /** Events are played one after the other. */
  lemma {:induction false} EventsRun(q: seq<Pair>, i: nat, j: nat)
    requires Backward(q) && i <= j <= |q| && forall k :: i <= k < j ==> IsEvent(q[k])
    ensures RestOfPass(q, i) == Events(Items(q[i..j])) + RestOfPass(q, j)
    decreases j - i
  {
    if i < j {
      EventsRun(q, i + 1, j);
      ItemsTail(q, i, j);
      var e, es, rest := EventOf(q[i]), Events(Items(q[i + 1..j])), RestOfPass(q, j);
      assert [e] + (es + rest) == ([e] + es) + rest;
    }
  }

  /** The pairs once the inner loop that ends at e has made all its turns. */
  function Exhausted(q: seq<Pair>, e: nat): (r: seq<Pair>)
    requires e < |q|
    ensures |r| == |q|
  {
    q[e := q[e].(remain := 0)]
  }

  /** At the stop of a loop, its body is still played `remain` times. */
  lemma {:induction false} LoopRuns(q: seq<Pair>, e: nat)
    requires Backward(q) && e < |q| && q[e].tag == TAG_STOP
    requires q[q[e].mag].tag == TAG_START && forall j :: q[e].mag < j < e ==> IsEvent(q[j])
    ensures RestOfPass(q, e)
         == Times(Events(Items(q[q[e].mag + 1..e])), q[e].remain) + RestOfPass(Exhausted(q, e), e + 1)
    decreases q[e].remain
  {
    if q[e].remain > 0 {
      var m, q' := q[e].mag, Turned(q, e);
      LoopRuns(q', e);
      EventsRun(q', m + 1, e);
      assert q'[m + 1..e] == q[m + 1..e];
      assert Exhausted(q', e) == Exhausted(q, e);
      var body := Events(Items(q[m + 1..e]));
      assert body + (Times(body, q[e].remain - 1) + RestOfPass(Exhausted(q, e), e + 1))
          == (body + Times(body, q[e].remain - 1)) + RestOfPass(Exhausted(q, e), e + 1);
    } else {
      assert Exhausted(q, e) == q;
    }
  }

  /** No turn of a loop from index i on has been made. */
  predicate NotBegun(q: seq<Pair>, i: nat) {
    forall j :: i <= j < |q| ==> q[j].remain == q[j].repeat
  }

  lemma {:induction false} LeadPlays(s: seq<Item>)
    ensures forall j :: 0 <= j < Lead(s) ==> s[j].Play?
  {
    if s != [] && s[0].Play? {
      LeadPlays(s[1..]);
      forall j | 0 <= j < Lead(s) ensures s[j].Play? { if j > 0 { assert s[j] == s[1..][j - 1]; } }
    }
  }

  /** One pass of the interpreter plays the unrolled queue: from any index that
      is not inside a loop. */
  lemma {:induction false} PassIsUnrolled(q: seq<Pair>, i: nat)
    requires WellFormed(q) && i <= |q| && Marker(q[..i]) < 0 && NotBegun(q, i)
    ensures Backward(q) && RestOfPass(q, i) == Unrolled(Items(q[i..]))
    decreases |q| - i, 2
  {
    WellFormedBackward(q);
    if i < |q| {
      var s := Items(q[i..]);
      assert s[0] == ItemOf(q[i]) && s[1..] == Items(q[i + 1..]);
      assert q[..i + 1][..i] == q[..i];
      if IsEvent(q[i]) {
        PassIsUnrolled(q, i + 1);
      } else if q[i].tag == TAG_START {
        PassFromStart(q, i);
      } else {
        WellFormedPrefix(q, i + 1);
      }
    }
  }

  /** Where the loop that starts at m ends: at its stop, or at the end. */
  lemma OpenEnds(q: seq<Pair>, m: nat, e: nat)
    requires WellFormed(q) && m < |q| && q[m].tag == TAG_START && e == m + 1 + Lead(Items(q[m + 1..]))
    ensures e <= |q| && forall j :: m < j < e ==> IsEvent(q[j])
    ensures e < |q| ==> q[e].tag == TAG_STOP && q[e].mag == m
  {
    var s := Items(q[m + 1..]);
    LeadPlays(s);
    forall j | m < j < e ensures IsEvent(q[j]) { assert s[j - m - 1] == ItemOf(q[j]); }
    if e < |q| {
      assert s[Lead(s)] == ItemOf(q[e]);
      OpenUntil(q, m, e);
    }
  }

  lemma UnrolledLoop(q: seq<Pair>, m: nat, e: nat)
    requires m < |q| && q[m].tag == TAG_START && e == m + 1 + Lead(Items(q[m + 1..]))
    requires e < |q| ==> q[e].tag == TAG_STOP
    ensures Unrolled(Items(q[m..])) == if e < |q| then Times(Events(Items(q[m + 1..e])), q[e].repeat + 1)
                                                       + Unrolled(Items(q[e + 1..]))
                                       else Unrolled(Items(q[m + 1..]))
  {
    var s := Items(q[m..]);
    assert s[0] == ItemOf(q[m]) && s[1..] == Items(q[m + 1..]);
    if e < |q| {
      assert s[e - m] == ItemOf(q[e]);
      assert s[1..e - m] == Items(q[m + 1..e]) && s[e - m + 1..] == Items(q[e + 1..]);
    }
  }

  /** The loop m .. e and what comes after it, as the interpreter plays them. */
  lemma {:induction false} LoopPlays(q: seq<Pair>, m: nat, e: nat, body: seq<Event>)
    requires WellFormed(q) && Backward(q) && m < e < |q| && q[m].tag == TAG_START && NotBegun(q, m)
    requires q[e].tag == TAG_STOP && q[e].mag == m && forall j :: m < j < e ==> IsEvent(q[j])
    requires body == Events(Items(q[m + 1..e]))
    ensures RestOfPass(q, m + 1) == Times(body, q[e].repeat + 1) + Unrolled(Items(q[e + 1..]))
    decreases |q| - m, 0
  {
    EventsRun(q, m + 1, e);
    AtStop(q, m, e, body);
    TimesMore(body, q[e].repeat, Unrolled(Items(q[e + 1..])));
  }

  lemma {:induction false} AtStop(q: seq<Pair>, m: nat, e: nat, body: seq<Event>)
    requires WellFormed(q) && Backward(q) && m < e < |q| && q[m].tag == TAG_START && NotBegun(q, m)
    requires q[e].tag == TAG_STOP && q[e].mag == m && forall j :: m < j < e ==> IsEvent(q[j])
    requires body == Events(Items(q[m + 1..e]))
    ensures RestOfPass(q, e) == Times(body, q[e].repeat) + Unrolled(Items(q[e + 1..]))
    decreases |q| - e, 4
  {
    LoopRuns(q, e);
    LoopAfter(q, m, e);
  }

  lemma {:induction false} OpenPlays(q: seq<Pair>, m: nat)
    requires Backward(q) && m < |q| && q[m].tag == TAG_START && forall j :: m < j < |q| ==> IsEvent(q[j])
    ensures RestOfPass(q, m + 1) == Unrolled(Items(q[m + 1..]))
  {
    EventsRun(q, m + 1, |q|);
    assert q[m + 1..|q|] == q[m + 1..];
    UnrolledEvents(Items(q[m + 1..]));
  }

  lemma {:induction false} PassFromStart(q: seq<Pair>, m: nat)
    requires WellFormed(q) && m < |q| && q[m].tag == TAG_START && NotBegun(q, m)
    ensures Backward(q) && RestOfPass(q, m) == Unrolled(Items(q[m..]))
    decreases |q| - m, 1
  {
    WellFormedBackward(q);
    var e := m + 1 + Lead(Items(q[m + 1..]));
    OpenEnds(q, m, e);
    UnrolledLoop(q, m, e);
    if e < |q| {
      LoopPlays(q, m, e, Events(Items(q[m + 1..e])));
    } else {
      OpenPlays(q, m);
    }
  }

  lemma TimesMore<T>(s: seq<T>, k: nat, rest: seq<T>)
    ensures s + (Times(s, k) + rest) == Times(s, k + 1) + rest
  {
  }

  /** The pass goes on after the loop m .. e. */
  lemma {:induction false} LoopAfter(q: seq<Pair>, m: nat, e: nat)
    requires WellFormed(q) && m < e < |q| && q[e].tag == TAG_STOP && NotBegun(q, m)
    ensures Backward(Exhausted(q, e)) && RestOfPass(Exhausted(q, e), e + 1) == Unrolled(Items(q[e + 1..]))
    decreases |q| - e, 3
  {
    var r := Exhausted(q, e);
    ShapeKept(q, r);
    assert r[..e + 1][e] == r[e];
    PassIsUnrolled(r, e + 1);
    assert r[e + 1..] == q[e + 1..];
  }

  lemma {:induction false} UnrolledEvents(s: seq<Item>)
    requires forall j :: 0 <= j < |s| ==> s[j].Play?
    ensures Unrolled(s) == Events(s)
  {
    if s != [] { UnrolledEvents(s[1..]); }
  }

  lemma ItemsOfShape(q: seq<Pair>, r: seq<Pair>)
    requires SameShape(q, r)
    ensures Items(q) == Items(r)
  {
  }

  lemma EventsEmptyIff(s: seq<Item>)
    requires forall i :: 0 <= i < |s| ==> s[i].Play?
    ensures Events(s) == [] <==> s == []
  {
  }

  lemma TimesEmptyIff<T>(s: seq<T>, k: nat)
    ensures Times(s, k + 1) == [] <==> s == []
  {
    if s == [] { TimesEmpty<T>(k + 1); }
  }

  lemma {:induction false} TimesEmpty<T>(n: nat)
    ensures Times<T>([], n) == []
  {
    if n > 0 { TimesEmpty<T>(n - 1); }
  }

  /** No item plays anything. */
  predicate Mute(s: seq<Item>) {
    s == [] || (!s[0].Play? && Mute(s[1..]))
  }

  lemma {:induction false} MuteAt(s: seq<Item>)
    ensures Mute(s) <==> forall i :: 0 <= i < |s| ==> !s[i].Play?
  {
    if s != [] {
      MuteAt(s[1..]);
      if Mute(s) {
        forall i | 0 <= i < |s| ensures !s[i].Play? { if i > 0 { assert s[i] == s[1..][i - 1]; } }
      }
    }
  }

  lemma {:induction false} MuteParts(s: seq<Item>, k: nat)
    requires k <= |s|
    ensures Mute(s) <==> Mute(s[..k]) && Mute(s[k..])
  {
    MuteAt(s);
    MuteAt(s[..k]);
    MuteAt(s[k..]);
    forall i | k <= i < |s| ensures s[i] == s[k..][i - k] {}
  }

  /** The body of a loop plays nothing when it is empty. */
  lemma BodyMute(s: seq<Item>, b: nat)
    requires b == Lead(s)
    ensures Events(s[..b]) == [] <==> Mute(s[..b])
  {
    LeadPlays(s);
    EventsEmptyIff(s[..b]);
    if b > 0 { assert s[..b][0].Play?; }
  }

  /** A queue means nothing at all exactly when no item of it plays something. */
  lemma {:induction false} UnrolledMuteIff(s: seq<Item>)
    ensures Unrolled(s) == [] <==> Mute(s)
    decreases |s|
  {
    if s != [] && !s[0].Play? {
      var b := Lead(s[1..]);
      if s[0].LoopStart? && 1 + b < |s| && s[1 + b].LoopStop? {
        LoopMuteIff(s, b);
      } else {
        UnrolledMuteIff(s[1..]);
      }
    }
  }

  lemma {:induction false} LoopMuteIff(s: seq<Item>, b: nat)
    requires s != [] && s[0].LoopStart? && b == Lead(s[1..]) && 1 + b < |s| && s[1 + b].LoopStop?
    ensures Unrolled(s) == [] <==> Mute(s)
    decreases |s|, 0
  {
    var t, body := s[1..], s[1..1 + b];
    assert body == t[..b];
    BodyMute(t, b);
    TimesEmptyIff(Events(body), s[1 + b].times);
    UnrolledMuteIff(s[2 + b..]);
    MuteParts(t, b);
    assert t[b..][0] == s[1 + b] && t[b..][1..] == s[2 + b..];
  }

  /** Some pair of the queue is a wave or a silence. */
  predicate HasEvent(q: seq<Pair>) {
    exists i :: 0 <= i < |q| && IsEvent(q[i])
  }

  /** A queue plays something exactly when it has a wave or a silence. */
  lemma PlaysIff(q: seq<Pair>)
    ensures Unrolled(Items(q)) != [] <==> HasEvent(q)
  {
    UnrolledMuteIff(Items(q));
    MuteAt(Items(q));
    forall i | 0 <= i < |q| ensures Items(q)[i].Play? <==> IsEvent(q[i]) {}
  }

  /** Without one, nothing is played from any index. */
  lemma {:induction false} NothingToPlay(q: seq<Pair>, i: nat)
    requires Backward(q) && !HasEvent(q)
    ensures RestOfPass(q, i) == []
    decreases SumRemain(q), |q| - i
  {
    if i < |q| {
      if q[i].tag == TAG_STOP && q[i].remain > 0 {
        SumRemainDown(q, i);
        assert forall k :: 0 <= k < |q| ==> Turned(q, i)[k].tag == q[k].tag;
        NothingToPlay(Turned(q, i), q[i].mag);
      } else {
        NothingToPlay(q, i + 1);
      }
    }
  }
}

/** The device state of the playback queue and the functions of
    drivers/misc/cs40l2x.c that play it. */
module QueuePlayer {
  import Arith
  import opened Common
  import opened Playback
  import opened PlaybackQueue
  import opened WholeQueue

  class Queue {
    const pairs: array<Pair>
    var depth: nat
    var repeat: int
    var index: nat
    var remain: int
    var state: PlayState

    /** A queue as left by a successful store. */
    ghost predicate Stored()
      reads this, pairs
    {
      pairs.Length == DEPTH_MAX && depth < DEPTH_MAX && repeat >= FOREVER && WellFormed(pairs[..depth])
    }

    ghost predicate Shaped()
      reads this
    {
      pairs.Length == DEPTH_MAX && depth < DEPTH_MAX
    }

    ghost function Now(): (p: Player)
      requires Shaped()
      reads this, pairs
    {
      Player(pairs[..depth], index, remain)
    }

    ghost function Everything(): (w: Whole)
      reads this, pairs
    {
      Whole(pairs[..], depth, index, remain)
    }

    lemma EverythingIs()
      requires Shaped()
      ensures QueueOf(Everything()) == Now() && Everything().pairs[depth..] == pairs[depth..]
    {
    }

    constructor ()
      ensures Stored() && depth == 0 && repeat == 0 && state == Idle
      ensures fresh(pairs) && forall i :: 0 <= i < DEPTH_MAX ==> pairs[i] == Pair(0, 0, 0, 0)
    {
      pairs := new Pair[DEPTH_MAX](_ => Pair(0, 0, 0, 0));
      depth, repeat, index, remain, state := 0, 0, 0, 0, Idle;
    }

    /** Every inner loop has its turns before it again. */
    method Rearm()
      requires Shaped()
      modifies pairs
      ensures pairs[..depth] == Reset(old(pairs[..depth]))
      ensures pairs[depth..] == old(pairs[depth..])
    {
      for i := 0 to depth
        invariant forall j :: 0 <= j < i ==> pairs[j] == old(pairs[j]).(remain := old(pairs[j]).repeat)
        invariant forall j :: i <= j < pairs.Length ==> pairs[j] == old(pairs[j])
      {
        pairs[i] := pairs[i].(remain := pairs[i].repeat);
      }
    }

    /** The part of the loop that starts a new pass or ends playback. */
    method Restart() returns (finished: bool)
      requires Shaped() && index == depth
      modifies this`index, this`remain, this`state, pairs
      ensures Everything() == Rewound(old(Everything())) && finished == (old(remain) == 0)
      ensures state == if finished then Idle else old(state)
    {
      index := 0;
      Rearm();
      finished := remain == 0;
      if finished {
        state := Idle;
      } else if remain > 0 {
        remain := remain - 1;
      }
    }

    /** The part of the loop that looks at one pair, of the queue or not. */
    method LookAt() returns (ev: Option<Event>)
      requires Shaped() && index < pairs.Length
      modifies this`index, this`state, pairs
      ensures var o := LookedAt(old(Everything()));
              && Everything() == o.w
              && ev == (if o.Plays? then Some(o.e) else None)
              && state == if o.Goes? then old(state) else if o.e.Silence? then Silent else Playing
    {
      ev := None;
      var pair := pairs[index];
      if pair.tag == TAG_SILENCE {
        ev, state, index := Some(Silence(pair.mag)), Silent, index + 1;
      } else if pair.tag == TAG_START {
        index := index + 1;
      } else if pair.tag == TAG_STOP {
        if pair.remain > 0 {
          pairs[index] := pair.(remain := pair.remain - 1);
          index := pair.mag;
        } else {
          index := index + 1;
        }
      } else {
        ev, state, index := Some(Wave(pair.tag, pair.mag)), Playing, index + 1;
      }
    }

    /** One turn of the loop in cs40l2x_pbq_pair_launch, from any index, as long as it
        looks at a place in the array. */
    method OneTurn() returns (ev: Option<Event>, finished: bool)
      requires Shaped() && !WholeTurn(Everything()).Outside?
      modifies this`index, this`remain, this`state, pairs
      ensures var o := WholeTurn(old(Everything()));
              && Everything() == o.w && finished == o.Stops?
              && ev == (if o.Plays? then Some(o.e) else None)
              && state == if o.Stops? then Idle else if o.Goes? then old(state)
                          else if o.e.Silence? then Silent else Playing
    {
      ev, finished := None, false;
      if index == depth {
        finished := Restart();
      }
      if !finished {
        ev := LookAt();
      }
    }

    /** cs40l2x_pbq_pair_launch */
    method PairLaunch() returns (ev: Option<Event>)
      requires Shaped() && Playable(Now()) && !Spinning(Now())
      modifies this`index, this`remain, this`state, pairs
      ensures var o := Launch(old(Now()));
              && Now() == o.p && !o.More?
              && ev == (if o.Launched? then Some(o.e) else None)
              && state == if o.Finished? then Idle else if o.e.Silence? then Silent else Playing
      ensures pairs[depth..] == old(pairs[depth..])
    {
      ev := None;
      var finished := false;
      while ev == None && !finished
        invariant finished ==> Launch(old(Now())) == Finished(Now()) && state == Idle && ev == None
        invariant ev.Some? ==> Launch(old(Now())) == Launched(ev.value, Now())
                               && state == if ev.value.Silence? then Silent else Playing
        invariant ev == None && !finished ==> Playable(Now()) && !Spinning(Now()) && Launch(Now()) == Launch(old(Now()))
        invariant pairs[depth..] == old(pairs[depth..])
        decreases if ev == None && !finished then Passes(Now()) + 1 else 0, SumRemain(pairs[..depth]), depth - index
      {
        TurnMeans(Now());
        TurnInQueue(Everything());
        EverythingIs();
        ev, finished := OneTurn();
        EverythingIs();
      }
    }

    /** Starting the queue (cs40l2x_vibe_start_worker, index PBQ). */
    method Start() returns (ev: Option<Event>)
      requires Stored() && (depth > 0 || repeat == 0)
      requires repeat != FOREVER || HasEvent(pairs[..depth])
      modifies this`index, this`remain, this`state, pairs
      ensures var p := Player(Reset(old(pairs[..depth])), 0, repeat); Playable(p) && !Spinning(p)
      ensures var o := Launch(Player(Reset(old(pairs[..depth])), 0, repeat));
              && Now() == o.p && !o.More?
              && ev == (if o.Launched? then Some(o.e) else None)
              && state == if o.Finished? then Idle else if o.e.Silence? then Silent else Playing
      ensures pairs[depth..] == old(pairs[depth..])
    {
      StartReady(pairs[..depth], repeat);
      index, remain := 0, repeat;
      Rearm();
      ev := PairLaunch();
    }

    /** cs40l2x_vibe_pbq_worker, with the playback status read from the device. */
    method Worker(statusIdle: bool) returns (ev: Option<Event>)
      requires Shaped() && (state != Idle ==> Playable(Now()) && !Spinning(Now()))
      modifies this`index, this`remain, this`state, pairs
      ensures old(state) == Idle || (old(state) == Playing && !statusIdle) ==>
                ev == None && Now() == old(Now()) && state == old(state)
      ensures !(old(state) == Idle || (old(state) == Playing && !statusIdle)) ==>
                var o := Launch(old(Now()));
                && Now() == o.p && !o.More?
                && ev == (if o.Launched? then Some(o.e) else None)
                && state == if o.Finished? then Idle else if o.e.Silence? then Silent else Playing
      ensures pairs[depth..] == old(pairs[depth..])
    {
      ev := None;
      if state == Silent || (state == Playing && statusIdle) {
        ev := PairLaunch();
      }
    }
  }

  lemma StartReady(q: seq<Pair>, repeat: int)
    requires WellFormed(q) && (q != [] || repeat == 0) && repeat >= FOREVER && (repeat != FOREVER || HasEvent(q))
    ensures var p := Player(Reset(q), 0, repeat);
            Playable(p) && !Spinning(p) && Rest(p) == Unrolled(Items(q)) && Unrolled(Items(p.q)) == Unrolled(Items(q))
  {
    PlaysIff(q);
    ResetShape(q);
    ItemsOfShape(q, Reset(q));
  }

  lemma {:induction false} TimesSnoc<T>(s: seq<T>, n: nat)
    ensures Times(s, n) + s == Times(s, n + 1)
  {
    if n > 0 {
      TimesSnoc(s, n - 1);
      assert s + (Times(s, n - 1) + s) == (s + Times(s, n - 1)) + s;
    }
  }

  /** Playing u over and over: event j is event j mod |u| of u. */
  lemma {:induction false} TimesIndex<T>(u: seq<T>, n: nat, j: nat)
    requires j < |Times(u, n)|
    ensures u != [] && Times(u, n)[j] == u[j % |u|]
    decreases n
  {
    if u == [] { TimesEmpty<T>(n); }
    if j >= |u| {
      TimesIndex(u, n - 1, j - |u|);
      ModStep(j, |u|);
    } else {
      ModSmall(j, |u|);
    }
  }

  lemma ModStep(j: nat, d: nat)
    requires 0 < d <= j
    ensures (j - d) % d == j % d
  {
    var q, r := (j - d) / d, (j - d) % d;
    assert (q + 1) * d == q * d + d;
    Arith.DivUnique(j, q + 1, r, d);
  }

  lemma ModSmall(j: nat, d: nat)
    requires j < d
    ensures j % d == j
  {
  }

  /** What was played and what is left of the current pass make `passes` passes
      of the `repeat` + 1 asked for. */
  ghost predicate OnTrack(u: seq<Event>, repeat: int, log: seq<Event>, p: Player, passes: nat) {
    && Playable(p) && Unrolled(Items(p.q)) == u && (repeat == FOREVER ==> u != [])
    && log + Rest(p) == Times(u, passes)
    && repeat >= FOREVER && (repeat == FOREVER <==> p.remain == FOREVER)
    && (repeat >= 0 ==> passes + p.remain == repeat + 1)
  }

  lemma PopsOnTrack(u: seq<Event>, repeat: int, log: seq<Event>, p: Player, passes: nat, e: Event, p': Player)
    returns (passes': nat)
    requires OnTrack(u, repeat, log, p, passes) && Playable(p') && Unrolled(Items(p'.q)) == u && Pops(p, e, p')
    ensures OnTrack(u, repeat, log + [e], p', passes')
  {
    assert log + ([e] + Rest(p')) == (log + [e]) + Rest(p');
    if Rest(p) != [] {
      passes' := passes;
    } else {
      passes' := passes + 1;
      TimesSnoc(u, passes);
    }
  }

  lemma EndOnTrack(u: seq<Event>, repeat: int, log: seq<Event>, p: Player, passes: nat)
    requires OnTrack(u, repeat, log, p, passes) && AtEnd(p)
    ensures repeat >= 0 && log == Times(u, repeat + 1)
  {
    assert p.remain != FOREVER;
    if u == [] {
      TimesEmpty<Event>(passes);
      TimesEmpty<Event>(repeat + 1);
    }
  }

  /** The log after one more launch. */
  lemma LaunchOnTrack(u: seq<Event>, repeat: int, log: seq<Event>, p: Player, passes: nat) returns (passes': nat)
    requires OnTrack(u, repeat, log, p, passes)
    ensures var o := Launch(p);
            && (o.Launched? ==> OnTrack(u, repeat, log + [o.e], o.p, passes'))
            && (o.Finished? ==> repeat >= 0 && log == Times(u, repeat + 1))
  {
    LaunchPlaysNext(p);
    var o := Launch(p);
    passes' := passes;
    if o.Launched? {
      passes' := PopsOnTrack(u, repeat, log, p, passes, o.e, o.p);
    } else {
      EndOnTrack(u, repeat, log, p, passes);
    }
  }

  lemma {:induction false} TimesPrefix<T>(s: seq<T>, m: nat, n: nat)
    requires m <= n
    ensures Times(s, m) <= Times(s, n)
    decreases n - m
  {
    if m < n {
      TimesSnoc(s, m);
      TimesPrefix(s, m + 1, n);
    }
  }

  /** What the log is: the start of the passes asked for, or of passes for ever. */
  ghost predicate PlaysQueue(u: seq<Event>, repeat: int, log: seq<Event>) {
    if repeat >= 0 then log <= Times(u, repeat + 1)
    else u != [] && forall j :: 0 <= j < |log| ==> log[j] == u[j % |u|]
  }

  lemma OnTrackPlays(u: seq<Event>, repeat: int, log: seq<Event>, p: Player, passes: nat)
    requires OnTrack(u, repeat, log, p, passes)
    ensures PlaysQueue(u, repeat, log)
  {
    assert log <= Times(u, passes);
    if repeat >= 0 {
      TimesPrefix(u, passes, repeat + 1);
    } else {
      forall j | 0 <= j < |log| ensures log[j] == u[j % |u|] { TimesIndex(u, passes, j); }
    }
  }

  /** The log is right, and playback goes on or has come to its end. */
  ghost predicate Tracked(q: Queue, u: seq<Event>, log: seq<Event>, passes: nat)
    reads q, q.pairs
  {
    && q.Shaped()
    && if q.state == Idle then q.repeat >= 0 && log == Times(u, q.repeat + 1)
       else OnTrack(u, q.repeat, log, q.Now(), passes)
  }

  /** One call of the worker. */
  method Call(q: Queue, ready: bool, log: seq<Event>, ghost u: seq<Event>, ghost passes: nat)
    returns (log': seq<Event>, ghost passes': nat)
    requires Tracked(q, u, log, passes)
    modifies q`index, q`remain, q`state, q.pairs
    ensures Tracked(q, u, log', passes')
    ensures old(q.state) == Idle ==> q.state == Idle
    ensures q.state != Idle && ready ==> |log'| == |log| + 1
  {
    passes' := passes;
    if q.state != Idle && (q.state == Silent || ready) {
      passes' := LaunchOnTrack(u, q.repeat, log, q.Now(), passes);
    }
    var ev := q.Worker(ready);
    log' := if ev.Some? then log + [ev.value] else log;
  }

  /** Any run of the queue: a start and then calls of the worker, whatever the
      device reports. The waves and silences launched are, in order, those of
      the unrolled queue played repeat + 1 times, or over and over for ever. When
      playback is idle all of them were launched; and when the device is ready at
      every call, each call launches one more, until all were launched and
      playback is idle. */
  method Play(q: Queue, status: seq<bool>) returns (log: seq<Event>, ghost passes: nat)
    requires q.Stored() && (q.depth > 0 || q.repeat == 0)
    requires q.repeat != FOREVER || HasEvent(q.pairs[..q.depth])
    modifies q`index, q`remain, q`state, q.pairs
    ensures var u := Unrolled(Items(old(q.pairs[..q.depth])));
            && PlaysQueue(u, q.repeat, log)
            && (q.state == Idle ==> q.repeat >= 0 && log == Times(u, q.repeat + 1))
            && (q.state != Idle ==> OnTrack(u, q.repeat, log, q.Now(), passes))
    ensures q.state != Idle && (forall i :: 0 <= i < |status| ==> status[i]) ==> |log| == |status| + 1
    ensures var u := Unrolled(Items(old(q.pairs[..q.depth])));
            (forall i :: 0 <= i < |status| ==> status[i]) && q.repeat >= 0 && |status| >= |Times(u, q.repeat + 1)| ==>
              q.state == Idle
  {
    ghost var u := Unrolled(Items(q.pairs[..q.depth]));
    ghost var p0 := Player(Reset(q.pairs[..q.depth]), 0, q.repeat);
    StartReady(q.pairs[..q.depth], q.repeat);
    assert OnTrack(u, q.repeat, [], p0, 1) by { assert Times(u, 1) == u + Times(u, 0); }
    passes := LaunchOnTrack(u, q.repeat, [], p0, 1);
    log := [];
    var ev := q.Start();
    if ev.Some? { log := log + [ev.value]; }
    var i := 0;
    while i < |status|
      invariant i <= |status| && Tracked(q, u, log, passes)
      invariant q.state != Idle && (forall j :: 0 <= j < i ==> status[j]) ==> |log| == i + 1
    {
      log, passes := Call(q, status[i], log, u, passes);
      i := i + 1;
    }
    if q.state != Idle { OnTrackPlays(u, q.repeat, log, q.Now(), passes); }
  }

  /** One turn of the loop in terms of the next ones. */
  lemma TurnMeans(p: Player)
    requires Playable(p) && !Spinning(p)
    ensures var o := Turn(p);
            && (o.More? ==> Playable(o.p) && !Spinning(o.p) && Below(o.p, p) && Launch(p) == Launch(o.p))
            && (!o.More? ==> Launch(p) == o)
  {
    if Turn(p).More? { TurnDown(p); }
  }
}

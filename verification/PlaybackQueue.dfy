/** Playing the queue: cs40l2x_pbq_pair_launch and cs40l2x_vibe_pbq_worker. */
module PlaybackQueue {
  import opened Playback

  const DEPTH_MAX: nat := 256
  const FOREVER: int := -1

  datatype PlayState = Idle | Playing | Silent

  /** Where playback stands: the pairs, the next one, and the passes to come. */
  datatype Player = Player(q: seq<Pair>, index: nat, remain: int)

  datatype Outcome = More(p: Player) | Launched(e: Event, p: Player) | Finished(p: Player)

  ghost predicate Playable(p: Player) {
    WellFormed(p.q) && p.index <= |p.q| && (p.q != [] || p.remain == 0) && p.remain >= FOREVER
  }

  /** What is still played in the current pass, and in a whole one. */
  ghost function Rest(p: Player): (es: seq<Event>)
    requires Playable(p)
  {
    WellFormedBackward(p.q);
    RestOfPass(p.q, p.index)
  }

  /** At the end of the queue: the next pass. */
  function Restarted(p: Player): (r: Player) {
    Player(Reset(p.q), 0, if p.remain > 0 then p.remain - 1 else p.remain)
  }

  /** One turn of the loop in cs40l2x_pbq_pair_launch, as a function. */
  ghost function Turn(p: Player): (o: Outcome)
    requires Playable(p)
  {
    if p.index == |p.q| && p.remain == 0 then Finished(Restarted(p))
    else At(if p.index == |p.q| then Restarted(p) else p)
  }

  ghost function At(p: Player): (o: Outcome)
    requires p.index < |p.q|
  {
    var pair := p.q[p.index];
    if IsEvent(pair) then Launched(EventOf(pair), p.(index := p.index + 1))
    else if pair.tag == TAG_STOP && pair.remain > 0 then More(p.(q := Turned(p.q, p.index), index := pair.mag))
    else More(p.(index := p.index + 1))
  }

  lemma ResetShape(q: seq<Pair>)
    requires WellFormed(q)
    ensures SameShape(q, Reset(q)) && WellFormed(Reset(q)) && Backward(Reset(q)) && NotBegun(Reset(q), 0)
    ensures RestOfPass(Reset(q), 0) == Unrolled(Items(q))
  {
    ShapeKept(q, Reset(q));
    assert Reset(q)[..0] == [] && Reset(q)[0..] == Reset(q);
    PassIsUnrolled(Reset(q), 0);
    ItemsOfShape(q, Reset(q));
  }

  /** A turn keeps what is to be played. */
  lemma AtKeeps(p: Player)
    requires Playable(p) && p.index < |p.q|
    ensures var o := At(p);
            && Playable(o.p) && SameShape(p.q, o.p.q) && o.p.remain == p.remain && !o.Finished?
            && (o.More? ==> Rest(o.p) == Rest(p))
            && (o.Launched? ==> Rest(p) == [o.e] + Rest(o.p))
  {
    var pair := p.q[p.index];
    if pair.tag == TAG_STOP && pair.remain > 0 {
      ShapeKept(p.q, Turned(p.q, p.index));
      StopEnds(p.q, p.index);
    }
  }

  lemma RestartKeeps(p: Player)
    requires Playable(p)
    ensures var r := Restarted(p);
            Playable(r) && SameShape(p.q, r.q) && Rest(r) == Unrolled(Items(p.q))
            && Unrolled(Items(r.q)) == Unrolled(Items(p.q))
  {
    ResetShape(p.q);
    ItemsOfShape(p.q, Reset(p.q));
  }

  /** The measure of cs40l2x_pbq_pair_launch: passes, turns of inner loops, pairs
      to the end of the queue. */
  ghost function Passes(p: Player): (n: nat)
    requires Playable(p)
  {
    if p.remain >= 0 then p.remain else if Rest(p) == [] then 1 else 0
  }

  /** Nothing to play, for ever. */
  ghost predicate Spinning(p: Player)
    requires Playable(p)
  {
    p.remain == FOREVER && Rest(p) == [] && Unrolled(Items(p.q)) == []
  }

  lemma TurnKeeps(p: Player)
    requires Playable(p)
    ensures var o := Turn(p);
            Playable(o.p) && SameShape(p.q, o.p.q) && Unrolled(Items(o.p.q)) == Unrolled(Items(p.q))
  {
    RestartKeeps(p);
    var r := if p.index == |p.q| then Restarted(p) else p;
    if p.q != [] { AtKeeps(r); }
    ItemsOfShape(p.q, Turn(p).p.q);
  }

  /** The measure goes down. */
  ghost predicate Below(p': Player, p: Player)
    requires Playable(p') && Playable(p)
  {
    || Passes(p') < Passes(p)
    || (Passes(p') == Passes(p)
        && (SumRemain(p'.q) < SumRemain(p.q)
            || (SumRemain(p'.q) == SumRemain(p.q) && |p'.q| - p'.index < |p.q| - p.index)))
  }

  lemma AtDown(p: Player)
    requires Playable(p) && p.index < |p.q| && At(p).More?
    ensures Playable(At(p).p) && Below(At(p).p, p)
  {
    AtKeeps(p);
    if p.q[p.index].tag == TAG_STOP && p.q[p.index].remain > 0 { SumRemainDown(p.q, p.index); }
  }

  lemma RestartDown(p: Player)
    requires Playable(p) && p.index == |p.q| && p.remain != 0 && !Spinning(p)
    ensures Playable(Restarted(p)) && Passes(Restarted(p)) < Passes(p)
  {
    RestartKeeps(p);
  }

  lemma TurnDown(p: Player)
    requires Playable(p) && Turn(p).More? && !Spinning(p)
    ensures Playable(Turn(p).p) && !Spinning(Turn(p).p) && Below(Turn(p).p, p)
  {
    TurnKeeps(p);
    if p.index == |p.q| {
      RestartDown(p);
      RestartKeeps(p);
      AtKeeps(Restarted(p));
    } else {
      AtDown(p);
      AtKeeps(p);
    }
  }

  /** cs40l2x_pbq_pair_launch as a function. */
  ghost function Launch(p: Player): (o: Outcome)
    requires Playable(p) && !Spinning(p)
    decreases Passes(p), SumRemain(p.q), |p.q| - p.index
  {
    var o := Turn(p);
    if o.More? then TurnDown(p); Launch(o.p) else o
  }

  /** Nothing is left to play. */
  ghost predicate AtEnd(p: Player)
    requires Playable(p)
  {
    Rest(p) == [] && (p.remain == 0 || Unrolled(Items(p.q)) == [])
  }

  /** `e` is what is to be played next, and p' is what remains after it. */
  ghost predicate Pops(p: Player, e: Event, p': Player)
    requires Playable(p) && Playable(p')
  {
    if Rest(p) != [] then Rest(p) == [e] + Rest(p') && p'.remain == p.remain
    else Unrolled(Items(p.q)) == [e] + Rest(p') && p.remain != 0
         && p'.remain == if p.remain > 0 then p.remain - 1 else p.remain
  }

  /** A launch plays the next event of the unrolled queue; it finishes exactly
      when there is none, ready for the next start. */
  lemma {:induction false} LaunchPlaysNext(p: Player)
    requires Playable(p) && !Spinning(p)
    ensures var o := Launch(p);
            && !o.More? && Playable(o.p) && SameShape(p.q, o.p.q) && Unrolled(Items(o.p.q)) == Unrolled(Items(p.q))
            && (o.Finished? <==> AtEnd(p))
            && (o.Finished? ==> o.p == Player(Reset(p.q), 0, 0))
            && (o.Launched? ==> Pops(p, o.e, o.p))
    decreases Passes(p), SumRemain(p.q), |p.q| - p.index
  {
    TurnKeeps(p);
    var r := if p.index == |p.q| then Restarted(p) else p;
    RestartKeeps(p);
    if p.q != [] { AtKeeps(r); }
    if Turn(p).More? {
      TurnDown(p);
      var p' := Turn(p).p;
      LaunchPlaysNext(p');
      ResetSame(p.q, p'.q);
    }
  }

  lemma ResetSame(q: seq<Pair>, r: seq<Pair>)
    requires SameShape(q, r)
    ensures Reset(q) == Reset(r)
  {
  }

  /** The loop of cs40l2x_pbq_pair_launch after at most k turns. */
  ghost function After(p: Player, k: nat): (o: Outcome)
    requires Playable(p)
    decreases k
  {
    if k == 0 then More(p)
    else
      TurnKeeps(p);
      var o := Turn(p);
      if o.More? then After(o.p, k - 1) else o
  }

  lemma {:induction false} SpinsOn(p: Player, k: nat)
    requires Playable(p) && Spinning(p)
    ensures After(p, k).More?
    decreases k
  {
    if k > 0 {
      TurnKeeps(p);
      RestartKeeps(p);
      AtKeeps(if p.index == |p.q| then Restarted(p) else p);
      SpinsOn(Turn(p).p, k - 1);
    }
  }

  lemma {:induction false} Ends(p: Player) returns (k: nat)
    requires Playable(p) && !Spinning(p)
    ensures !After(p, k).More?
    decreases Passes(p), SumRemain(p.q), |p.q| - p.index
  {
    if Turn(p).More? {
      TurnDown(p);
      k := Ends(Turn(p).p);
      k := k + 1;
    } else {
      k := 1;
    }
  }

  /** A queue spins when it has neither a wave nor a silence and repeats for ever. */
  lemma SpinningIff(p: Player)
    requires Playable(p)
    ensures Spinning(p) <==> p.remain == FOREVER && !HasEvent(p.q)
  {
    PlaysIff(p.q);
    WellFormedBackward(p.q);
    if !HasEvent(p.q) { NothingToPlay(p.q, p.index); }
  }

  /** A launch comes back exactly when the queue is finite or has a wave or a
      silence. */
  lemma LaunchEndsIff(p: Player)
    requires Playable(p)
    ensures (exists k: nat :: !After(p, k).More?) <==> p.remain >= 0 || HasEvent(p.q)
  {
    SpinningIff(p);
    if Spinning(p) {
      forall k: nat ensures After(p, k).More? { SpinsOn(p, k); }
    } else {
      var k := Ends(p);
    }
  }
}

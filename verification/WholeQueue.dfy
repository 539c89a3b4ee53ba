/** The launch on the whole array of pairs, of which the first `depth` are the queue.
    The driver only tests for the end of the queue with index == depth. */
module WholeQueue {
  import opened Common
  import opened Playback
  import opened PlaybackQueue

  /** Where playback stands, with the pairs behind the queue that older queues left. */
  datatype Whole = Whole(pairs: seq<Pair>, depth: nat, index: nat, remain: int)

  /** Outside: the place that is looked at is not even in the array. */
  datatype Result = Outside | Goes(w: Whole) | Plays(e: Event, w: Whole) | Stops(w: Whole)

  /** The next pass: only the queue is made ready again. */
  function Rewound(w: Whole): (r: Whole)
    requires w.depth <= |w.pairs|
    ensures |r.pairs| == |w.pairs|
  {
    Whole(Reset(w.pairs[..w.depth]) + w.pairs[w.depth..], w.depth, 0, if w.remain > 0 then w.remain - 1 else w.remain)
  }

  /** The place of the pair that the next turn looks at, if it does not stop. */
  function LooksAt(w: Whole): (i: Option<nat>) {
    if w.index != w.depth then Some(w.index) else if w.remain == 0 then None else Some(0)
  }

  /** The turn stops, or looks at a pair of the queue. */
  predicate InQueue(w: Whole) {
    LooksAt(w).Some? ==> LooksAt(w).value < w.depth
  }

  function LookedAt(w: Whole): (o: Result)
    requires w.index < |w.pairs|
    ensures !o.Outside? && !o.Stops?
  {
    var pair := w.pairs[w.index];
    if IsEvent(pair) then Plays(EventOf(pair), w.(index := w.index + 1))
    else if pair.tag == TAG_STOP && pair.remain > 0 then
      Goes(w.(pairs := Turned(w.pairs, w.index), index := pair.mag))
    else Goes(w.(index := w.index + 1))
  }

  /** One turn of the loop in cs40l2x_pbq_pair_launch. */
  function WholeTurn(w: Whole): (o: Result)
    requires w.depth <= |w.pairs|
  {
    var r := if w.index == w.depth then Rewound(w) else w;
    if w.index == w.depth && w.remain == 0 then Stops(r)
    else if r.index < |r.pairs| then LookedAt(r)
    else Outside
  }

  /** Turn after turn, over this launch and the next ones, until playback stops. */
  function Later(w: Whole, k: nat): (r: Whole)
    requires w.depth <= |w.pairs|
    ensures r.depth <= |r.pairs|
    decreases k
  {
    if k == 0 then w
    else
      var o := WholeTurn(w);
      if o.Goes? || o.Plays? then Later(o.w, k - 1) else w
  }

  /** The queue without what is behind it. */
  function QueueOf(w: Whole): (p: Player)
    requires w.depth <= |w.pairs|
  {
    Player(w.pairs[..w.depth], w.index, w.remain)
  }

  lemma LookedAtInQueue(w: Whole)
    requires w.depth <= |w.pairs| && w.index < w.depth
    ensures var o, a := LookedAt(w), At(QueueOf(w));
            && o.w.depth == w.depth && |o.w.pairs| == |w.pairs| && o.w.pairs[w.depth..] == w.pairs[w.depth..]
            && (o.Plays? <==> a.Launched?) && (o.Goes? <==> a.More?) && QueueOf(o.w) == a.p
            && (o.Plays? ==> o.e == a.e)
  {
    assert w.pairs[..w.depth][w.index] == w.pairs[w.index];
    var o := LookedAt(w);
    if o.w.pairs != w.pairs {
      assert o.w.pairs[..w.depth] == Turned(w.pairs[..w.depth], w.index);
    }
  }

  /** On a queue that can be played, a turn is the turn of the queue alone, and what
      is behind the queue does not matter and does not change. */
  lemma TurnInQueue(w: Whole)
    requires w.depth <= |w.pairs| && Playable(QueueOf(w))
    ensures var o, t := WholeTurn(w), Turn(QueueOf(w));
            && !o.Outside? && o.w.depth == w.depth && |o.w.pairs| == |w.pairs|
            && o.w.pairs[w.depth..] == w.pairs[w.depth..]
            && (o.Plays? <==> t.Launched?) && (o.Goes? <==> t.More?) && QueueOf(o.w) == t.p
            && (o.Plays? ==> o.e == t.e)
  {
    RewoundIs(w);
    var r := if w.index == w.depth then Rewound(w) else w;
    if !(w.index == w.depth && w.remain == 0) { LookedAtInQueue(r); }
  }

  lemma RewoundIs(w: Whole)
    requires w.depth <= |w.pairs|
    ensures QueueOf(Rewound(w)) == Restarted(QueueOf(w)) && Rewound(w).pairs[w.depth..] == w.pairs[w.depth..]
  {
  }

  lemma {:induction false} StaysInQueue(w: Whole, k: nat)
    requires w.depth <= |w.pairs| && Playable(QueueOf(w))
    ensures InQueue(Later(w, k))
    decreases k
  {
    if k > 0 {
      TurnInQueue(w);
      TurnKeeps(QueueOf(w));
      var o := WholeTurn(w);
      if o.Goes? || o.Plays? { StaysInQueue(o.w, k - 1); }
    }
  }

  /** Every pair that is looked at is one of the queue's exactly when the index is
      not past the end of the queue and there is a pair or no pass to come. */
  lemma InQueueIff(w: Whole)
    requires w.depth <= |w.pairs| && w.remain >= FOREVER && WellFormed(w.pairs[..w.depth])
    ensures (forall k: nat :: InQueue(Later(w, k))) <==> w.index <= w.depth && (w.depth > 0 || w.remain == 0)
  {
    if w.index <= w.depth && (w.depth > 0 || w.remain == 0) {
      assert Playable(QueueOf(w));
      forall k: nat ensures InQueue(Later(w, k)) { StaysInQueue(w, k); }
    } else {
      assert !InQueue(Later(w, 0));
    }
  }
}

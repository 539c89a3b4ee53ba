/** Which clusters exfat_alloc_cluster takes, as a function of the bitmap, and
    exactly when it gets as many as asked for. */
module AllocPlan {
  import opened ExfatTypes
  import opened Bitmap

  /** Where the search goes on after taking cluster `c`. */
  function NextHint(n: nat, c: nat): (h: nat) {
    if c + 1 >= n then FIRST_CLUSTER else c + 1
  }

  /** The clusters taken, in order, by a request for `k` from `hint`; fewer than
      `k` when a search comes back empty. */
  ghost function Plan(a: set<nat>, n: nat, hint: nat, k: nat): (cs: seq<nat>)
    requires IsValidCluster(n, hint) && n <= BAD_CLUSTER
    decreases k
  {
    if k == 0 then []
    else
      var c := ScanFrom(a, n, hint);
      if c == EOF_CLUSTER then [] else [c] + Plan(a + {c}, n, NextHint(n, c), k - 1)
  }

  /** Where an allocation with hint `dir` starts: a search from the remembered
      pointer when there is no hint, the first cluster when the hint is invalid. */
  ghost function StartHint(a: set<nat>, n: nat, srchPtr: nat, dir: nat): (h: nat)
    requires FIRST_CLUSTER < n && srchPtr < n
  {
    if dir == EOF_CLUSTER then ScanFrom(a, n, if srchPtr < FIRST_CLUSTER then FIRST_CLUSTER else srchPtr)
    else if IsValidCluster(n, dir) then dir
    else FIRST_CLUSTER
  }

  ghost function FreeSet(a: set<nat>, n: nat): (f: set<nat>) {
    set c: nat | FIRST_CLUSTER <= c < n && c !in a
  }

  ghost function FreeFrom(a: set<nat>, n: nat, hint: nat): (f: set<nat>) {
    set c: nat | FIRST_CLUSTER <= c < n && hint <= c && c !in a
  }

  /** The clusters taken are free data clusters, all different. */
  lemma {:induction false} PlanFresh(a: set<nat>, n: nat, hint: nat, k: nat)
    requires IsValidCluster(n, hint) && n <= BAD_CLUSTER
    ensures |Plan(a, n, hint, k)| <= k
    ensures Fresh(n, a, Plan(a, n, hint, k))
    decreases k
  {
    if k > 0 {
      var c := ScanFrom(a, n, hint);
      ScanDown(a, n, hint);
      if c != EOF_CLUSTER {
        var rest := Plan(a + {c}, n, NextHint(n, c), k - 1);
        PlanFresh(a + {c}, n, NextHint(n, c), k - 1);
        FreshIndex(n, a + {c}, rest);
        IndexFresh(n, a, [c] + rest);
      }
    }
  }

  /** The clusters taken when `taken` already are and `m` more are wanted. */
  ghost function PlanFrom(taken: seq<nat>, a: set<nat>, n: nat, hint: nat, m: nat): (cs: seq<nat>)
    requires IsValidCluster(n, hint) && n <= BAD_CLUSTER
    decreases m
  {
    if m == 0 then taken
    else
      var c := ScanFrom(a, n, hint);
      if c == EOF_CLUSTER then taken else PlanFrom(taken + [c], a + {c}, n, NextHint(n, c), m - 1)
  }

  lemma {:induction false} PlanFromIs(taken: seq<nat>, a: set<nat>, n: nat, hint: nat, m: nat)
    requires IsValidCluster(n, hint) && n <= BAD_CLUSTER
    ensures PlanFrom(taken, a, n, hint, m) == taken + Plan(a, n, hint, m)
    decreases m
  {
    if m > 0 {
      var c := ScanFrom(a, n, hint);
      if c != EOF_CLUSTER { PlanFromIs(taken + [c], a + {c}, n, NextHint(n, c), m - 1); }
    }
  }

  /** The end of the last stretch of used clusters: every cluster in [r, hi) is
      in use and r is `lo` or just above a free one. */
  ghost function UsedTail(a: set<nat>, lo: nat, hi: nat): (r: nat)
    requires lo <= hi
    ensures lo <= r <= hi
  {
    if lo == hi || hi - 1 !in a then hi else UsedTail(a, lo, hi - 1)
  }

  lemma {:induction false} UsedTailIsUsed(a: set<nat>, lo: nat, hi: nat)
    requires lo <= hi
    ensures forall c: nat :: UsedTail(a, lo, hi) <= c < hi ==> c in a
    ensures UsedTail(a, lo, hi) > lo ==> UsedTail(a, lo, hi) - 1 !in a
  {
    if lo < hi && hi - 1 in a { UsedTailIsUsed(a, lo, hi - 1); }
  }

  /** Every cluster below `limit` and below `hint` is in use. */
  ghost predicate FullBelow(a: set<nat>, limit: nat, hint: nat) {
    forall c: nat :: FIRST_CLUSTER <= c < limit && c < hint ==> c in a
  }

  /** The search gets stuck: the clusters from the hint up do not suffice, the
      volume's last cluster is not among them, and below the bitmap byte where
      they end there is nothing free. */
  ghost predicate Stuck(a: set<nat>, n: nat, hint: nat, k: nat)
    requires IsValidCluster(n, hint)
  {
    var top := UsedTail(a, hint, n);
    && k > |FreeFrom(a, n, hint)|
    && top < n
    && FullBelow(a, ByteStart(top), hint)
  }

  lemma UsedTailIs(a: set<nat>, lo: nat, hi: nat, r: nat)
    requires lo <= r <= hi
    requires forall c: nat :: r <= c < hi ==> c in a
    requires r > lo ==> r - 1 !in a
    ensures UsedTail(a, lo, hi) == r
  {
    UsedTailIsUsed(a, lo, hi);
  }

  /** One step that takes a cluster at or above the hint, short of the last. */
  lemma StepUpTail(a: set<nat>, n: nat, hint: nat, c: nat)
    requires hint <= c < n && c !in a
    requires forall x: nat :: hint <= x < c ==> x in a
    ensures UsedTail(a + {c}, c + 1, n) == UsedTail(a, hint, n)
  {
    var top := UsedTail(a, hint, n);
    UsedTailIsUsed(a, hint, n);
    UsedTailIs(a + {c}, c + 1, n, top);
  }

  lemma StepUpBelow(a: set<nat>, limit: nat, hint: nat, c: nat)
    requires hint <= c
    requires forall x: nat :: hint <= x < c ==> x in a
    ensures FullBelow(a + {c}, limit, c + 1) <==> FullBelow(a, limit, hint)
  {
    if FullBelow(a + {c}, limit, c + 1) {
      forall x: nat | FIRST_CLUSTER <= x < limit && x < hint
        ensures x in a
      {
        assert x in a + {c};
      }
    }
  }

  lemma StepUpFree(a: set<nat>, n: nat, hint: nat, c: nat)
    requires hint <= c < n && FIRST_CLUSTER <= c && c !in a
    requires forall x: nat :: hint <= x < c ==> x in a
    ensures |FreeFrom(a, n, hint)| == |FreeFrom(a + {c}, n, c + 1)| + 1
  {
    assert FreeFrom(a, n, hint) == FreeFrom(a + {c}, n, c + 1) + {c};
  }

  lemma StepUp(a: set<nat>, n: nat, hint: nat, k: nat, c: nat)
    requires IsValidCluster(n, hint) && hint <= c && c + 1 < n && c !in a && k > 0
    requires forall x: nat :: hint <= x < c ==> x in a
    ensures Stuck(a + {c}, n, c + 1, k - 1) <==> Stuck(a, n, hint, k)
  {
    StepUpTail(a, n, hint, c);
    StepUpFree(a, n, hint, c);
    StepUpBelow(a, ByteStart(UsedTail(a, hint, n)), hint, c);
  }

  /** From a hint with nothing free below it, the search is never stuck. */
  lemma NothingBelow(a: set<nat>, n: nat, hint: nat, k: nat)
    requires IsValidCluster(n, hint) && k <= |FreeSet(a, n)|
    requires forall x: nat :: FIRST_CLUSTER <= x < hint ==> x in a
    ensures !Stuck(a, n, hint, k)
  {
    assert FreeFrom(a, n, hint) == FreeSet(a, n);
  }

  /** A search that comes back empty is stuck. */
  lemma StuckAtEof(a: set<nat>, n: nat, hint: nat, k: nat)
    requires IsValidCluster(n, hint) && n <= BAD_CLUSTER && k > 0
    requires ScanFrom(a, n, hint) == EOF_CLUSTER
    ensures Stuck(a, n, hint, k)
  {
    ScanOrder(a, n, hint);
    assert FreeFrom(a, n, hint) == {};
    UsedTailIs(a, hint, n, hint);
  }

  /** A search that wraps around is not. */
  lemma NotStuckAfterWrap(a: set<nat>, n: nat, hint: nat, k: nat, c: nat)
    requires IsValidCluster(n, hint) && n <= BAD_CLUSTER && k > 0
    requires ScanFrom(a, n, hint) == c < hint && k <= |FreeSet(a, n)|
    ensures c + 1 < n && c >= FIRST_CLUSTER
    ensures !Stuck(a, n, hint, k) && !Stuck(a + {c}, n, c + 1, k - 1)
  {
    ScanOrder(a, n, hint);
    UsedTailIs(a, hint, n, hint);
    var a' := a + {c};
    assert FreeSet(a, n) == FreeSet(a', n) + {c};
    NothingBelow(a', n, c + 1, k - 1);
  }

  /** Nor is one that takes the last cluster and starts over. */
  lemma NotStuckAfterLast(a: set<nat>, n: nat, hint: nat, k: nat)
    requires IsValidCluster(n, hint) && k > 0 && n - 1 !in a && k <= |FreeSet(a, n)|
    ensures !Stuck(a, n, hint, k) && !Stuck(a + {n - 1}, n, FIRST_CLUSTER, k - 1)
  {
    UsedTailIs(a, hint, n, n);
    var a' := a + {n - 1};
    assert FreeSet(a, n) == FreeSet(a', n) + {n - 1};
    NothingBelow(a', n, FIRST_CLUSTER, k - 1);
  }

  lemma ScanValid(a: set<nat>, n: nat, hint: nat)
    requires IsValidCluster(n, hint) && n <= BAD_CLUSTER
    ensures var c := ScanFrom(a, n, hint);
            c != EOF_CLUSTER ==> IsValidCluster(n, c) && c !in a
  {
    ScanOrder(a, n, hint);
  }

  lemma ScanDown(a: set<nat>, n: nat, hint: nat)
    requires IsValidCluster(n, hint) && n <= BAD_CLUSTER
    ensures var c := ScanFrom(a, n, hint);
            c != EOF_CLUSTER ==> IsValidCluster(n, c) && c !in a && forall x: nat :: hint <= x < c ==> x in a
  {
    ScanOrder(a, n, hint);
  }

  lemma TakeOne(a: set<nat>, n: nat, c: nat)
    requires IsValidCluster(n, c) && c !in a
    ensures |FreeSet(a, n)| == |FreeSet(a + {c}, n)| + 1
  {
    assert FreeSet(a, n) == FreeSet(a + {c}, n) + {c};
  }

  /** Whether the search gets stuck does not change when it takes a cluster. */
  lemma StuckStep(a: set<nat>, n: nat, hint: nat, k: nat)
    requires IsValidCluster(n, hint) && n <= BAD_CLUSTER && 0 < k <= |FreeSet(a, n)|
    requires ScanFrom(a, n, hint) != EOF_CLUSTER
    ensures var c := ScanFrom(a, n, hint);
            && IsValidCluster(n, c) && c !in a
            && (Stuck(a + {c}, n, NextHint(n, c), k - 1) <==> Stuck(a, n, hint, k))
  {
    var c := ScanFrom(a, n, hint);
    ScanDown(a, n, hint);
    if c < hint {
      NotStuckAfterWrap(a, n, hint, k, c);
    } else if c + 1 < n {
      StepUp(a, n, hint, k, c);
    } else {
      NotStuckAfterLast(a, n, hint, k);
    }
  }

  lemma {:induction false} PlanFullIff(a: set<nat>, n: nat, hint: nat, k: nat)
    requires IsValidCluster(n, hint) && n <= BAD_CLUSTER && k <= |FreeSet(a, n)|
    ensures |Plan(a, n, hint, k)| == k <==> !Stuck(a, n, hint, k)
    decreases k
  {
    if k > 0 {
      var c := ScanFrom(a, n, hint);
      if c == EOF_CLUSTER {
        StuckAtEof(a, n, hint, k);
      } else {
        StuckStep(a, n, hint, k);
        TakeOne(a, n, c);
        PlanFullIff(a + {c}, n, NextHint(n, c), k - 1);
      }
    }
  }

  /** A request for `k` clusters is satisfied exactly when that many are free and
      the search does not get stuck. */
  lemma RequestSatisfiedIff(a: set<nat>, n: nat, hint: nat, k: nat)
    requires IsValidCluster(n, hint) && n <= BAD_CLUSTER
    ensures |Plan(a, n, hint, k)| == k <==> k <= |FreeSet(a, n)| && !Stuck(a, n, hint, k)
  {
    if k <= |FreeSet(a, n)| {
      PlanFullIff(a, n, hint, k);
    } else {
      var cs := Plan(a, n, hint, k);
      PlanFresh(a, n, hint, k);
      FreshSize(n, a, cs);
      FreshIndex(n, a, cs);
      ElementsAll(cs);
      SubsetSize(Elements(cs), FreeSet(a, n));
    }
  }

  /** On a volume of eight clusters with 2 and 6 free, a request for two from
      cluster 6 takes 6 and gives up, although two clusters are free. */
  lemma StuckExample()
    ensures var a := {3, 4, 5, 7, 8, 9};
            && Plan(a, 10, 6, 2) == [6]
            && FreeSet(a, 10) == {2, 6}
  {
    var a := {3, 4, 5, 7, 8, 9};
    ScanAt(a, 10, 6, 6);
    var a' := a + {6};
    ScanEmpty(a', 10, 7);
    assert Plan(a', 10, 7, 1) == [];
  }

  lemma ScanAt(a: set<nat>, n: nat, clu: nat, c: nat)
    requires IsValidCluster(n, clu) && clu <= c < n && c !in a
    requires forall x: nat :: clu <= x < c ==> x in a
    ensures ScanFrom(a, n, clu) == c
  {
    ScanFound(a, n, clu, c);
  }

  lemma ScanEmpty(a: set<nat>, n: nat, clu: nat)
    requires IsValidCluster(n, clu)
    requires forall x: nat :: ByteStart(clu) <= x < clu || (FIRST_CLUSTER <= x < n ==> x in a)
    ensures ScanFrom(a, n, clu) == EOF_CLUSTER
  {
    FirstFreeIsFirst(a, clu, n);
    FirstFreeIsFirst(a, FIRST_CLUSTER, ByteStart(clu));
  }
}

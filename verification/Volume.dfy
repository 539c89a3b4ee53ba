/** The volume state of fs/exfat-linux (struct exfat_sb_info with its bitmap and
    FAT) and the operations of fatent.c on it. */
module Volumes {
  import opened Common
  import opened ExfatTypes
  import opened Bitmap
  import opened Fat
  import opened AllocPlan

  /** The clusters taken so far by an allocation from `start`, and how they are
      linked while the flag is `flags`. */
  ghost predicate Building(fat: Table, start: nat, dir: nat, last: nat, hint: nat, flags: Alloc, taken: seq<nat>) {
    && (dir == EOF_CLUSTER <==> taken == [])
    && (taken != [] ==> dir == taken[0] && last == Last(taken))
    && match flags
       case NoFatChain => IsValidCluster(|fat|, start) && IsRun(start, taken) && hint == start + |taken| <= |fat|
       case FatChain => taken != [] ==> IsChain(fat, taken)
  }

  lemma BuildMore(fat: Table, fat': Table, start: nat, dir: nat, last: nat, hint: nat, flags: Alloc,
                  taken: seq<nat>, clu: nat)
    requires Building(fat, start, dir, last, hint, flags, taken)
    requires IsValidCluster(|fat|, clu) && |fat'| == |fat| <= BAD_CLUSTER
    requires if flags == NoFatChain then clu == hint else IsChain(fat', taken + [clu])
    ensures Building(fat', start, if dir == EOF_CLUSTER then clu else dir, clu, clu + 1, flags, taken + [clu])
  {
    if flags == NoFatChain { RunSnoc(start, taken); }
  }

  /** A chain under construction stays consecutive as long as the clusters are, and
      while more are wanted they have not reached the end of the volume. */
  ghost predicate Kept(flags0: Alloc, flags: Alloc, start: nat, taken: seq<nat>, n: nat, more: bool) {
    flags == NoFatChain <==> flags0 == NoFatChain && IsRun(start, taken) && (more ==> start + |taken| < n)
  }

  lemma KeptStep(flags0: Alloc, flags: Alloc, flags': Alloc, start: nat, taken: seq<nat>, hint: nat, clu: nat,
                 n: nat, more: bool)
    requires Kept(flags0, flags, start, taken, n, true) && (flags == NoFatChain ==> hint == start + |taken|)
    requires clu < n && (flags' == NoFatChain <==> flags == NoFatChain && clu == hint && (more ==> clu + 1 < n))
    ensures Kept(flags0, flags', start, taken + [clu], n, more)
  {
    assert Front(taken + [clu]) == taken;
  }

  /** Where an allocation from `start` looks next. */
  ghost function HintAfter(n: nat, start: nat, taken: seq<nat>): (h: nat) {
    if taken == [] then start else NextHint(n, Last(taken))
  }

  /** The FAT and the variables of the loop when `taken` were taken of `k` clusters. */
  ghost predicate Linked(fat: Table, fat0: Table, n: nat, start: nat, flags0: Alloc, k: nat,
                         dir: nat, last: nat, hint: nat, flags: Alloc, taken: seq<nat>) {
    && |taken| <= k && SameOutside(fat, fat0, Elements(taken)) && (flags == NoFatChain ==> fat == fat0)
    && Kept(flags0, flags, start, taken, n, |taken| < k)
    && if |taken| < k then
         Building(fat, start, dir, last, hint, flags, taken) && hint == HintAfter(n, start, taken)
       else
         && Encodes(fat, dir, flags, taken) && (flags == NoFatChain ==> dir == start)
         && taken != [] && hint == HintAfter(n, start, Front(taken))
  }

  /** A turn took `clu`, from fat1 to fat2, and moved the hint on, from fat2 to fat. */
  lemma LinkedMore(fat: Table, fat2: Table, fat1: Table, fat0: Table, n: nat, start: nat, flags0: Alloc, k: nat,
                   dir: nat, last: nat, hint: nat, flags: Alloc, taken: seq<nat>, clu: nat,
                   flags2: Alloc, dir': nat, hint': nat, flags': Alloc)
    requires |taken| < k && clu < n && Linked(fat1, fat0, n, start, flags0, k, dir, last, hint, flags, taken)
    requires SameOutside(fat2, fat1, Elements(taken + [clu])) && (flags2 == NoFatChain ==> fat2 == fat1)
    requires SameOutside(fat, fat2, Elements(taken + [clu])) && (flags' == NoFatChain ==> fat == fat2)
    requires flags2 == NoFatChain <==> flags == NoFatChain && clu == hint
    requires flags' == NoFatChain <==> flags2 == NoFatChain && (|taken| + 1 < k ==> clu + 1 < n)
    requires hint' == if |taken| + 1 < k then NextHint(n, clu) else hint
    requires Building(fat, start, dir', clu, if |taken| + 1 < k then hint' else clu + 1, flags', taken + [clu])
    ensures Linked(fat, fat0, n, start, flags0, k, dir', clu, hint', flags', taken + [clu])
  {
    KeptStep(flags0, flags, flags', start, taken, hint, clu, n, |taken| + 1 < k);
    ElementsSnoc(taken, clu);
    SameOutsideTrans(fat, fat2, fat1, Elements(taken + [clu]), Elements(taken + [clu]), Elements(taken + [clu]));
    SameOutsideTrans(fat, fat1, fat0, Elements(taken + [clu]), Elements(taken), Elements(taken + [clu]));
    assert Front(taken + [clu]) == taken;
    if |taken| + 1 == k { BuildingDone(fat, start, dir', clu, clu + 1, flags', taken + [clu]); }
  }

  /** `taken` is what was taken so far of the plan `whole` of k clusters. */
  ghost predicate Planned(whole: seq<nat>, taken: seq<nat>, a: set<nat>, n: nat, hint: nat, k: nat) {
    && IsValidCluster(n, hint) && n <= BAD_CLUSTER && |taken| <= k
    && whole == PlanFrom(taken, a, n, hint, k - |taken|)
  }

  lemma PlannedMore(whole: seq<nat>, taken: seq<nat>, a: set<nat>, n: nat, hint: nat, k: nat, c: nat)
    requires Planned(whole, taken, a, n, hint, k) && |taken| < k && c == ScanFrom(a, n, hint) != EOF_CLUSTER && c < n
    ensures Planned(whole, taken + [c], a + {c}, n, NextHint(n, c), k)
    ensures |taken| + 1 == k ==> Planned(whole, taken + [c], a + {c}, n, hint, k)
  {
  }

  lemma PlannedDone(whole: seq<nat>, taken: seq<nat>, a: set<nat>, n: nat, hint: nat, k: nat)
    requires Planned(whole, taken, a, n, hint, k) && (|taken| == k || ScanFrom(a, n, hint) == EOF_CLUSTER)
    ensures whole == taken
  {
  }

  lemma StartValid(a: set<nat>, n: nat, ptr: nat, dir: nat)
    requires FIRST_CLUSTER < n <= BAD_CLUSTER && ptr < n
    ensures var h := StartHint(a, n, ptr, dir); h == EOF_CLUSTER || IsValidCluster(n, h)
  {
    ScanValid(a, n, if ptr < FIRST_CLUSTER then FIRST_CLUSTER else ptr);
  }

  lemma BuildingDone(fat: Table, start: nat, dir: nat, last: nat, hint: nat, flags: Alloc, taken: seq<nat>)
    requires Building(fat, start, dir, last, hint, flags, taken) && taken != []
    ensures Encodes(fat, dir, flags, taken) && (flags == NoFatChain ==> dir == start)
  {
    if flags == NoFatChain { RunIndex(start, taken); }
  }

  /** The bitmap stands for `inUse`. */
  ghost predicate MapOk(n: nat, bs: nat, amap: Amap, inUse: set<nat>) {
    FIRST_CLUSTER < n <= BAD_CLUSTER && Represents(amap, bs, n, inUse)
  }

  /** The counter is the number of marks, less those that were leaked. */
  ghost predicate CountOk(inUse: set<nat>, leaked: set<nat>, used: nat) {
    leaked <= inUse && used + |leaked| == |inUse|
  }

  /** An allocation has taken `taken` from a volume with marks `a0`, which now
      has marks `a`. */
  ghost predicate Took(n: nat, a0: set<nat>, a: set<nat>, taken: seq<nat>) {
    Fresh(n, a0, taken) && a == a0 + Elements(taken)
  }

  lemma TookMore(n: nat, a0: set<nat>, a: set<nat>, taken: seq<nat>, clu: nat)
    requires Took(n, a0, a, taken) && IsValidCluster(n, clu) && clu !in a
    ensures Took(n, a0, a + {clu}, taken + [clu])
  {
    FreshSnoc(n, a0, taken, clu);
    ElementsSnoc(taken, clu);
    assert a + {clu} == a0 + (Elements(taken) + {clu});
  }

  /** The counter after an allocation that completed, and after one that did not. */
  lemma CountTaken(n: nat, a0: set<nat>, l0: set<nat>, used: nat, a: set<nat>, taken: seq<nat>)
    requires CountOk(a0, l0, used) && Took(n, a0, a, taken)
    ensures CountOk(a, l0, used + |taken|)
    ensures CountOk(a, l0 + Elements(taken), used)
  {
    FreshSize(n, a0, taken);
  }

  lemma MinusSize(a: set<nat>, s: set<nat>)
    requires s <= a
    ensures |a - s| == |a| - |s|
  {
    assert a == (a - s) + s;
  }

  lemma CountFreed(n: nat, a: set<nat>, l: set<nat>, used: nat, cs: seq<nat>)
    requires CountOk(a, l, used) && Fresh(n, {}, cs) && Elements(cs) <= a - l
    ensures |cs| <= used && CountOk(a - Elements(cs), l, used - |cs|)
  {
    FreshSize(n, {}, cs);
    MinusSize(a, Elements(cs));
    MinusSize(a - Elements(cs), l);
  }

  /** The free clusters are those the bitmap does not mark. */
  lemma FreeCount(n: nat, bs: nat, amap: Amap, a: set<nat>)
    requires MapOk(n, bs, amap, a)
    ensures |FreeSet(a, n)| + |a| == n - FIRST_CLUSTER
  {
    RepresentsInUse(amap, bs, n, a);
    DataClustersSize(n);
    assert FreeSet(a, n) + a == DataClusters(n);
    assert FreeSet(a, n) !! a;
  }

  /** When a request for k clusters succeeds: enough are free, the start of the
      search is found, and the search does not get stuck. */
  lemma AllocSucceedsIff(n: nat, bs: nat, amap: Amap, a: set<nat>, l: set<nat>, used: nat, h: nat, k: nat)
    requires MapOk(n, bs, amap, a) && CountOk(a, l, used) && (h == EOF_CLUSTER || IsValidCluster(n, h)) && k > 0
    ensures var taken := if used + k <= n - FIRST_CLUSTER && h != EOF_CLUSTER then Plan(a, n, h, k) else [];
            |taken| == k <==> h != EOF_CLUSTER && used + |l| + k <= n - FIRST_CLUSTER && !Stuck(a, n, h, k)
  {
    FreeCount(n, bs, amap, a);
    if h != EOF_CLUSTER { RequestSatisfiedIff(a, n, h, k); }
  }

  /** When a request leaks: it passes the check against the counter and finds a first
      cluster, but too many clusters are marked without being counted, or the search
      gets stuck. */
  lemma LeaksIff(n: nat, bs: nat, amap: Amap, a: set<nat>, l: set<nat>, used: nat, h: nat, k: nat)
    requires MapOk(n, bs, amap, a) && CountOk(a, l, used) && (h == EOF_CLUSTER || IsValidCluster(n, h)) && k > 0
    ensures var taken := if used + k <= n - FIRST_CLUSTER && h != EOF_CLUSTER then Plan(a, n, h, k) else [];
            |taken| != k && taken != [] <==>
              && h != EOF_CLUSTER && used + k <= n - FIRST_CLUSTER && ScanFrom(a, n, h) != EOF_CLUSTER
              && (used + |l| + k > n - FIRST_CLUSTER || Stuck(a, n, h, k))
  {
    AllocSucceedsIff(n, bs, amap, a, l, used, h, k);
  }

  /** The marks of the example: clusters 2 and 6 are free. */
  ghost function SixMarks(): (a: set<nat>)
    ensures |a| == 6 && a !! {2, 6}
  {
    {3, 4, 5, 7, 8, 9}
  }

  lemma LeakPlan(a: set<nat>, used: nat)
    requires a == SixMarks() && CountOk(a, {}, used)
    ensures used == 6 && Plan(a, 10, 6, 2) == [6] && Elements([6]) == {6}
  {
    StuckExample();
    ElementsAll([6]);
  }

  /** What an allocation looks at: the marks, those without an owner, the counter and
      the search pointer of a volume. */
  datatype Marks = Marks(n: nat, inUse: set<nat>, leaked: set<nat>, used: nat, ptr: nat)

  /** A request for k clusters with hint `dir` succeeds: it finds a start, enough
      clusters are neither in use nor leaked, and the search does not get stuck. */
  ghost predicate Grants(m: Marks, dir: nat, k: nat) {
    && FIRST_CLUSTER < m.n <= BAD_CLUSTER && m.ptr < m.n
    && var h := StartHint(m.inUse, m.n, m.ptr, dir);
       IsValidCluster(m.n, h) && m.used + |m.leaked| + k <= m.n - 2 && !Stuck(m.inUse, m.n, h, k)
  }

  /** The clusters it gets. */
  ghost function Granted(m: Marks, dir: nat, k: nat): (cs: seq<nat>)
    requires Grants(m, dir, k)
  {
    Plan(m.inUse, m.n, StartHint(m.inUse, m.n, m.ptr, dir), k)
  }

  lemma GrantsIff(m: Marks, bs: nat, amap: Amap, dir: nat, k: nat, taken: seq<nat>)
    requires MapOk(m.n, bs, amap, m.inUse) && CountOk(m.inUse, m.leaked, m.used) && k > 0 && m.ptr < m.n
    requires var h := StartHint(m.inUse, m.n, m.ptr, dir);
             && (h == EOF_CLUSTER || IsValidCluster(m.n, h))
             && taken == if m.used + k <= m.n - FIRST_CLUSTER && h != EOF_CLUSTER then Plan(m.inUse, m.n, h, k) else []
    ensures Answered(Request(m, dir, k, |taken| == k, taken))
  {
    AllocSucceedsIff(m.n, bs, amap, m.inUse, m.leaked, m.used, StartHint(m.inUse, m.n, m.ptr, dir), k);
  }

  /** A request to a volume: how it stood, the hint and the number of clusters, and
      whether it was granted with which clusters. */
  datatype Request = Request(before: Marks, dir: nat, k: nat, ok: bool, got: seq<nat>)

  /** It was granted exactly when it could be, with the clusters of the plan. */
  ghost predicate Answered(r: Request) {
    (r.ok <==> Grants(r.before, r.dir, r.k)) && (r.ok ==> r.got == Granted(r.before, r.dir, r.k))
  }

  class Volume {
    const n: nat               // num_clusters: data clusters are 2 .. n-1
    const bs: nat              // block size in bytes
    const spc: nat             // sect_per_clus
    const cluSize: nat         // cluster_size in bytes
    const dataStart: nat       // data_start_sector
    var amap: Amap
    var fat: Table
    var cluSrchPtr: nat
    var usedClusters: nat
    ghost var inUse: set<nat>  // what the bitmap marks
    ghost var leaked: set<nat> // marked by allocations that then failed
    ghost var served: seq<Request> // the requests made so far

    ghost function State(): (m: Marks)
      reads this
    {
      Marks(n, inUse, leaked, usedClusters, cluSrchPtr)
    }

    ghost predicate Valid()
      reads this
    {
      && MapOk(n, bs, amap, inUse) && CountOk(inUse, leaked, usedClusters)
      && |fat| == n && cluSrchPtr < n && cluSize > 0
      && forall i :: 0 <= i < |served| ==> Answered(served[i])
    }

    /** Mounting: the bitmap is taken as found and its marks are counted. */
    constructor Mount(n: nat, bs: nat, spc: nat, dataStart: nat, amap: Amap, fat: Table)
      requires FIRST_CLUSTER < n <= BAD_CLUSTER && |fat| == n && spc > 0 && bs * spc > 0 && Shape(amap, bs, n)
      ensures Valid() && this.n == n && this.bs == bs && this.spc == spc && this.dataStart == dataStart
      ensures cluSize == bs * spc
      ensures this.amap == amap && this.fat == fat && leaked == {} && cluSrchPtr == 2 && served == []
    {
      this.n, this.bs, this.spc, this.dataStart, this.amap, this.fat := n, bs, spc, dataStart, amap, fat;
      cluSize := bs * spc;
      cluSrchPtr, served := FIRST_CLUSTER, [];
      FlatAt(amap, bs, 0, 0);
      ghost var marks := InUse(Flat(amap), n);
      RepresentsInUse(amap, bs, n, marks);
      var used := CountUsedClusters(amap, bs, n, marks);
      usedClusters := used;
      inUse := marks;
      leaked := {};
    }

    /** exfat_set_bitmap */
    method SetBit(clu: nat)
      requires MapOk(n, bs, amap, inUse)
      requires IsValidCluster(n, clu)
      modifies this`amap, this`inUse
      ensures MapOk(n, bs, amap, inUse)
      ensures inUse == old(inUse) + {clu}
    {
      RepresentsInUse(amap, bs, n, inUse);
      SetBitmapMarks(amap, bs, n, clu);
      amap := SetBitmap(amap, bs, n, clu);
      inUse := inUse + {clu};
      RepresentsInUse(amap, bs, n, inUse);
    }

    /** exfat_clear_bitmap */
    method ClearBit(clu: nat)
      requires MapOk(n, bs, amap, inUse)
      requires IsValidCluster(n, clu)
      modifies this`amap, this`inUse
      ensures MapOk(n, bs, amap, inUse)
      ensures inUse == old(inUse) - {clu}
    {
      RepresentsInUse(amap, bs, n, inUse);
      ClearBitmapUnmarks(amap, bs, n, clu);
      amap := ClearBitmap(amap, bs, n, clu);
      inUse := inUse - {clu};
      RepresentsInUse(amap, bs, n, inUse);
    }

    method FindFree(clu: nat) returns (r: nat)
      requires MapOk(n, bs, amap, inUse) && IsValidCluster(n, clu)
      ensures r == ScanFrom(inUse, n, clu)
    {
      r := FindFreeBitmap(amap, bs, n, clu, inUse);
    }

    /** exfat_ent_set */
    method EntSet(loc: nat, content: nat)
      requires loc < |fat|
      modifies this`fat
      ensures fat == old(fat)[loc := content]
    {
      fat := fat[loc := content];
    }

    /** exfat_chain_cont_cluster: link `len` consecutive clusters into a chain. */
    method ChainContCluster(first: nat, length: nat)
      requires length > 0 ==> first + length <= |fat|
      modifies this`fat
      ensures |fat| == |old(fat)|
      ensures forall c :: 0 <= c < |fat| && !(first <= c < first + length) ==> fat[c] == old(fat)[c]
      ensures forall c :: first <= c < first + length - 1 ==> fat[c] == c + 1
      ensures length > 0 ==> fat[first + length - 1] == EOF_CLUSTER
    {
      if length == 0 {
        return;
      }
      var chain, len := first, length;
      while len > 1
        invariant 1 <= len <= length && chain == first + (length - len)
        invariant |fat| == |old(fat)|
        invariant forall c :: 0 <= c < |fat| && !(first <= c < chain) ==> fat[c] == old(fat)[c]
        invariant forall c :: first <= c < chain ==> fat[c] == c + 1
      {
        EntSet(chain, chain + 1);
        chain, len := chain + 1, len - 1;
      }
      EntSet(chain, EOF_CLUSTER);
    }

    /** One more cluster at the end of a FAT chain under construction. */
    method LinkLast(dir: nat, last: nat, clu: nat, ghost taken: seq<nat>)
      requires IsValidCluster(|fat|, clu) && |fat| <= BAD_CLUSTER && clu !in Elements(taken)
      requires dir == EOF_CLUSTER <==> taken == []
      requires taken != [] ==> IsChain(fat, taken) && last == Last(taken)
      modifies this`fat
      ensures IsChain(fat, taken + [clu]) && SameOutside(fat, old(fat), Elements(taken) + {clu})
    {
      EntSet(clu, EOF_CLUSTER);
      if dir == EOF_CLUSTER {
        assert taken + [clu] == [clu];
      } else {
        ghost var fat1 := fat;
        EncodesFrame(old(fat), fat1, taken[0], FatChain, taken, {clu});
        ChainIndex(fat1, taken);
        ElementsHas(taken, last);
        EntSet(last, clu);
        assert Elements([clu]) == {clu} by { ElementsSnoc([], clu); assert [] + [clu] == [clu]; }
        ChainAppend(fat1, fat, taken, [clu]);
      }
    }

    /** Switch a chain under construction from consecutive to FAT-linked. */
    method ToFatChain(start: nat, dir: nat, last: nat, hint: nat, count: nat, ghost taken: seq<nat>)
      requires Building(fat, start, dir, last, hint, NoFatChain, taken) && count == |taken|
      modifies this`fat
      ensures Building(fat, start, dir, last, hint, FatChain, taken)
      ensures SameOutside(fat, old(fat), Elements(taken))
    {
      RunIndex(start, taken);
      ChainContCluster(dir, count);
      if count > 0 {
        RunLinked(fat, start, taken);
      }
      forall c: nat | c < |fat| && c !in Elements(taken)
        ensures fat[c] == old(fat)[c]
      {
        RunHas(start, taken, c);
      }
    }

    /** Take one cluster: mark it and link it. */
    method Take(start: nat, dir: nat, last: nat, hint: nat, flags: Alloc, clu: nat,
                ghost taken: seq<nat>, ghost a0: set<nat>)
      returns (dir': nat)
      requires MapOk(n, bs, amap, inUse) && |fat| == n
      requires Took(n, a0, inUse, taken) && Building(fat, start, dir, last, hint, flags, taken)
      requires IsValidCluster(n, clu) && clu !in inUse
      requires flags == NoFatChain ==> clu == hint
      modifies this`amap, this`fat, this`inUse
      ensures MapOk(n, bs, amap, inUse)
      ensures Took(n, a0, inUse, taken + [clu]) && inUse == old(inUse) + {clu}
      ensures Building(fat, start, dir', clu, clu + 1, flags, taken + [clu])
      ensures SameOutside(fat, old(fat), Elements(taken) + {clu})
      ensures flags == NoFatChain ==> fat == old(fat)
    {
      TookMore(n, a0, inUse, taken, clu);
      SetBit(clu);
      if flags == FatChain {
        LinkLast(dir, last, clu, taken);
      }
      BuildMore(old(fat), fat, start, dir, last, hint, flags, taken, clu);
      dir' := if dir == EOF_CLUSTER then clu else dir;
    }

    /** A cluster was found: switch encodings if it is not the next one, take it. */
    method TakeFound(start: nat, dir: nat, last: nat, hint: nat, flags: Alloc, count: nat, clu: nat,
                     ghost taken: seq<nat>, ghost a0: set<nat>)
      returns (dir': nat, flags': Alloc)
      requires MapOk(n, bs, amap, inUse) && |fat| == n
      requires Took(n, a0, inUse, taken) && Building(fat, start, dir, last, hint, flags, taken)
      requires IsValidCluster(n, clu) && clu !in inUse && count == |taken|
      modifies this`amap, this`fat, this`inUse
      ensures MapOk(n, bs, amap, inUse)
      ensures Took(n, a0, inUse, taken + [clu]) && inUse == old(inUse) + {clu}
      ensures Building(fat, start, dir', clu, clu + 1, flags', taken + [clu])
      ensures SameOutside(fat, old(fat), Elements(taken + [clu]))
      ensures flags' == NoFatChain <==> flags == NoFatChain && clu == hint
      ensures flags' == NoFatChain ==> fat == old(fat)
    {
      flags' := flags;
      if clu != hint && flags == NoFatChain {
        ToFatChain(start, dir, last, hint, count, taken);
        flags' := FatChain;
      }
      ghost var fat1 := fat;
      dir' := Take(start, dir, last, hint, flags', clu, taken, a0);
      ElementsSnoc(taken, clu);
      SameOutsideTrans(fat, fat1, old(fat), Elements(taken) + {clu}, Elements(taken), Elements(taken) + {clu});
    }

    /** Move the hint past the cluster just taken, wrapping at the end. */
    method Advance(start: nat, dir: nat, last: nat, flags: Alloc, count: nat, ghost taken: seq<nat>)
      returns (hint: nat, flags': Alloc)
      requires FIRST_CLUSTER < |fat| == n && IsValidCluster(n, last) && count == |taken|
      requires Building(fat, start, dir, last, last + 1, flags, taken)
      modifies this`fat
      ensures hint == NextHint(n, last)
      ensures Building(fat, start, dir, last, hint, flags', taken)
      ensures SameOutside(fat, old(fat), Elements(taken))
      ensures flags' == NoFatChain <==> flags == NoFatChain && last + 1 < n
      ensures flags' == NoFatChain ==> fat == old(fat)
    {
      flags', hint := flags, last + 1;
      if hint >= n {
        if flags == NoFatChain {
          ToFatChain(start, dir, last, hint, count, taken);
          flags' := FatChain;
        }
        hint := FIRST_CLUSTER;
      }
    }

    /** More clusters are wanted: move the hint on and search. */
    method GoOn(start: nat, dir: nat, clu: nat, flags: Alloc, count: nat, ghost taken: seq<nat>)
      returns (hint: nat, flags': Alloc, next: nat)
      requires MapOk(n, bs, amap, inUse) && |fat| == n && IsValidCluster(n, clu) && count == |taken|
      requires Building(fat, start, dir, clu, clu + 1, flags, taken)
      modifies this`fat
      ensures hint == NextHint(n, clu) && Building(fat, start, dir, clu, hint, flags', taken)
      ensures next == ScanFrom(inUse, n, hint) && SameOutside(fat, old(fat), Elements(taken))
      ensures flags' == NoFatChain <==> flags == NoFatChain && clu + 1 < n
      ensures flags' == NoFatChain ==> fat == old(fat)
    {
      hint, flags' := Advance(start, dir, clu, flags, count, taken);
      next := FindFree(hint);
    }

    /** One turn of the loop: take the cluster found and, when more are wanted,
        move the hint on. */
    method Turn(start: nat, flags0: Alloc, numAlloc: nat, dir: nat, last: nat, hint: nat, flags: Alloc, count: nat,
                found: nat, ghost taken: seq<nat>, ghost a0: set<nat>, ghost fat0: Table, ghost whole: seq<nat>)
      returns (dir': nat, hint': nat, flags': Alloc, next: nat)
      requires MapOk(n, bs, amap, inUse) && |fat| == n && IsValidCluster(n, hint) && count == |taken| < numAlloc
      requires found == ScanFrom(inUse, n, hint) != EOF_CLUSTER && Took(n, a0, inUse, taken)
      requires Linked(fat, fat0, n, start, flags0, numAlloc, dir, last, hint, flags, taken)
      requires Planned(whole, taken, inUse, n, hint, numAlloc)
      modifies this`amap, this`fat, this`inUse
      ensures MapOk(n, bs, amap, inUse) && |fat| == n && IsValidCluster(n, hint')
      ensures Took(n, a0, inUse, taken + [found])
      ensures Linked(fat, fat0, n, start, flags0, numAlloc, dir', found, hint', flags', taken + [found])
      ensures count + 1 < numAlloc ==> next == ScanFrom(inUse, n, hint')
      ensures Planned(whole, taken + [found], inUse, n, hint', numAlloc)
    {
      ScanValid(inUse, n, hint);
      ghost var fat1 := fat;
      PlannedMore(whole, taken, inUse, n, hint, numAlloc, found);
      dir', flags' := TakeFound(start, dir, last, hint, flags, count, found, taken, a0);
      ghost var fat2, flags2 := fat, flags';
      hint', next := hint, found;
      if count + 1 < numAlloc {
        hint', flags', next := GoOn(start, dir', found, flags', count + 1, taken + [found]);
      }
      LinkedMore(fat, fat2, fat1, fat0, n, start, flags0, numAlloc, dir, last, hint, flags, taken, found,
                 flags2, dir', hint', flags');
    }

    /** The loop of exfat_alloc_cluster: find, mark and link clusters one by one
        until `numAlloc` are taken or a search comes back empty. */
    method AllocLoop(start: nat, flags0: Alloc, numAlloc: nat)
      returns (dir: nat, hint: nat, flags: Alloc, count: nat, ghost taken: seq<nat>)
      requires MapOk(n, bs, amap, inUse) && |fat| == n
      requires IsValidCluster(n, start) && numAlloc > 0
      modifies this`amap, this`fat, this`inUse
      ensures MapOk(n, bs, amap, inUse) && |fat| == n
      ensures taken == PlanFrom([], old(inUse), n, start, numAlloc) && count == |taken| <= numAlloc
      ensures IsValidCluster(n, hint)
      ensures Took(n, old(inUse), inUse, taken)
      ensures SameOutside(fat, old(fat), Elements(taken))
      ensures count == numAlloc ==> Encodes(fat, dir, flags, taken) && (flags == NoFatChain ==> dir == start)
      ensures count == numAlloc ==> (flags == NoFatChain <==> flags0 == NoFatChain && IsRun(start, taken))
      ensures flags == NoFatChain ==> fat == old(fat)
      ensures count == numAlloc ==> taken != [] && hint == HintAfter(n, start, Front(taken))
    {
      var last := EOF_CLUSTER;
      dir, hint, flags, count, taken := EOF_CLUSTER, start, flags0, 0, [];
      ghost var whole := PlanFrom([], inUse, n, start, numAlloc);
      ghost var a0, fat0 := inUse, fat;
      var newClu := FindFree(hint);
      while newClu != EOF_CLUSTER && count < numAlloc
        invariant MapOk(n, bs, amap, inUse) && |fat| == n
        invariant IsValidCluster(n, hint) && count == |taken| <= numAlloc
        invariant Took(n, a0, inUse, taken)
        invariant Linked(fat, fat0, n, start, flags0, numAlloc, dir, last, hint, flags, taken)
        invariant count < numAlloc ==> newClu == ScanFrom(inUse, n, hint)
        invariant Planned(whole, taken, inUse, n, hint, numAlloc)
        decreases numAlloc - count
      {
        var found := newClu;
        dir, hint, flags, newClu :=
          Turn(start, flags0, numAlloc, dir, last, hint, flags, count, found, taken, a0, fat0, whole);
        last := found;
        taken, count := taken + [found], count + 1;
      }
      PlannedDone(whole, taken, inUse, n, hint, numAlloc);
    }

    /** The first loop of __exfat_free_cluster: clear a run of consecutive bits. */
    method ClearRun(dir: nat, size: nat, ghost cs: seq<nat>)
      requires MapOk(n, bs, amap, inUse) && IsValidCluster(n, dir) && dir + size <= n
      requires |cs| == size && IsRun(dir, cs)
      modifies this`amap, this`inUse
      ensures MapOk(n, bs, amap, inUse) && inUse == old(inUse) - Elements(cs)
    {
      var clu, num := dir, 0;
      RunIndex(dir, cs);
      while num < size
        invariant num <= size && clu == dir + num
        invariant MapOk(n, bs, amap, inUse) && inUse == old(inUse) - Elements(cs[..num])
      {
        ClearBit(clu);
        ElementsPrefix(cs, num);
        clu, num := clu + 1, num + 1;
      }
      assert cs[..size] == cs;
    }

    /** The second: follow the FAT, clearing each cluster once its successor has
        been read. */
    method ClearChain(dir: nat, ghost cs: seq<nat>) returns (num: nat)
      requires MapOk(n, bs, amap, inUse) && |fat| == n
      requires IsChain(fat, cs) && cs[0] == dir
      modifies this`amap, this`inUse
      ensures MapOk(n, bs, amap, inUse) && inUse == old(inUse) - Elements(cs)
      ensures num == |cs|
    {
      var clu, more := dir, true;
      num := 0;
      ChainIndex(fat, cs);
      while more
        invariant num <= |cs| && (more ==> num < |cs| && clu == cs[num]) && (!more ==> num == |cs|)
        invariant MapOk(n, bs, amap, inUse) && inUse == old(inUse) - Elements(cs[..num])
        decreases |cs| - num
      {
        ChainNext(fat, cs, num);
        var next := EntGet(fat, clu);
        ClearBit(clu);
        ElementsPrefix(cs, num);
        clu, num := next.content, num + 1;
        more := next.status == Ok && clu != EOF_CLUSTER;
      }
      assert cs[..num] == cs;
    }

    /** What __exfat_free_cluster is given: a chain of clusters `cs` in use. */
    ghost predicate Freeable(chain: Chain, cs: seq<nat>)
      reads this
    {
      chain.size > 0 && IsValidCluster(n, chain.dir) ==>
        && Elements(cs) <= inUse - leaked
        && match chain.flags
           case NoFatChain => chain.dir + chain.size <= n && |cs| == chain.size && IsRun(chain.dir, cs)
           case FatChain => IsChain(fat, cs) && cs[0] == chain.dir
    }

    /** __exfat_free_cluster */
    method FreeCluster(chain: Chain, ghost cs: seq<nat>) returns (st: Status)
      requires Valid() && Freeable(chain, cs)
      modifies this`amap, this`inUse, this`usedClusters
      ensures Valid()
      ensures chain.size == 0 || !IsValidCluster(n, chain.dir) ==>
                inUse == old(inUse) && usedClusters == old(usedClusters)
      ensures chain.size > 0 && IsValidCluster(n, chain.dir) ==>
                inUse == old(inUse) - Elements(cs) && usedClusters == old(usedClusters) - |cs|
      ensures st == EIO <==> chain.size > 0 && n <= chain.dir != EOF_CLUSTER
      ensures st == Ok || st == EIO
    {
      if chain.dir == FREE_CLUSTER || chain.dir == EOF_CLUSTER || chain.dir < FIRST_CLUSTER {
        return Ok;
      }
      if chain.size == 0 {
        return Ok;
      }
      if !IsValidCluster(n, chain.dir) {
        return EIO;
      }
      var num;
      EncodedFreshChain(fat, chain, cs);
      CountFreed(n, inUse, leaked, usedClusters, cs);
      if chain.flags == NoFatChain {
        ClearRun(chain.dir, chain.size, cs);
        num := chain.size;
      } else {
        num := ClearChain(chain.dir, cs);
      }
      usedClusters := usedClusters - num;
      return Ok;
    }

    /** The hint of a request: the search pointer when none is given, the first
        cluster when it is invalid. */
    method StartSearch(dir: nat) returns (hint: nat)
      requires MapOk(n, bs, amap, inUse) && cluSrchPtr < n
      modifies this`cluSrchPtr
      ensures hint == StartHint(inUse, n, old(cluSrchPtr), dir) && cluSrchPtr < n
      ensures cluSrchPtr == old(cluSrchPtr) || old(cluSrchPtr) < 2 == cluSrchPtr
      ensures hint != EOF_CLUSTER ==> IsValidCluster(n, hint)
    {
      hint := dir;
      if hint == EOF_CLUSTER {
        if cluSrchPtr < FIRST_CLUSTER {
          cluSrchPtr := FIRST_CLUSTER;
        }
        ScanValid(inUse, n, cluSrchPtr);
        hint := FindFree(cluSrchPtr);
      } else if !IsValidCluster(n, hint) {
        hint := FIRST_CLUSTER;
      }
    }

    /** The loop, and the chain it built: of full size when it completed, of size
        0 otherwise. */
    method TakeClusters(start: nat, flags: Alloc, numAlloc: nat)
      returns (res: Chain, hint: nat, count: nat, ghost taken: seq<nat>)
      requires MapOk(n, bs, amap, inUse) && |fat| == n
      requires IsValidCluster(n, start) && numAlloc > 0
      modifies this`amap, this`fat, this`inUse
      ensures MapOk(n, bs, amap, inUse) && |fat| == n
      ensures taken == Plan(old(inUse), n, start, numAlloc) && count == |taken|
      ensures IsValidCluster(n, hint)
      ensures Took(n, old(inUse), inUse, taken) && SameOutside(fat, old(fat), Elements(taken))
      ensures count == numAlloc ==> (res.flags == NoFatChain <==> flags == NoFatChain && IsRun(start, taken))
      ensures res.flags == NoFatChain ==> fat == old(fat)
      ensures count == numAlloc ==> taken != [] && hint == HintAfter(n, start, Front(taken))
      ensures res.size == if count == numAlloc then numAlloc else 0
      ensures count == numAlloc ==> Encodes(fat, res.dir, res.flags, taken)
      ensures count == numAlloc && res.flags == NoFatChain ==> res.dir == start
    {
      PlanFromIs([], inUse, n, start, numAlloc);
      var dir, flags';
      dir, hint, flags', count, taken := AllocLoop(start, flags, numAlloc);
      res := Chain(dir, if count == numAlloc then count else 0, flags');
    }

    /** Take clusters from `start` on; account for them, or leave them marked. */
    method AllocFrom(start: nat, flags: Alloc, numAlloc: nat)
      returns (st: Status, res: Chain, ghost taken: seq<nat>)
      requires Valid() && IsValidCluster(n, start) && numAlloc > 0
      modifies this
      ensures Valid()
      ensures taken == Plan(old(inUse), n, start, numAlloc)
      ensures st == if |taken| == numAlloc then Ok else ENOSPC
      ensures Took(n, old(inUse), inUse, taken) && SameOutside(fat, old(fat), Elements(taken))
      ensures st == Ok ==> (res.flags == NoFatChain <==> flags == NoFatChain && IsRun(start, taken))
      ensures st == Ok && res.flags == NoFatChain ==> fat == old(fat)
      ensures st == Ok ==> taken != [] && cluSrchPtr == HintAfter(n, start, Front(taken))
      ensures st != Ok ==> cluSrchPtr == old(cluSrchPtr)
      ensures served == old(served)
      ensures st == Ok ==> usedClusters == old(usedClusters) + numAlloc && leaked == old(leaked)
      ensures st == Ok ==> res.size == numAlloc && Encodes(fat, res.dir, res.flags, taken)
      ensures st == Ok && res.flags == NoFatChain ==> res.dir == start
      ensures st != Ok ==> usedClusters == old(usedClusters) && leaked == old(leaked) + Elements(taken)
    {
      var hint, count;
      res, hint, count, taken := TakeClusters(start, flags, numAlloc);
      CountTaken(n, old(inUse), leaked, usedClusters, inUse, taken);
      if count == numAlloc {
        cluSrchPtr := hint;
        usedClusters := usedClusters + count;
        st := Ok;
      } else {
        leaked := leaked + Elements(taken);
        st := ENOSPC;
        if count > 0 {
          var freed := FreeCluster(res, []);
        }
      }
    }

    /** The body of exfat_alloc_cluster. */
    method AllocRequest(numAlloc: nat, chain: Chain) returns (st: Status, res: Chain, ghost taken: seq<nat>)
      requires Valid() && numAlloc > 0 && chain.size == 0
      modifies this
      ensures Valid()
      ensures var h := StartHint(old(inUse), n, old(cluSrchPtr), chain.dir);
              taken == if old(usedClusters) + numAlloc <= n - FIRST_CLUSTER && h != EOF_CLUSTER
                       then Plan(old(inUse), n, h, numAlloc) else []
      ensures st == if n - FIRST_CLUSTER < old(usedClusters) then EIO else if |taken| == numAlloc then Ok else ENOSPC
      ensures Took(n, old(inUse), inUse, taken) && SameOutside(fat, old(fat), Elements(taken))
      ensures st == Ok ==> usedClusters == old(usedClusters) + numAlloc && leaked == old(leaked)
      ensures st == Ok ==> res.size == numAlloc && Encodes(fat, res.dir, res.flags, taken)
      ensures var h := StartHint(old(inUse), n, old(cluSrchPtr), chain.dir);
              st == Ok ==> (res.flags == NoFatChain <==>
                              && chain.flags == NoFatChain && IsRun(h, taken)
                              && (chain.dir == EOF_CLUSTER || IsValidCluster(n, chain.dir)))
      ensures st == Ok && res.flags == NoFatChain ==> fat == old(fat)
      ensures served == old(served)
      ensures st != Ok ==> cluSrchPtr == old(cluSrchPtr) || old(cluSrchPtr) < 2 == cluSrchPtr
      ensures var h := StartHint(old(inUse), n, old(cluSrchPtr), chain.dir);
              st == Ok ==> taken != [] && cluSrchPtr == HintAfter(n, h, Front(taken))
      ensures st == Ok && res.flags == NoFatChain && chain.dir != EOF_CLUSTER ==> res.dir == chain.dir
      ensures st != Ok ==> usedClusters == old(usedClusters) && leaked == old(leaked) + Elements(taken)
    {
      taken, res, st := [], chain, ENOSPC;
      var totalCnt, hintClu := n - FIRST_CLUSTER, EOF_CLUSTER;
      if totalCnt < usedClusters {
        st := EIO;
      } else if numAlloc <= totalCnt - usedClusters {
        hintClu := StartSearch(chain.dir);
      }
      if hintClu != EOF_CLUSTER {
        var flags := if chain.dir == EOF_CLUSTER || IsValidCluster(n, chain.dir) then chain.flags else FatChain;
        st, res, taken := AllocFrom(hintClu, flags, numAlloc);
      }
    }

    /** exfat_alloc_cluster. A request that cannot be completed leaves the clusters
        it took marked: the chain it hands back to be freed still has size 0. */
    method AllocCluster(numAlloc: nat, chain: Chain) returns (st: Status, res: Chain, ghost taken: seq<nat>)
      requires Valid() && numAlloc > 0 && chain.size == 0
      modifies this
      ensures Valid()
      ensures var h := StartHint(old(inUse), n, old(cluSrchPtr), chain.dir);
              taken == if old(usedClusters) + numAlloc <= n - FIRST_CLUSTER && h != EOF_CLUSTER
                       then Plan(old(inUse), n, h, numAlloc) else []
      ensures st == if n - FIRST_CLUSTER < old(usedClusters) then EIO else if |taken| == numAlloc then Ok else ENOSPC
      ensures Took(n, old(inUse), inUse, taken) && SameOutside(fat, old(fat), Elements(taken))
      ensures st == Ok ==> usedClusters == old(usedClusters) + numAlloc && leaked == old(leaked)
      ensures st == Ok ==> res.size == numAlloc && Encodes(fat, res.dir, res.flags, taken)
      ensures var h := StartHint(old(inUse), n, old(cluSrchPtr), chain.dir);
              st == Ok ==> (res.flags == NoFatChain <==>
                              && chain.flags == NoFatChain && IsRun(h, taken)
                              && (chain.dir == EOF_CLUSTER || IsValidCluster(n, chain.dir)))
      ensures st == Ok && res.flags == NoFatChain ==> fat == old(fat)
      ensures served == old(served) + [Request(old(State()), chain.dir, numAlloc, st == Ok, taken)]
      ensures st != Ok ==> cluSrchPtr == old(cluSrchPtr) || old(cluSrchPtr) < 2 == cluSrchPtr
      ensures var h := StartHint(old(inUse), n, old(cluSrchPtr), chain.dir);
              st == Ok ==> taken != [] && cluSrchPtr == HintAfter(n, h, Front(taken))
      ensures st == Ok && res.flags == NoFatChain && chain.dir != EOF_CLUSTER ==> res.dir == chain.dir
      ensures st != Ok ==> usedClusters == old(usedClusters) && leaked == old(leaked) + Elements(taken)
    {
      ghost var m, amap0 := State(), amap;
      st, res, taken := AllocRequest(numAlloc, chain);
      StartValid(m.inUse, n, m.ptr, chain.dir);
      GrantsIff(m, bs, amap0, chain.dir, numAlloc, taken);
      Log(Request(m, chain.dir, numAlloc, st == Ok, taken));
    }

    /** A request is recorded. */
    ghost method Log(r: Request)
      requires Valid() && Answered(r)
      modifies this`served
      ensures Valid() && served == old(served) + [r]
    {
      served := served + [r];
    }

    /** The walk of exfat_find_last_cluster. */
    method WalkToLast(dir: nat, ghost cs: seq<nat>) returns (st: Status, count: nat, last: nat)
      requires Valid() && cs != [] && dir == cs[0] && (IsChain(fat, cs) || Breaks(fat, cs))
      ensures st == if Breaks(fat, cs) then EIO else Ok
      ensures st == Ok ==> count == |cs| && last == Last(cs)
    {
      var next := dir;
      var more := true;
      count, last := 0, dir;
      while more
        invariant count <= |cs| && (more ==> count < |cs| && next == cs[count])
        invariant !more ==> count == |cs| && last == Last(cs) && !Breaks(fat, cs)
        decreases |cs| - count, more
      {
        WalkNext(fat, cs, count);
        count, last := count + 1, next;
        var e := EntGet(fat, last);
        if e.status != Ok {
          return EIO, count, last;
        }
        next := e.content;
        more := next != EOF_CLUSTER;
      }
      return Ok, count, last;
    }

    /** exfat_find_last_cluster */
    method FindLastCluster(chain: Chain, ghost cs: seq<nat>) returns (st: Status, last: nat)
      requires Valid() && cs != []
      requires chain.flags == NoFatChain ==> Encodes(fat, chain.dir, NoFatChain, cs) && chain.size == |cs|
      requires chain.flags == FatChain ==> chain.dir == cs[0] && (IsChain(fat, cs) || Breaks(fat, cs))
      ensures st == if chain.flags == FatChain && (Breaks(fat, cs) || chain.size != |cs|) then EIO else Ok
      ensures st == Ok ==> last == Last(cs)
    {
      if chain.flags == NoFatChain {
        RunIndex(chain.dir, cs);
        return Ok, chain.dir + chain.size - 1;
      }
      var count;
      st, count, last := WalkToLast(chain.dir, cs);
      if st == Ok && chain.size != count {
        st := EIO;
      }
    }

    /** The loop of exfat_count_num_clusters. */
    method CountChain(dir: nat, ghost cs: seq<nat>) returns (st: Status, count: nat)
      requires Valid() && cs != [] && dir == cs[0] && (IsChain(fat, cs) || Breaks(fat, cs))
      ensures st == if Breaks(fat, cs) && |cs| <= n - FIRST_CLUSTER then EIO else Ok
      ensures st == Ok ==> count == if Breaks(fat, cs) then n - FIRST_CLUSTER else |cs|
    {
      if !Breaks(fat, cs) { ChainFits(fat, cs); }
      var clu, i := dir, FIRST_CLUSTER;
      count := 0;
      while i < n
        invariant FIRST_CLUSTER <= i <= n && i == FIRST_CLUSTER + count && count < |cs| && clu == cs[count]
      {
        WalkNext(fat, cs, count);
        count := count + 1;
        var e := EntGet(fat, clu);
        if e.status != Ok {
          return EIO, count;
        }
        clu := e.content;
        if clu == EOF_CLUSTER {
          return Ok, count;
        }
        i := i + 1;
      }
      return Ok, count;
    }

    /** exfat_count_num_clusters */
    method CountNumClusters(chain: Chain, ghost cs: seq<nat>) returns (st: Status, count: nat)
      requires Valid()
      requires chain.flags == NoFatChain || cs == [] ==> Encodes(fat, chain.dir, chain.flags, cs)
      requires chain.flags == NoFatChain ==> chain.size == |cs|
      requires chain.flags == FatChain && cs != [] ==> chain.dir == cs[0] && (IsChain(fat, cs) || Breaks(fat, cs))
      ensures var broken := chain.dir != 0 && chain.dir != EOF_CLUSTER && chain.flags == FatChain && Breaks(fat, cs);
              && st == (if broken && |cs| <= n - FIRST_CLUSTER then EIO else Ok)
              && (!broken ==> count == if chain.dir == 0 || chain.dir == EOF_CLUSTER then 0 else |cs|)
    {
      if chain.dir == 0 || chain.dir == EOF_CLUSTER {
        return Ok, 0;
      }
      if chain.flags == NoFatChain {
        return Ok, chain.size;
      }
      st, count := CountChain(chain.dir, cs);
    }
  }

  lemma EncodedFreshChain(fat: Table, chain: Chain, cs: seq<nat>)
    requires |fat| <= BAD_CLUSTER && chain.size > 0 && IsValidCluster(|fat|, chain.dir)
    requires match chain.flags
             case NoFatChain => chain.dir + chain.size <= |fat| && |cs| == chain.size && IsRun(chain.dir, cs)
             case FatChain => IsChain(fat, cs) && cs[0] == chain.dir
    ensures Fresh(|fat|, {}, cs)
  {
    if chain.flags == NoFatChain { RunIndex(chain.dir, cs); }
    EncodedFresh(fat, chain.dir, chain.flags, cs);
  }

  /** A failing request: clusters 2 and 6 are free and two are asked for from 6 on.
      The request fails, and cluster 6 stays marked without being counted. */
  method LeakExample(vol: Volume) returns (st: Status)
    requires vol.Valid() && vol.n == 10 && vol.inUse == SixMarks() && vol.leaked == {}
    modifies vol
    ensures vol.Valid() && st == ENOSPC && vol.usedClusters == old(vol.usedClusters) == 6
    ensures vol.inUse == SixMarks() + {6} && vol.leaked == {6}
  {
    LeakPlan(vol.inUse, vol.usedClusters);
    var res;
    ghost var taken;
    st, res, taken := vol.AllocCluster(2, Chain(6, 0, NoFatChain));
  }
}

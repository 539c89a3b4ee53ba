/** Cluster numbers, the constants of the on-disk format
    (fs/exfat-linux/exfat_raw.h) and sequences of clusters. */
module ExfatTypes {
  const FREE_CLUSTER: nat := 0
  const FIRST_CLUSTER: nat := 2
  const BAD_CLUSTER: nat := 0xFFFF_FFF7
  const EOF_CLUSTER: nat := 0xFFFF_FFFF

  /** Errors a cluster operation may return. */
  datatype Status = Ok | EIO | ENOSPC

  /** Two encodings of a file's clusters: consecutive, or linked through the FAT. */
  datatype Alloc = NoFatChain | FatChain

  /** struct exfat_chain */
  datatype Chain = Chain(dir: nat, size: nat, flags: Alloc)

  predicate IsValidCluster(n: nat, clu: nat) {
    FIRST_CLUSTER <= clu < n
  }

  ghost function Last(cs: seq<nat>): (c: nat)
    requires cs != []
  {
    cs[|cs| - 1]
  }

  ghost function Front(cs: seq<nat>): (f: seq<nat>)
    requires cs != []
  {
    cs[..|cs| - 1]
  }

  /** The set of the elements of `cs`. */
  ghost function Elements(cs: seq<nat>): (s: set<nat>) {
    if cs == [] then {} else Elements(Front(cs)) + {Last(cs)}
  }

  lemma {:induction false} ElementsHas(cs: seq<nat>, c: nat)
    ensures c in Elements(cs) <==> c in cs
  {
    if cs != [] {
      ElementsHas(Front(cs), c);
      assert cs == Front(cs) + [Last(cs)];
    }
  }

  lemma ElementsAll(cs: seq<nat>)
    ensures forall c :: c in Elements(cs) <==> c in cs
    ensures forall i :: 0 <= i < |cs| ==> cs[i] in Elements(cs)
  {
    forall c: nat ensures c in Elements(cs) <==> c in cs { ElementsHas(cs, c); }
  }

  lemma ElementsSnoc(cs: seq<nat>, c: nat)
    ensures Elements(cs + [c]) == Elements(cs) + {c}
  {
    assert Front(cs + [c]) == cs;
  }

  /** One element more of a prefix. */
  lemma ElementsPrefix(cs: seq<nat>, k: nat)
    requires k < |cs|
    ensures Elements(cs[..k + 1]) == Elements(cs[..k]) + {cs[k]}
  {
    ElementsSnoc(cs[..k], cs[k]);
    assert cs[..k + 1] == cs[..k] + [cs[k]];
  }

  lemma ElementsConcat(a: seq<nat>, b: seq<nat>)
    ensures Elements(a + b) == Elements(a) + Elements(b)
  {
    ElementsAll(a);
    ElementsAll(b);
    ElementsAll(a + b);
  }

  /** `cs` is first, first+1, first+2, ... */
  ghost predicate IsRun(first: nat, cs: seq<nat>) {
    cs != [] ==> Last(cs) == first + |cs| - 1 && IsRun(first, Front(cs))
  }

  lemma {:induction false} RunIndex(first: nat, cs: seq<nat>)
    ensures IsRun(first, cs) <==> forall i :: 0 <= i < |cs| ==> cs[i] == first + i
  {
    if cs != [] {
      RunIndex(first, Front(cs));
      assert forall i :: 0 <= i < |cs| - 1 ==> cs[i] == Front(cs)[i];
    }
  }

  lemma RunSnoc(first: nat, cs: seq<nat>)
    requires IsRun(first, cs)
    ensures IsRun(first, cs + [first + |cs|])
  {
    assert Front(cs + [first + |cs|]) == cs;
  }

  lemma RunHas(first: nat, cs: seq<nat>, c: nat)
    requires IsRun(first, cs)
    ensures c in Elements(cs) <==> first <= c < first + |cs|
  {
    RunIndex(first, cs);
    ElementsHas(cs, c);
    if first <= c < first + |cs| { assert cs[c - first] == c; }
  }

  /** Distinct data clusters, none of them in `a`. */
  ghost predicate Fresh(n: nat, a: set<nat>, cs: seq<nat>) {
    cs != [] ==> IsValidCluster(n, Last(cs)) && Last(cs) !in a + Elements(Front(cs)) && Fresh(n, a, Front(cs))
  }

  lemma FreshSnoc(n: nat, a: set<nat>, cs: seq<nat>, c: nat)
    requires Fresh(n, a, cs) && IsValidCluster(n, c) && c !in a + Elements(cs)
    ensures Fresh(n, a, cs + [c])
  {
    assert Front(cs + [c]) == cs;
  }

  lemma {:induction false} FreshIndex(n: nat, a: set<nat>, cs: seq<nat>)
    requires Fresh(n, a, cs)
    ensures forall i :: 0 <= i < |cs| ==> IsValidCluster(n, cs[i]) && cs[i] !in a
    ensures forall i, j :: 0 <= i < j < |cs| ==> cs[i] != cs[j]
  {
    if cs != [] {
      FreshIndex(n, a, Front(cs));
      ElementsAll(Front(cs));
      assert forall i :: 0 <= i < |cs| - 1 ==> cs[i] == Front(cs)[i] && cs[i] in Elements(Front(cs));
    }
  }

  lemma {:induction false} IndexFresh(n: nat, a: set<nat>, cs: seq<nat>)
    requires forall i :: 0 <= i < |cs| ==> IsValidCluster(n, cs[i]) && cs[i] !in a
    requires forall i, j :: 0 <= i < j < |cs| ==> cs[i] != cs[j]
    ensures Fresh(n, a, cs)
  {
    if cs != [] {
      IndexFresh(n, a, Front(cs));
      ElementsHas(Front(cs), Last(cs));
    }
  }

  lemma {:induction false} FreshSize(n: nat, a: set<nat>, cs: seq<nat>)
    requires Fresh(n, a, cs)
    ensures |Elements(cs)| == |cs| && Elements(cs) !! a
  {
    if cs != [] { FreshSize(n, a, Front(cs)); }
  }

  /** The data clusters below `n`. */
  ghost function DataClusters(n: nat): (s: set<nat>) {
    if n <= FIRST_CLUSTER then {} else DataClusters(n - 1) + {n - 1}
  }

  lemma {:induction false} DataClustersSize(n: nat)
    requires n >= FIRST_CLUSTER
    ensures |DataClusters(n)| == n - FIRST_CLUSTER
    ensures forall c: nat :: c in DataClusters(n) <==> IsValidCluster(n, c)
  {
    if n > FIRST_CLUSTER { DataClustersSize(n - 1); }
  }

  lemma {:induction false} SubsetSize(s: set<nat>, t: set<nat>)
    requires s <= t
    ensures |s| <= |t|
  {
    assert t == s + (t - s);
  }

  lemma FreshFits(n: nat, a: set<nat>, cs: seq<nat>)
    requires Fresh(n, a, cs) && n >= FIRST_CLUSTER
    ensures |cs| <= n - FIRST_CLUSTER
  {
    FreshSize(n, a, cs);
    FreshIndex(n, a, cs);
    ElementsAll(cs);
    DataClustersSize(n);
    SubsetSize(Elements(cs), DataClusters(n));
  }
}

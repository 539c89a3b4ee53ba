/** The file allocation table of fs/exfat-linux/fatent.c as a table of raw
    32-bit contents, and the two ways a file's clusters are encoded. */
module Fat {
  import opened ExfatTypes

  type Table = seq<nat>

  /** What exfat_ent_get delivers: a status and the (remapped) content. */
  datatype Entry = Entry(status: Status, content: nat)

  /** exfat_ent_get: reserved contents read as end of chain; a free, bad or
      out-of-range content is an error. The table has one entry per cluster number. */
  function EntGet(fat: Table, loc: nat): (e: Entry) {
    var n := |fat|;
    if !IsValidCluster(n, loc) then Entry(EIO, 0)
    else
      var content := if fat[loc] > BAD_CLUSTER then EOF_CLUSTER else fat[loc];
      if content == FREE_CLUSTER || content == BAD_CLUSTER then Entry(EIO, content)
      else if content != EOF_CLUSTER && !IsValidCluster(n, content) then Entry(EIO, content)
      else Entry(Ok, content)
  }

  /** What is read without an error, and as what. */
  lemma EntGetIff(fat: Table, loc: nat)
    ensures EntGet(fat, loc).status == Ok <==>
              2 <= loc < |fat| && (fat[loc] > 0xFFFF_FFF7 || (2 <= fat[loc] < |fat| && fat[loc] != 0xFFFF_FFF7))
    ensures EntGet(fat, loc).status == Ok ==>
              EntGet(fat, loc).content == if fat[loc] > 0xFFFF_FFF7 then 0xFFFF_FFFF else fat[loc]
  {
  }

  /** `cs` is what a walk along the FAT from cs[0] visits before end of chain. */
  ghost predicate IsChain(fat: Table, cs: seq<nat>) {
    && cs != [] && IsValidCluster(|fat|, cs[0])
    && if |cs| == 1 then fat[cs[0]] > BAD_CLUSTER else fat[cs[0]] == cs[1] && IsChain(fat, cs[1..])
  }

  /** The links of a chain, by position. */
  lemma {:induction false} ChainIndex(fat: Table, cs: seq<nat>)
    ensures IsChain(fat, cs) <==>
              && cs != []
              && (forall i :: 0 <= i < |cs| ==> IsValidCluster(|fat|, cs[i]))
              && (forall i :: 0 <= i < |cs| - 1 ==> fat[cs[i]] == cs[i + 1])
              && fat[cs[|cs| - 1]] > BAD_CLUSTER
  {
    if |cs| > 1 {
      var t := cs[1..];
      ChainIndex(fat, t);
      if IsChain(fat, cs) {
        forall i | 0 <= i < |cs| ensures IsValidCluster(|fat|, cs[i]) { assert i > 0 ==> cs[i] == t[i - 1]; }
        forall i | 0 <= i < |cs| - 1 ensures fat[cs[i]] == cs[i + 1] {
          assert cs[i + 1] == t[i];
          assert i > 0 ==> cs[i] == t[i - 1] && fat[t[i - 1]] == t[i - 1 + 1];
        }
      } else if cs != [] && (forall i :: 0 <= i < |cs| ==> IsValidCluster(|fat|, cs[i]))
                && (forall i :: 0 <= i < |cs| - 1 ==> fat[cs[i]] == cs[i + 1]) {
        assert fat[cs[0]] == cs[0 + 1];
        assert forall i :: 0 <= i < |t| ==> t[i] == cs[i + 1];
        forall i | 0 <= i < |t| - 1 ensures fat[t[i]] == t[i + 1] { assert fat[cs[i + 1]] == cs[i + 1 + 1]; }
      }
    }
  }

  /** `cs` is the cluster sequence of a file that starts at `start`: empty, a run
      of consecutive clusters, or a FAT chain. */
  ghost predicate Encodes(fat: Table, start: nat, flags: Alloc, cs: seq<nat>) {
    if cs == [] then start == EOF_CLUSTER
    else
      && cs[0] == start
      && match flags
         case NoFatChain => IsValidCluster(|fat|, start) && start + |cs| <= |fat| && IsRun(start, cs)
         case FatChain => IsChain(fat, cs)
  }

  /** One step of a walk. */
  lemma ChainNext(fat: Table, cs: seq<nat>, i: nat)
    requires IsChain(fat, cs) && i < |cs| && |fat| <= BAD_CLUSTER
    ensures EntGet(fat, cs[i]) == Entry(Ok, if i + 1 < |cs| then cs[i + 1] else EOF_CLUSTER)
  {
    ChainIndex(fat, cs);
  }

  /** A walk over `cs` that stops at an entry that cannot be followed. */
  ghost predicate Breaks(fat: Table, cs: seq<nat>) {
    && cs != []
    && if |cs| == 1 then EntGet(fat, cs[0]).status != Ok
       else EntGet(fat, cs[0]) == Entry(Ok, cs[1]) && cs[1] != EOF_CLUSTER && Breaks(fat, cs[1..])
  }

  lemma {:induction false} BreaksAt(fat: Table, cs: seq<nat>, i: nat)
    requires Breaks(fat, cs) && i < |cs|
    ensures if i + 1 == |cs| then EntGet(fat, cs[i]).status != Ok
            else EntGet(fat, cs[i]) == Entry(Ok, cs[i + 1]) && cs[i + 1] != EOF_CLUSTER
    decreases |cs|
  {
    if i > 0 { BreaksAt(fat, cs[1..], i - 1); }
  }

  /** One step of a walk that ends or breaks. */
  lemma WalkNext(fat: Table, cs: seq<nat>, i: nat)
    requires (IsChain(fat, cs) || Breaks(fat, cs)) && i < |cs| && |fat| <= BAD_CLUSTER
    ensures i + 1 < |cs| ==> EntGet(fat, cs[i]) == Entry(Ok, cs[i + 1]) && cs[i + 1] != EOF_CLUSTER
    ensures i + 1 == |cs| && Breaks(fat, cs) ==> EntGet(fat, cs[i]).status != Ok
    ensures i + 1 == |cs| && !Breaks(fat, cs) ==> EntGet(fat, cs[i]) == Entry(Ok, EOF_CLUSTER)
  {
    if Breaks(fat, cs) {
      BreaksAt(fat, cs, i);
    } else {
      ChainNext(fat, cs, i);
      ChainIndex(fat, cs);
    }
  }

  /** A walk that ends never visits a cluster twice. */
  lemma {:induction false} ChainNoRepeat(fat: Table, cs: seq<nat>, i: nat, j: nat)
    requires IsChain(fat, cs) && i < j < |cs| && |fat| <= BAD_CLUSTER
    ensures cs[i] != cs[j]
    decreases |cs| - j
  {
    ChainNext(fat, cs, i);
    ChainNext(fat, cs, j);
    ChainIndex(fat, cs);
    if j + 1 < |cs| { ChainNoRepeat(fat, cs, i + 1, j + 1); }
  }

  /** Every cluster of a file is a data cluster and none occurs twice. */
  lemma EncodedFresh(fat: Table, start: nat, flags: Alloc, cs: seq<nat>)
    requires Encodes(fat, start, flags, cs) && |fat| <= BAD_CLUSTER
    ensures Fresh(|fat|, {}, cs)
  {
    if cs != [] {
      if flags == FatChain {
        ChainIndex(fat, cs);
        forall i, j | 0 <= i < j < |cs| ensures cs[i] != cs[j] { ChainNoRepeat(fat, cs, i, j); }
      } else {
        RunIndex(start, cs);
      }
      IndexFresh(|fat|, {}, cs);
    }
  }

  /** The cluster sequence is a function of what is stored: the FAT, the first
      cluster, the flag and, for a run, the size. */
  lemma EncodesUnique(fat: Table, start: nat, flags: Alloc, a: seq<nat>, b: seq<nat>)
    requires Encodes(fat, start, flags, a) && Encodes(fat, start, flags, b)
    requires |fat| <= BAD_CLUSTER
    requires flags == NoFatChain ==> |a| == |b|
    ensures a == b
  {
    if a != [] && b != [] {
      if flags == FatChain {
        ChainUnique(fat, a, b);
      } else {
        RunIndex(start, a);
        RunIndex(start, b);
      }
    }
  }

  lemma {:induction false} ChainUnique(fat: Table, a: seq<nat>, b: seq<nat>)
    requires IsChain(fat, a) && IsChain(fat, b) && a[0] == b[0] && |fat| <= BAD_CLUSTER
    ensures a == b
  {
    if |a| > 1 && |b| > 1 {
      ChainUnique(fat, a[1..], b[1..]);
      assert a == [a[0]] + a[1..] && b == [b[0]] + b[1..];
    } else {
      ChainNext(fat, a, 0);
      ChainNext(fat, b, 0);
      ChainIndex(fat, a);
      ChainIndex(fat, b);
    }
  }

  /** `fat` and `fat0` differ at most at the clusters in `s`. */
  ghost predicate SameOutside(fat: Table, fat0: Table, s: set<nat>) {
    |fat| == |fat0| && forall c: nat :: c < |fat| && c !in s ==> fat[c] == fat0[c]
  }

  lemma SameOutsideTrans(fat: Table, fat1: Table, fat0: Table, s1: set<nat>, s0: set<nat>, s: set<nat>)
    requires SameOutside(fat, fat1, s1) && SameOutside(fat1, fat0, s0) && s1 <= s && s0 <= s
    ensures SameOutside(fat, fat0, s)
  {
  }

  /** A file only depends on the FAT entries of its own clusters. */
  lemma EncodesFrame(fat: Table, fat': Table, start: nat, flags: Alloc, cs: seq<nat>, s: set<nat>)
    requires Encodes(fat, start, flags, cs) && SameOutside(fat', fat, s) && s !! Elements(cs)
    ensures Encodes(fat', start, flags, cs)
  {
    if cs != [] && flags == FatChain {
      ChainIndex(fat, cs);
      ChainIndex(fat', cs);
      ElementsAll(cs);
    }
  }

  /** The last cluster's entry points at the first of another chain: append. */
  lemma ChainAppend(fat: Table, fat': Table, a: seq<nat>, b: seq<nat>)
    requires IsChain(fat, a) && IsChain(fat, b) && |fat| <= BAD_CLUSTER
    requires Elements(a) !! Elements(b)
    requires Last(a) < |fat| && fat' == fat[Last(a) := b[0]]
    ensures IsChain(fat', a + b)
  {
    ElementsAll(a);
    EncodesFrame(fat, fat', b[0], FatChain, b, {Last(a)});
    ChainBefore(fat, fat', a, b);
  }

  lemma {:induction false} ChainBefore(fat: Table, fat': Table, a: seq<nat>, b: seq<nat>)
    requires IsChain(fat, a) && IsChain(fat', b) && |fat| <= BAD_CLUSTER
    requires Last(a) < |fat| && fat' == fat[Last(a) := b[0]]
    ensures IsChain(fat', a + b)
    decreases |a|
  {
    if |a| == 1 {
      assert (a + b)[1..] == b;
    } else {
      ChainNoRepeat(fat, a, 0, |a| - 1);
      ChainBefore(fat, fat', a[1..], b);
      assert (a + b)[1..] == a[1..] + b;
    }
  }

  /** Cutting a chain after its first `k` clusters leaves both parts walkable. */
  lemma ChainCut(fat: Table, fat': Table, cs: seq<nat>, k: nat)
    requires IsChain(fat, cs) && 0 < k < |cs| && |fat| <= BAD_CLUSTER
    requires cs[k - 1] < |fat| && fat' == fat[cs[k - 1] := EOF_CLUSTER]
    ensures IsChain(fat', cs[..k]) && IsChain(fat', cs[k..])
  {
    ChainIndex(fat, cs);
    ChainIndex(fat', cs[..k]);
    ChainIndex(fat', cs[k..]);
    forall i | 0 <= i < |cs| && i != k - 1
      ensures cs[i] != cs[k - 1]
    {
      if i < k - 1 { ChainNoRepeat(fat, cs, i, k - 1); } else { ChainNoRepeat(fat, cs, k - 1, i); }
    }
  }

  /** Entries c -> c+1 over a run, ended by EOF, chain the run. */
  lemma RunLinked(fat: Table, first: nat, cs: seq<nat>)
    requires cs != [] && IsRun(first, cs) && IsValidCluster(|fat|, first) && first + |cs| <= |fat|
    requires forall c :: first <= c < first + |cs| - 1 ==> fat[c] == c + 1
    requires fat[first + |cs| - 1] > BAD_CLUSTER
    ensures IsChain(fat, cs)
  {
    RunIndex(first, cs);
    ChainIndex(fat, cs);
  }

  /** A chain has at most as many clusters as there are data clusters. */
  lemma ChainFits(fat: Table, cs: seq<nat>)
    requires IsChain(fat, cs) && |fat| <= BAD_CLUSTER
    ensures FIRST_CLUSTER + |cs| <= |fat|
  {
    EncodedFresh(fat, cs[0], FatChain, cs);
    FreshFits(|fat|, {}, cs);
  }

  lemma ValidNotEof(fat: Table, cs: seq<nat>, i: nat)
    requires IsChain(fat, cs) && |fat| <= BAD_CLUSTER
    ensures i < |cs| ==> IsValidCluster(|fat|, cs[i])
  {
    ChainIndex(fat, cs);
  }
}

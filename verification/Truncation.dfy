/** Shrinking and deleting files: fs/exfat-linux/file.c, inode.c. */
module Truncation {
  import opened Arith
  import opened ExfatTypes
  import opened Fat
  import opened FileSystem
  import opened Inodes
  import opened Mapping
  import opened Volumes

  /** The two parts of a file's clusters. */
  lemma SplitElements(n: nat, cs: seq<nat>, k: nat)
    requires Fresh(n, {}, cs) && k <= |cs|
    ensures Elements(cs) == Elements(cs[..k]) + Elements(cs[k..])
    ensures Elements(cs[..k]) !! Elements(cs[k..])
  {
    ElementsConcat(cs[..k], cs[k..]);
    assert cs[..k] + cs[k..] == cs;
    FreshIndex(n, {}, cs);
    ElementsAll(cs[..k]);
    ElementsAll(cs[k..]);
  }

  lemma {:induction false} RunSplit(first: nat, cs: seq<nat>, k: nat)
    requires IsRun(first, cs) && k <= |cs|
    ensures IsRun(first, cs[..k]) && IsRun(first + k, cs[k..])
  {
    RunIndex(first, cs);
    RunIndex(first, cs[..k]);
    RunIndex(first + k, cs[k..]);
  }

  /** What is left to free of a file cut after `k` clusters. */
  ghost predicate Tail(fat: Table, rest: Chain, cs: seq<nat>) {
    && rest.size == |cs|
    && (cs != [] ==>
         && IsValidCluster(|fat|, rest.dir)
         && match rest.flags
            case NoFatChain => rest.dir + rest.size <= |fat| && IsRun(rest.dir, cs)
            case FatChain => IsChain(fat, cs) && cs[0] == rest.dir)
  }

  /** Follow the chain over the clusters kept and end it there. */
  method CutChain(vol: Volume, start: nat, keep: nat, phys: nat, ghost cs: seq<nat>) returns (rest: Chain)
    requires 0 < keep <= phys == |cs| && IsChain(vol.fat, cs) && cs[0] == start && |vol.fat| <= BAD_CLUSTER
    modifies vol`fat
    ensures Encodes(vol.fat, start, FatChain, cs[..keep])
    ensures rest.flags == FatChain && Tail(vol.fat, rest, cs[keep..])
    ensures SameOutside(vol.fat, old(vol.fat), Elements(cs))
  {
    ChainIndex(vol.fat, cs);
    var num, dir, last := keep, start, FREE_CLUSTER;
    while num > 0
      invariant 0 <= num <= keep && vol.fat == old(vol.fat)
      invariant dir == if keep - num < |cs| then cs[keep - num] else EOF_CLUSTER
      invariant num < keep ==> last == cs[keep - num - 1]
    {
      ChainNext(vol.fat, cs, keep - num);
      last := dir;
      dir := EntGet(vol.fat, dir).content;
      num := num - 1;
    }
    rest := Chain(dir, phys - keep, FatChain);
    if keep < phys {
      ChainCut(vol.fat, vol.fat[last := EOF_CLUSTER], cs, keep);
    } else {
      ChainEndAgain(vol.fat, cs);
      assert cs[..keep] == cs;
    }
    ElementsHas(cs, last);
    vol.EntSet(last, EOF_CLUSTER);
  }

  /** Writing the end marker where the chain ends already. */
  lemma ChainEndAgain(fat: Table, cs: seq<nat>)
    requires IsChain(fat, cs) && |fat| <= BAD_CLUSTER
    ensures Last(cs) < |fat| && IsChain(fat[Last(cs) := EOF_CLUSTER], cs)
  {
    ChainIndex(fat, cs);
    forall i | 0 <= i < |cs| - 1 ensures cs[i] != Last(cs) { ChainNoRepeat(fat, cs, i, |cs| - 1); }
    ChainIndex(fat[Last(cs) := EOF_CLUSTER], cs);
  }

  /** The part of __exfat_truncate that splits the file: what stays and what goes. */
  method Cut(vol: Volume, start: nat, flags: Alloc, keep: nat, phys: nat, ghost cs: seq<nat>)
    returns (start': nat, flags': Alloc, rest: Chain)
    requires keep <= phys == |cs| && Encodes(vol.fat, start, flags, cs) && |vol.fat| <= BAD_CLUSTER
    modifies vol`fat
    ensures Encodes(vol.fat, start', flags', cs[..keep])
    ensures Tail(vol.fat, rest, cs[keep..])
    ensures SameOutside(vol.fat, old(vol.fat), Elements(cs))
  {
    start', flags' := start, flags;
    if keep == 0 {
      assert cs[0..] == cs;
      rest := Chain(start, phys, flags);
      flags', start' := NoFatChain, EOF_CLUSTER;
      if cs != [] { EncodedAt(vol.fat, start, flags, cs, 0); }
    } else if flags == NoFatChain {
      RunSplit(start, cs, keep);
      rest := Chain(start + keep, phys - keep, NoFatChain);
    } else {
      rest := CutChain(vol, start, keep, phys, cs);
    }
  }

  /** The volume's other files when the clusters of `cs` after the first `k` are freed. */
  lemma OthersShrink(fat: Table, fat': Table, a: set<nat>, l: set<nat>, cs: seq<nat>, k: nat, n: nat,
                     others: set<FileRec>)
    requires OthersOk(fat, a, l, cs, others) && SameOutside(fat', fat, Elements(cs)) && k <= |cs| && Fresh(n, {}, cs)
    ensures OthersOk(fat', a - Elements(cs[k..]), l, cs[..k], others)
  {
    SplitElements(n, cs, k);
    forall r | r in others
      ensures FileOk(fat', a - Elements(cs[k..]), l, r.start, r.flags, r.cs) && Elements(cs[..k]) !! Elements(r.cs)
    {
      OtherFileKept(fat, fat', a, a - Elements(cs[k..]), l, l, r.start, r.flags, r.cs, Elements(cs));
    }
  }

  /** The file itself: the clusters kept stay in use. */
  lemma KeptPart(a: set<nat>, l: set<nat>, cs: seq<nat>, k: nat, n: nat)
    requires Elements(cs) <= a - l && k <= |cs| && Fresh(n, {}, cs)
    ensures Elements(cs[..k]) <= a - Elements(cs[k..]) - l
    ensures Elements(cs[k..]) <= a - l
  {
    SplitElements(n, cs, k);
  }

  /** Detach all but the first `keep` clusters from the file, forgetting what was
      cached about it. */
  method Detach(vol: Volume, f: Inode, keep: nat, phys: nat) returns (rest: Chain)
    requires Encodes(vol.fat, f.startClu, f.flags, f.clusters) && |vol.fat| <= BAD_CLUSTER
    requires keep <= phys == |f.clusters| && f.nrCaches == |f.cache|
    modifies vol`fat, f`startClu, f`flags, f`clusters, f`cache, f`nrCaches, f`cacheValidId, f`hintOff, f`hintClu
    ensures f.clusters == old(f.clusters)[..keep] && Encodes(vol.fat, f.startClu, f.flags, f.clusters)
    ensures Tail(vol.fat, rest, old(f.clusters)[keep..])
    ensures SameOutside(vol.fat, old(vol.fat), Elements(old(f.clusters)))
    ensures f.cache == [] && f.nrCaches == 0 && f.hintOff == EOF_CLUSTER
  {
    f.startClu, f.flags, rest := Cut(vol, f.startClu, f.flags, keep, phys, f.clusters);
    f.clusters := f.clusters[..keep];
    f.CacheInval();
    f.hintOff, f.hintClu := EOF_CLUSTER, EOF_CLUSTER;
  }

  /** Free what was detached, if anything. */
  method FreeTail(vol: Volume, rest: Chain, ghost tail: seq<nat>)
    requires vol.Valid() && Tail(vol.fat, rest, tail) && Elements(tail) <= vol.inUse - vol.leaked
    modifies vol`amap, vol`inUse, vol`usedClusters
    ensures vol.Valid() && vol.inUse == old(vol.inUse) - Elements(tail)
    ensures vol.usedClusters == old(vol.usedClusters) - |tail|
  {
    var st := vol.FreeCluster(rest, tail);
  }

  /** Detaching keeps the rest of the volume in order. */
  method Separate(vol: Volume, f: Inode, keep: nat, phys: nat, ghost others: set<FileRec>) returns (rest: Chain)
    requires Consistent(vol, f, others) && keep <= phys == |f.clusters|
    modifies vol`fat, f`startClu, f`flags, f`clusters, f`cache, f`nrCaches, f`cacheValidId, f`hintOff, f`hintClu
    ensures vol.Valid() && f.clusters == old(f.clusters)[..keep]
    ensures var tail := old(f.clusters)[keep..];
            && Tail(vol.fat, rest, tail) && Elements(tail) <= vol.inUse - vol.leaked
            && FileOk(vol.fat, vol.inUse - Elements(tail), vol.leaked, f.startClu, f.flags, f.clusters)
            && OthersOk(vol.fat, vol.inUse - Elements(tail), vol.leaked, f.clusters, others)
    ensures f.cache == [] && f.nrCaches == 0 && f.hintOff == EOF_CLUSTER
  {
    ghost var cs := f.clusters;
    EncodedFresh(vol.fat, f.startClu, f.flags, cs);
    KeptPart(vol.inUse, vol.leaked, cs, keep, vol.n);
    rest := Detach(vol, f, keep, phys);
    OthersShrink(old(vol.fat), vol.fat, vol.inUse, vol.leaked, cs, keep, vol.n, others);
  }

  /** __exfat_truncate with `keep` of the file's `phys` clusters to stay. */
  method Shrink(vol: Volume, f: Inode, keep: nat, phys: nat, ghost others: set<FileRec>)
    requires Consistent(vol, f, others) && keep <= phys == |f.clusters|
    modifies vol, f`startClu, f`flags, f`clusters, f`cache, f`nrCaches, f`cacheValidId, f`hintOff, f`hintClu
    ensures Consistent(vol, f, others)
    ensures f.clusters == old(f.clusters)[..keep] && f.cache == [] && f.hintOff == EOF_CLUSTER
    ensures vol.inUse == old(vol.inUse) - Elements(old(f.clusters)[keep..])
    ensures vol.usedClusters == old(vol.usedClusters) - (phys - keep) && vol.leaked == old(vol.leaked)
    ensures vol.served == old(vol.served)
  {
    ghost var tail := f.clusters[keep..];
    var rest := Separate(vol, f, keep, phys, others);
    FreeTail(vol, rest, tail);
  }

  /** Round a size up to whole blocks: size |= blocksize - 1; size++. */
  function AlignUp(size: nat, bs: nat): (s: nat)
    requires bs > 0
    ensures size <= s
  {
    if size % bs == 0 then size else size - size % bs + bs
  }

  /** `s` is `size` rounded up to whole blocks: the first multiple that is not below. */
  ghost predicate AlignedTo(s: nat, size: nat, bs: nat) {
    bs > 0 && s % bs == 0 && size <= s < size + bs
  }

  lemma AlignUpIs(size: nat, bs: nat)
    requires bs > 0
    ensures AlignedTo(AlignUp(size, bs), size, bs)
  {
    var q, r := size / bs, size % bs;
    if r != 0 { ModZero(q + 1, bs); } else { ModZero(q, bs); }
  }

  lemma ModZero(q: nat, d: nat)
    requires d > 0
    ensures q * d % d == 0
  {
    DivUnique(q * d, q, 0, d);
  }

  /** Rounding up to blocks does not change how many clusters are needed. */
  lemma AlignedCeil(size: nat, bs: nat, spc: nat)
    requires bs > 0 && spc > 0
    ensures bs * spc > 0 && Ceil(AlignUp(size, bs), bs * spc) == Ceil(size, bs * spc)
  {
    var q, r := size / bs, size % bs;
    CeilInBlock(q, bs - 1, bs, spc);
    if r != 0 {
      CeilInBlock(q, r - 1, bs, spc);
      assert size == q * bs + (r - 1) + 1 && AlignUp(size, bs) == q * bs + (bs - 1) + 1;
    }
  }

  /** Setting the size of a file to a smaller one: truncate_setsize and
      exfat_truncate. */
  method Truncate(vol: Volume, f: Inode, newSize: nat, ghost others: set<FileRec>)
    requires Consistent(vol, f, others) && SizesOk(f.iSize, f.iSizeOndisk, vol.cluSize, |f.clusters|)
    requires vol.bs > 0 && vol.spc > 0 && vol.cluSize == vol.bs * vol.spc && newSize <= f.iSize
    modifies vol, f
    ensures Consistent(vol, f, others) && SizesOk(f.iSize, f.iSizeOndisk, vol.cluSize, |f.clusters|)
    ensures f.iSize == newSize && f.cache == []
    ensures Ceil(newSize, vol.cluSize) <= |old(f.clusters)|
    ensures f.clusters == old(f.clusters)[..Ceil(newSize, vol.cluSize)]
    ensures vol.inUse == old(vol.inUse) - Elements(old(f.clusters)[Ceil(newSize, vol.cluSize)..])
    ensures vol.usedClusters == old(vol.usedClusters) - (|old(f.clusters)| - |f.clusters|)
    ensures vol.leaked == old(vol.leaked) && vol.served == old(vol.served) && f.hintOff == EOF_CLUSTER
    ensures if newSize < old(f.iSizeOndisk) then AlignedTo(f.iSizeOndisk, newSize, vol.bs)
            else f.iSizeOndisk == old(f.iSizeOndisk)
  {
    f.iSize := newSize;
    RoundUpIsCeil(newSize, vol.cluSize);
    RoundUpIsCeil(f.iSizeOndisk, vol.cluSize);
    RoundUpMono(newSize, f.iSizeOndisk, vol.cluSize);
    AlignedCeil(newSize, vol.bs, vol.spc);
    var numNew, numPhys := CluRoundUp(f.iSize, vol.cluSize), CluRoundUp(f.iSizeOndisk, vol.cluSize);
    var keep := if newSize == 0 then 0 else if numNew < numPhys then numNew else numPhys;
    Shrink(vol, f, keep, numPhys, others);
    AlignUpIs(newSize, vol.bs);
    if f.iSizeOndisk > f.iSize {
      f.iSizeOndisk := AlignUp(f.iSize, vol.bs);
    }
  }

  /** exfat_evict_inode of an unlinked file: all its clusters are freed. */
  method Evict(vol: Volume, f: Inode, ghost others: set<FileRec>)
    requires Consistent(vol, f, others) && SizesOk(f.iSize, f.iSizeOndisk, vol.cluSize, |f.clusters|)
    modifies vol, f
    ensures vol.Valid() && f.clusters == [] && f.startClu == EOF_CLUSTER && f.cache == []
    ensures OthersOk(vol.fat, vol.inUse, vol.leaked, [], others)
    ensures vol.inUse == old(vol.inUse) - Elements(old(f.clusters))
    ensures vol.usedClusters == old(vol.usedClusters) - |old(f.clusters)|
    ensures vol.leaked == old(vol.leaked) && vol.served == old(vol.served)
  {
    f.iSize := 0;
    RoundUpIsCeil(f.iSizeOndisk, vol.cluSize);
    assert f.clusters[0..] == f.clusters;
    Shrink(vol, f, 0, CluRoundUp(f.iSizeOndisk, vol.cluSize), others);
    f.CacheInval();
  }
}

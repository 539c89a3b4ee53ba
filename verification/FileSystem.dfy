/** Files on a volume: what every operation on one of them keeps of all. */
module FileSystem {
  import opened Arith
  import opened ExfatTypes
  import opened ExtentCache
  import opened Fat
  import opened Inodes
  import opened Mapping
  import opened Volumes

  /** Where a file is stored. */
  datatype FileRec = FileRec(start: nat, flags: Alloc, cs: seq<nat>)

  /** Other files of the volume: stored, and apart from the clusters `mine`. */
  ghost predicate OthersOk(fat: Table, inUse: set<nat>, leaked: set<nat>, mine: seq<nat>, others: set<FileRec>) {
    forall r :: r in others ==>
      FileOk(fat, inUse, leaked, r.start, r.flags, r.cs) && Elements(mine) !! Elements(r.cs)
  }

  /** A file is stored on the volume, its cached state is right, and the volume's
      other files are stored apart from it. */
  ghost predicate Consistent(vol: Volume, f: Inode, others: set<FileRec>)
    reads vol, f`startClu, f`flags, f`clusters, f`cache, f`nrCaches, f`hintOff, f`hintClu
  {
    && vol.Valid()
    && FileOk(vol.fat, vol.inUse, vol.leaked, f.startClu, f.flags, f.clusters)
    && CacheOk(f.clusters, f.cache) && f.nrCaches == |f.cache|
    && HintOk(f.clusters, f.hintOff, f.hintClu)
    && OthersOk(vol.fat, vol.inUse, vol.leaked, f.clusters, others)
  }

  lemma OthersExtend(n: nat, fat: Table, fat': Table, a0: set<nat>, a: set<nat>, l0: set<nat>, l: set<nat>,
                     cs: seq<nat>, ext: seq<nat>, others: set<FileRec>)
    requires OthersOk(fat, a0, l0, cs, others)
    requires Took(n, a0, a, ext) && SameOutside(fat', fat, Elements(cs + ext)) && l <= l0 + Elements(ext)
    ensures OthersOk(fat', a, l, cs + ext, others) && OthersOk(fat', a, l, cs, others)
  {
    FreshSize(n, a0, ext);
    ElementsConcat(cs, ext);
    forall r | r in others
      ensures FileOk(fat', a, l, r.start, r.flags, r.cs) && Elements(cs + ext) !! Elements(r.cs)
    {
      OtherFileKept(fat, fat', a0, a, l0, l, r.start, r.flags, r.cs, Elements(cs + ext));
    }
  }

  /** The file that was extended. */
  lemma ExtendedFile(n: nat, a0: set<nat>, a: set<nat>, l0: set<nat>, l: set<nat>, cs: seq<nat>, ext: seq<nat>,
                     done: bool)
    requires Elements(cs) <= a0 - l0 && l0 <= a0 && Took(n, a0, a, ext)
    requires l == if done then l0 else l0 + Elements(ext)
    ensures Elements(if done then cs + ext else cs) <= a - l
  {
    FreshSize(n, a0, ext);
    ElementsConcat(cs, ext);
  }

  /** What mapping does to the marks: the clusters `ext` are taken, and lost if
      the mapping fails. */
  ghost predicate Effect(n: nat, st: Status, a0: set<nat>, a: set<nat>, l0: set<nat>, l: set<nat>, ext: seq<nat>) {
    Took(n, a0, a, ext) && l == if st == Ok then l0 else l0 + Elements(ext)
  }

  lemma NoEffect(n: nat, a: set<nat>, l: set<nat>)
    ensures Effect(n, Ok, a, a, l, l, [])
  {
  }

  /** exfat_map_cluster where allocation is allowed or not needed. */
  method MapAllocating(vol: Volume, f: Inode, off: nat, num: nat, ghost others: set<FileRec>)
    returns (st: Status, clu: nat, ghost ext: seq<nat>)
    requires Consistent(vol, f, others) && num == |f.clusters| && off < EOF_CLUSTER
    requires f.flags == NoFatChain && f.clusters != [] ==> off <= |f.clusters|
    modifies vol, f`startClu, f`flags, f`clusters, f`cache, f`nrCaches, f`hintOff, f`hintClu
    ensures Consistent(vol, f, others)
    ensures st == Ok <==> |ext| == if off < num then 0 else off - num + 1
    ensures off < num ==> st == Ok
    ensures st == Ok ==> off < |f.clusters| && clu == f.clusters[off]
    ensures vol.served == Asked(old(vol.State()), old(f.clusters), true, off, st == Ok, ext, old(vol.served))
    ensures f.clusters == if st == Ok then old(f.clusters) + ext else old(f.clusters)
    ensures Effect(vol.n, st, old(vol.inUse), vol.inUse, old(vol.leaked), vol.leaked, ext)
  {
    st, clu, ext := MapAt(vol, f, off, num);
    ExtendedFile(vol.n, old(vol.inUse), vol.inUse, old(vol.leaked), vol.leaked, old(f.clusters), ext, st == Ok);
    OthersExtend(vol.n, old(vol.fat), vol.fat, old(vol.inUse), vol.inUse, old(vol.leaked), vol.leaked,
                 old(f.clusters), ext, others);
  }

  /** How many pieces of `d` bytes hold `b` bytes. */
  ghost function Ceil(b: nat, d: nat): (k: nat)
    requires d > 0
  {
    if b == 0 then 0 else if b <= d then 1 else 1 + Ceil(b - d, d)
  }

  lemma {:induction false} RoundUpIsCeil(b: nat, d: nat)
    requires d > 0
    ensures CluRoundUp(b, d) == Ceil(b, d)
  {
    if b == 0 {
      DivUnique(-1, -1, d - 1, d);
    } else if b <= d {
      DivUnique(b - 1, 0, b - 1, d);
    } else {
      RoundUpIsCeil(b - d, d);
      var q, r := (b - d - 1) / d, (b - d - 1) % d;
      assert b - d - 1 == q * d + r;
      assert (q + 1) * d == q * d + d;
      DivUnique(b - 1, q + 1, r, d);
    }
  }

  /** The sizes of a file of `k` clusters. */
  ghost predicate SizesOk(iSize: nat, iSizeOndisk: nat, cluSize: nat, k: nat) {
    cluSize > 0 && Ceil(iSizeOndisk, cluSize) == k && iSize <= iSizeOndisk
  }

  lemma RoundUpMono(a: nat, b: nat, d: nat)
    requires d > 0 && a <= b
    ensures Ceil(a, d) <= Ceil(b, d)
  {
    RoundUpIsCeil(a, d);
    RoundUpIsCeil(b, d);
    DivMono(a as int - 1, b as int - 1, d);
  }

  /** The clusters that hold the blocks 0 .. iblock. */
  lemma BlocksInClusters(iblock: nat, bs: nat, spc: nat)
    requires bs > 0 && spc > 0
    ensures bs * spc > 0
    ensures Ceil((iblock + 1) * bs, bs * spc) == iblock / spc + 1
    ensures iblock * bs / (bs * spc) == iblock / spc
  {
    CeilInBlock(iblock, bs - 1, bs, spc);
    BlockPlace(iblock, 0, bs, spc);
    assert (iblock + 1) * bs == iblock * bs + (bs - 1) + 1;
  }

  /** A size that ends in block `iblock` needs the clusters up to that block's. */
  lemma CeilInBlock(iblock: nat, r: nat, bs: nat, spc: nat)
    requires r < bs && spc > 0
    ensures bs * spc > 0 && Ceil(iblock * bs + r + 1, bs * spc) == iblock / spc + 1
  {
    BlockPlace(iblock, r, bs, spc);
    RoundUpIsCeil(iblock * bs + r + 1, bs * spc);
  }

  lemma BlockPlace(iblock: nat, r: nat, bs: nat, spc: nat)
    requires r < bs && spc > 0
    ensures bs * spc > 0 && (iblock * bs + r) / (bs * spc) == iblock / spc
  {
    DivUnique(iblock * bs + r, iblock, r, bs);
    DivDiv(iblock * bs + r, bs, spc);
  }

  /** A block that starts below the size lies in the file's clusters. */
  lemma BlockInFile(iblock: nat, bs: nat, spc: nat, size: nat)
    requires bs > 0 && spc > 0 && bs * spc > 0 && iblock * bs < size
    ensures iblock / spc < Ceil(size, bs * spc)
  {
    BlocksInClusters(iblock, bs, spc);
    RoundUpIsCeil(size, bs * spc);
    DivMono(iblock * bs, size - 1, bs * spc);
  }

  /** EXFAT_B_TO_BLK_ROUND_UP(i_size): the first block past the size. */
  function LastBlock(size: nat, bs: nat): (b: nat)
    requires bs > 0
  {
    CluRoundUp(size, bs)
  }

  lemma BelowLastBlock(iblock: nat, size: nat, bs: nat)
    requires bs > 0
    ensures iblock < LastBlock(size, bs) <==> iblock * bs < size
  {
    var q := (size as int - 1) / bs;
    var r := (size as int - 1) % bs;
    assert size as int - 1 == q * bs + r;
    if iblock <= q {
      assert iblock * bs <= q * bs by { if iblock < q { MulGap(iblock, q, bs); } }
    } else {
      MulGap(q, iblock, bs);
    }
  }

  /** exfat_cluster_to_sector */
  function ClusterToSector(dataStart: nat, spc: nat, clu: nat): (s: nat)
    requires clu >= FIRST_CLUSTER
  {
    (clu - FIRST_CLUSTER) * spc + dataStart
  }

  /** A disk sector is sector r of cluster c: the inverse, exfat_sector_to_cluster, and
      the sectors of the data area in order. */
  ghost predicate SectorIn(dataStart: nat, spc: nat, n: nat, s: nat, c: nat, r: nat) {
    && spc > 0 && FIRST_CLUSTER <= n && dataStart <= s < dataStart + (n - FIRST_CLUSTER) * spc
    && (s - dataStart) / spc + 2 == c && (s - dataStart) % spc == r
  }

  /** Where sector r of cluster c is. */
  lemma SectorPlace(dataStart: nat, spc: nat, n: nat, c: nat, r: nat)
    requires 2 <= c < n && r < spc
    ensures c >= FIRST_CLUSTER && SectorIn(dataStart, spc, n, ClusterToSector(dataStart, spc, c) + r, c, r)
  {
    DivUnique((c - 2) * spc + r, c - 2, r, spc);
    MulGap(c - 2, n - 2, spc);
  }

  /** The disk sector of block `iblock` of a file of clusters `cs`. */
  function BlockSector(dataStart: nat, spc: nat, cs: seq<nat>, iblock: nat): (s: nat)
    requires spc > 0 && iblock / spc < |cs| && cs[iblock / spc] >= FIRST_CLUSTER
  {
    ClusterToSector(dataStart, spc, cs[iblock / spc]) + iblock % spc
  }

  /** No two blocks of a volume's files are in the same disk sector: sectors are
      equal only for the same cluster and the same block of it. */
  lemma SectorsApart(dataStart: nat, spc: nat, c1: nat, i1: nat, c2: nat, i2: nat)
    requires c1 >= FIRST_CLUSTER && c2 >= FIRST_CLUSTER && i1 < spc && i2 < spc
    requires ClusterToSector(dataStart, spc, c1) + i1 == ClusterToSector(dataStart, spc, c2) + i2
    ensures c1 == c2 && i1 == i2
  {
    DivUnique((c1 - FIRST_CLUSTER) * spc + i1, c1 - FIRST_CLUSTER, i1, spc);
    DivUnique((c2 - FIRST_CLUSTER) * spc + i2, c2 - FIRST_CLUSTER, i2, spc);
  }

  /** Blocks in the same disk sector are in the same cluster, at the same place. */
  lemma SameSector(dataStart: nat, spc: nat, a: seq<nat>, b: seq<nat>, i: nat, j: nat)
    requires spc > 0 && i / spc < |a| && j / spc < |b|
    requires a[i / spc] >= FIRST_CLUSTER && b[j / spc] >= FIRST_CLUSTER
    requires BlockSector(dataStart, spc, a, i) == BlockSector(dataStart, spc, b, j)
    ensures a[i / spc] == b[j / spc] && i % spc == j % spc
  {
    SectorsApart(dataStart, spc, a[i / spc], i % spc, b[j / spc], j % spc);
  }

  /** Different blocks of one file are in different sectors. */
  lemma BlocksApart(dataStart: nat, spc: nat, n: nat, cs: seq<nat>, i: nat, j: nat)
    requires spc > 0 && i / spc < |cs| && j / spc < |cs| && Fresh(n, {}, cs)
    requires cs[i / spc] >= FIRST_CLUSTER && cs[j / spc] >= FIRST_CLUSTER && i != j
    ensures BlockSector(dataStart, spc, cs, i) != BlockSector(dataStart, spc, cs, j)
  {
    if BlockSector(dataStart, spc, cs, i) == BlockSector(dataStart, spc, cs, j) {
      SameSector(dataStart, spc, cs, cs, i, j);
      FreshDiffer(n, cs, i / spc, j / spc);
      SameQuotient(i, j, spc);
    }
  }

  /** Blocks of two files that share no cluster are in different sectors. */
  lemma FilesApart(dataStart: nat, spc: nat, a: seq<nat>, b: seq<nat>, i: nat, j: nat)
    requires spc > 0 && i / spc < |a| && j / spc < |b| && Elements(a) !! Elements(b)
    requires a[i / spc] >= FIRST_CLUSTER && b[j / spc] >= FIRST_CLUSTER
    ensures BlockSector(dataStart, spc, a, i) != BlockSector(dataStart, spc, b, j)
  {
    var p, r, q, t := i / spc, i % spc, j / spc, j % spc;
    ClustersApart(a, b, p, q);
    OtherSector(dataStart, spc, a[p], r, b[q], t);
  }

  lemma OtherSector(dataStart: nat, spc: nat, c1: nat, i1: nat, c2: nat, i2: nat)
    requires c1 >= FIRST_CLUSTER && c2 >= FIRST_CLUSTER && i1 < spc && i2 < spc && c1 != c2
    ensures ClusterToSector(dataStart, spc, c1) + i1 != ClusterToSector(dataStart, spc, c2) + i2
  {
    if ClusterToSector(dataStart, spc, c1) + i1 == ClusterToSector(dataStart, spc, c2) + i2 {
      SectorsApart(dataStart, spc, c1, i1, c2, i2);
    }
  }

  lemma ClustersApart(a: seq<nat>, b: seq<nat>, p: nat, q: nat)
    requires p < |a| && q < |b| && Elements(a) !! Elements(b)
    ensures a[p] != b[q]
  {
    ElementsHas(a, a[p]);
    ElementsHas(b, b[q]);
  }

  lemma FreshDiffer(n: nat, cs: seq<nat>, p: nat, q: nat)
    requires Fresh(n, {}, cs) && p < |cs| && q < |cs| && cs[p] == cs[q]
    ensures p == q
  {
    FreshIndex(n, {}, cs);
  }

  lemma SameQuotient(i: nat, j: nat, d: nat)
    requires d > 0 && i / d == j / d && i % d == j % d
    ensures i == j
  {
  }

  /** The sizes after writing up to block `iblock` of a file that then has
      `k` clusters. */
  lemma SizesGrow(iSize: nat, ondisk: nat, bs: nat, spc: nat, k0: nat, k: nat, iblock: nat)
    requires bs > 0 && spc > 0 && SizesOk(iSize, ondisk, bs * spc, k0)
    requires k == if iblock / spc < k0 then k0 else iblock / spc + 1
    ensures var pos := (iblock + 1) * bs;
            SizesOk(iSize, if ondisk < pos then pos else ondisk, bs * spc, k)
  {
    var pos := (iblock + 1) * bs;
    BlocksInClusters(iblock, bs, spc);
    if ondisk < pos { RoundUpMono(ondisk, pos, bs * spc); } else { RoundUpMono(pos, ondisk, bs * spc); }
  }

  /** exfat_map_cluster on a file whose size is right. */
  method MapCluster(vol: Volume, f: Inode, off: nat, create: bool, ghost others: set<FileRec>)
    returns (st: Status, clu: nat, ghost ext: seq<nat>)
    requires Consistent(vol, f, others) && SizesOk(f.iSize, f.iSizeOndisk, vol.cluSize, |f.clusters|)
    requires off < EOF_CLUSTER
    requires create && f.flags == NoFatChain && f.clusters != [] ==> off <= |f.clusters|
    modifies vol, f`startClu, f`flags, f`clusters, f`cache, f`nrCaches, f`hintOff, f`hintClu
    ensures Consistent(vol, f, others)
    ensures st == Ok <==> |ext| == if create && off >= |old(f.clusters)| then off - |old(f.clusters)| + 1 else 0
    ensures !create || off < |old(f.clusters)| ==> st == Ok
    ensures vol.served == Asked(old(vol.State()), old(f.clusters), create, off, st == Ok, ext, old(vol.served))
    ensures st == Ok ==> clu == if off < |f.clusters| then f.clusters[off] else EOF_CLUSTER
    ensures f.clusters == if st == Ok then old(f.clusters) + ext else old(f.clusters)
    ensures Effect(vol.n, st, old(vol.inUse), vol.inUse, old(vol.leaked), vol.leaked, ext)
  {
    RoundUpIsCeil(f.iSizeOndisk, vol.cluSize);
    var num := if f.iSizeOndisk > 0 then CluRoundUp(f.iSizeOndisk, vol.cluSize) else 0;
    if create || off < num {
      st, clu, ext := MapAllocating(vol, f, off, num, others);
    } else {
      ext := [];
      st, clu := Ok, EOF_CLUSTER;
      NoEffect(vol.n, vol.inUse, vol.leaked);
      assert f.clusters + [] == f.clusters;
    }
  }

  /** The on-disk size after a block was mapped: it reaches the end of a block that is
      past the size. */
  ghost function OndiskAfter(size: nat, ondisk: nat, iblock: nat, bs: nat, mapped: bool): (ondisk': nat) {
    if mapped && size <= iblock * bs && ondisk < (iblock + 1) * bs then (iblock + 1) * bs else ondisk
  }

  method RaiseOndisk(f: Inode, pos: nat)
    modifies f`iSizeOndisk
    ensures f.iSizeOndisk == if old(f.iSizeOndisk) < pos then pos else old(f.iSizeOndisk)
  {
    if f.iSizeOndisk < pos {
      f.iSizeOndisk := pos;
    }
  }

  /** Map the cluster at `off` and, when the block is past the size, let the
      on-disk size reach `pos`. */
  method MapGrow(vol: Volume, f: Inode, off: nat, pos: nat, create: bool, grow: bool, ghost others: set<FileRec>)
    returns (st: Status, clu: nat, ghost ext: seq<nat>)
    requires Consistent(vol, f, others) && SizesOk(f.iSize, f.iSizeOndisk, vol.cluSize, |f.clusters|)
    requires off < EOF_CLUSTER && (!grow ==> off < |f.clusters|) && (grow ==> create)
    requires grow ==> SizesOk(f.iSize, if f.iSizeOndisk < pos then pos else f.iSizeOndisk, vol.cluSize,
                              if off < |f.clusters| then |f.clusters| else off + 1)
    requires create && f.flags == NoFatChain && f.clusters != [] ==> off <= |f.clusters|
    modifies vol, f
    ensures Consistent(vol, f, others) && SizesOk(f.iSize, f.iSizeOndisk, vol.cluSize, |f.clusters|)
    ensures f.iSize == old(f.iSize)
    ensures f.clusters == if st == Ok then old(f.clusters) + ext else old(f.clusters)
    ensures off < |old(f.clusters)| ==> st == Ok && ext == []
    ensures create && off >= |old(f.clusters)| && st == Ok ==> |ext| == off - |old(f.clusters)| + 1
    ensures vol.served == Asked(old(vol.State()), old(f.clusters), create, off, st == Ok, ext, old(vol.served))
    ensures f.iSizeOndisk == if st == Ok && grow && old(f.iSizeOndisk) < pos then pos else old(f.iSizeOndisk)
    ensures st == Ok ==> off < |f.clusters| && clu == f.clusters[off] && FIRST_CLUSTER <= clu < vol.n
    ensures Effect(vol.n, st, old(vol.inUse), vol.inUse, old(vol.leaked), vol.leaked, ext)
  {
    st, clu, ext := MapCluster(vol, f, off, create, others);
    EncodedAt(vol.fat, f.startClu, f.flags, f.clusters, off);
    if st == Ok && grow { RaiseOndisk(f, pos); }
  }

  /** The sizes and a block: whether it is past the size, and the sizes when it is
      mapped. */
  lemma BlockSizes(size: nat, ondisk: nat, bs: nat, spc: nat, cluSize: nat, k: nat, iblock: nat, off: nat, pos: nat,
                   grow: bool)
    requires bs > 0 && spc > 0 && cluSize == bs * spc && SizesOk(size, ondisk, cluSize, k)
    requires off == iblock / spc && pos == (iblock + 1) * bs && grow == (iblock >= LastBlock(size, bs))
    ensures grow <==> size <= iblock * bs
    ensures !grow ==> off < k
    ensures SizesOk(size, if ondisk < pos then pos else ondisk, cluSize, if off < k then k else off + 1)
    ensures forall mapped :: OndiskAfter(size, ondisk, iblock, bs, mapped)
                          == if mapped && grow && ondisk < pos then pos else ondisk
  {
    BelowLastBlock(iblock, size, bs);
    if !grow { BlockInFile(iblock, bs, spc, ondisk); }
    SizesGrow(size, ondisk, bs, spc, k, if off < k then k else off + 1, iblock);
  }

  method SectorFor(dataStart: nat, spc: nat, n: nat, clu: nat, iblock: nat, ghost cs: seq<nat>) returns (phys: nat)
    requires spc > 0 && 2 <= clu < n && iblock / spc < |cs| && clu == cs[iblock / spc]
    ensures phys == BlockSector(dataStart, spc, cs, iblock)
    ensures SectorIn(dataStart, spc, n, phys, cs[iblock / spc], iblock % spc)
  {
    phys := ClusterToSector(dataStart, spc, clu) + iblock % spc;
    SectorPlace(dataStart, spc, n, clu, iblock % spc);
  }

  /** exfat_get_block: the disk sector of a block of the file. */
  method GetBlock(vol: Volume, f: Inode, iblock: nat, create: bool, ghost others: set<FileRec>)
    returns (st: Status, mapped: bool, phys: nat, ghost ext: seq<nat>)
    requires Consistent(vol, f, others) && SizesOk(f.iSize, f.iSizeOndisk, vol.cluSize, |f.clusters|)
    requires vol.bs > 0 && vol.spc > 0 && vol.cluSize == vol.bs * vol.spc && 0 <= iblock / vol.spc < EOF_CLUSTER
    requires create && f.flags == NoFatChain && f.clusters != [] ==> iblock / vol.spc <= |f.clusters|
    modifies vol, f
    ensures Consistent(vol, f, others) && SizesOk(f.iSize, f.iSizeOndisk, vol.cluSize, |f.clusters|)
    ensures f.iSize == old(f.iSize)
    ensures f.clusters == if st == Ok then old(f.clusters) + ext else old(f.clusters)
    ensures !create || iblock / vol.spc < |old(f.clusters)| ==> st == Ok && ext == []
    ensures create && iblock / vol.spc >= |old(f.clusters)| && st == Ok ==>
              |ext| == iblock / vol.spc - |old(f.clusters)| + 1
    ensures mapped <==> st == Ok && (create || iblock * vol.bs < f.iSize)
    ensures vol.served == Asked(old(vol.State()), old(f.clusters), create, iblock / vol.spc, st == Ok, ext,
                                old(vol.served))
    ensures f.iSizeOndisk == OndiskAfter(old(f.iSize), old(f.iSizeOndisk), iblock, vol.bs, mapped)
    ensures mapped ==> iblock / vol.spc < |f.clusters| && f.clusters[iblock / vol.spc] >= FIRST_CLUSTER
                       && phys == BlockSector(vol.dataStart, vol.spc, f.clusters, iblock)
                       && SectorIn(vol.dataStart, vol.spc, vol.n, phys, f.clusters[iblock / vol.spc], iblock % vol.spc)
    ensures Effect(vol.n, st, old(vol.inUse), vol.inUse, old(vol.leaked), vol.leaked, ext)
  {
    st, mapped, phys, ext := Ok, false, 0, [];
    var past := iblock >= LastBlock(f.iSize, vol.bs);
    var off, pos := iblock / vol.spc, (iblock + 1) * vol.bs;
    BlockSizes(f.iSize, f.iSizeOndisk, vol.bs, vol.spc, vol.cluSize, |f.clusters|, iblock, off, pos, past);
    if !past || create {
      var clu;
      st, clu, ext := MapGrow(vol, f, off, pos, create, past, others);
      mapped := st == Ok;
      if mapped {
        phys := SectorFor(vol.dataStart, vol.spc, vol.n, clu, iblock, f.clusters);
      }
    } else {
      NoEffect(vol.n, vol.inUse, vol.leaked);
      assert f.clusters + [] == f.clusters;
    }
  }
}

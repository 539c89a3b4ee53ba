/** Where directory entries are: fs/exfat-linux/dir.c finds one entry by walking
    the directory's clusters, and a whole entry set by walking its sectors. */
module DirAddress {
  import opened Arith
  import opened ExfatTypes
  import opened Fat
  import opened FileSystem
  import opened Mapping

  const DENTRY_SIZE: nat := 32
  const DIR_CACHE_SIZE: nat := 17
  const MAX_SET: nat := 256

  /** The geometry of a volume and its FAT. */
  datatype Disk = Disk(fat: Table, dataStart: nat, bs: nat, spc: nat)

  ghost predicate DiskOk(d: Disk) {
    d.bs >= 512 && d.bs % DENTRY_SIZE == 0 && d.spc > 0 && |d.fat| <= BAD_CLUSTER
  }

  /** The directory's clusters are `cs`. */
  ghost predicate DirOk(d: Disk, dir: Chain, cs: seq<nat>) {
    |d.fat| <= BAD_CLUSTER && cs != [] && Encodes(d.fat, dir.dir, dir.flags, cs)
  }

  /** The directory has room for n entries. */
  ghost predicate Room(d: Disk, cs: seq<nat>, n: nat) {
    n * DENTRY_SIZE <= |cs| * (d.bs * d.spc)
  }

  /** Sector g of a directory. */
  ghost function SectorAt(d: Disk, cs: seq<nat>, g: nat): (s: nat)
    requires d.spc > 0
  {
    var i := Quot(g, d.spc);
    if i < |cs| && cs[i] >= FIRST_CLUSTER then ClusterToSector(d.dataStart, d.spc, cs[i]) + Rem(g, d.spc) else 0
  }

  /** Where entry number `entry` of a directory is: sector and offset. */
  ghost function Located(d: Disk, cs: seq<nat>, entry: nat): (place: (nat, nat))
    requires d.spc > 0 && d.bs > 0
  {
    (SectorAt(d, cs, Quot(entry * DENTRY_SIZE, d.bs)), Rem(entry * DENTRY_SIZE, d.bs))
  }

  /** Disk sector s is sector g of the directory: in which cluster and where in it. */
  ghost predicate IsSector(d: Disk, cs: seq<nat>, g: nat, s: nat) {
    && d.spc > 0 && Quot(g, d.spc) < |cs|
    && SectorIn(d.dataStart, d.spc, |d.fat|, s, cs[Quot(g, d.spc)], Rem(g, d.spc))
  }

  lemma SectorAtIs(d: Disk, dir: Chain, cs: seq<nat>, g: nat)
    requires DirOk(d, dir, cs) && d.spc > 0 && Quot(g, d.spc) < |cs|
    ensures IsSector(d, cs, g, SectorAt(d, cs, g))
  {
    EncodedAt(d.fat, dir.dir, dir.flags, cs, Quot(g, d.spc));
    SectorPlace(d.dataStart, d.spc, |d.fat|, cs[Quot(g, d.spc)], Rem(g, d.spc));
  }

  lemma InDir(x: nat, bs: nat, spc: nat, k: nat)
    requires bs > 0 && spc > 0 && x < k * (bs * spc)
    ensures Quot(Quot(x, bs), spc) < k
  {
    QuotQuot(x, bs, spc, bs * spc);
    QuotBelow(x, k, bs * spc);
  }

  /** exfat_walk_fat_chain, by cluster offset; false is the error EIO. */
  method WalkFatChain(d: Disk, dir: Chain, cluOffset: nat, ghost cs: seq<nat>) returns (ok: bool, clu: nat)
    requires DirOk(d, dir, cs)
    ensures cluOffset < |cs| ==> ok && clu == cs[cluOffset]
    ensures dir.flags == FatChain && cluOffset >= |cs| ==> !ok
  {
    ok, clu := true, dir.dir;
    if dir.flags == NoFatChain {
      clu := clu + cluOffset;
      RunIndex(dir.dir, cs);
    } else {
      var left := cluOffset;
      while left > 0 && ok
        invariant 0 <= left <= cluOffset
        invariant ok ==> cluOffset - left < |cs| && clu == cs[cluOffset - left]
        invariant !ok ==> cluOffset >= |cs|
      {
        ChainNext(d.fat, cs, cluOffset - left);
        ValidNotEof(d.fat, cs, cluOffset - left + 1);
        var e := EntGet(d.fat, clu);
        clu := e.content;
        ok := e.status == Ok && clu != EOF_CLUSTER;
        left := left - 1;
      }
    }
  }

  lemma PastEnd(x: nat, k: nat, size: nat)
    requires size > 0 && k * size <= x
    ensures Quot(x, size) >= k
  {
    QuotOf(k, 0, size);
    QuotMono(k * size, x, size);
  }

  /** The cluster, the sector and the offset in it of a byte of a directory; `ok` is
      false when the byte is past its end. */
  method Locate(d: Disk, dir: Chain, byteOffset: nat, ghost cs: seq<nat>)
    returns (ok: bool, clu: nat, sector: nat, offset: nat)
    requires DirOk(d, dir, cs) && d.bs > 0 && d.spc > 0
    requires dir.flags == NoFatChain ==> byteOffset < |cs| * (d.bs * d.spc)
    ensures ok <==> byteOffset < |cs| * (d.bs * d.spc)
    ensures var g := Quot(byteOffset, d.bs);
            ok ==> && Quot(g, d.spc) < |cs| && clu == cs[Quot(g, d.spc)]
                   && sector == SectorAt(d, cs, g) && offset == Rem(byteOffset, d.bs)
  {
    QuotQuot(byteOffset, d.bs, d.spc, d.bs * d.spc);
    if byteOffset < |cs| * (d.bs * d.spc) {
      InDir(byteOffset, d.bs, d.spc, |cs|);
      EncodedAt(d.fat, dir.dir, dir.flags, cs, Quot(Quot(byteOffset, d.bs), d.spc));
    } else {
      PastEnd(byteOffset, |cs|, d.bs * d.spc);
    }
    ok, clu := WalkFatChain(d, dir, Quot(byteOffset, d.bs * d.spc), cs);
    sector, offset := 0, 0;
    if ok {
      var off := Rem(byteOffset, d.bs * d.spc);
      offset := Rem(off, d.bs);
      sector := Quot(off, d.bs) + ClusterToSector(d.dataStart, d.spc, clu);
    }
  }

  /** exfat_find_location */
  method FindLocation(d: Disk, dir: Chain, entry: nat, ghost cs: seq<nat>)
    returns (ok: bool, sector: nat, offset: nat)
    requires DiskOk(d) && DirOk(d, dir, cs)
    requires dir.flags == NoFatChain ==> entry * DENTRY_SIZE < |cs| * (d.bs * d.spc)
    ensures ok <==> entry * DENTRY_SIZE < |cs| * (d.bs * d.spc)
    ensures ok ==> (sector, offset) == Located(d, cs, entry)
    ensures ok ==> IsSector(d, cs, Quot(entry * 32, d.bs), sector) && offset == Rem(entry * 32, d.bs)
  {
    var clu;
    ok, clu, sector, offset := Locate(d, dir, entry * DENTRY_SIZE, cs);
    if ok { SectorAtIs(d, dir, cs, Quot(entry * DENTRY_SIZE, d.bs)); }
  }

  /** exfat_is_last_sector_in_cluster */
  predicate IsLastSector(d: Disk, sec: nat)
    requires d.spc > 0 && sec >= d.dataStart
  {
    Rem(sec - d.dataStart + 1, d.spc) == 0
  }

  /** The last sector of a cluster is the one whose number in it is the last. */
  lemma LastInCluster(d: Disk, clu: nat, r: nat)
    requires r < d.spc && clu >= FIRST_CLUSTER
    ensures IsLastSector(d, ClusterToSector(d.dataStart, d.spc, clu) + r) <==> r == d.spc - 1
  {
    var k := clu - FIRST_CLUSTER;
    QuotOf(k, r, d.spc);
    QuotStep(k * d.spc + r, d.spc);
  }

  /** The next sector of the directory is in the next cluster exactly after the
      last of a cluster. */
  lemma NextSectorAt(d: Disk, cs: seq<nat>, g: nat)
    requires d.spc > 0 && Quot(g, d.spc) < |cs| && Quot(g + 1, d.spc) < |cs|
    requires cs[Quot(g, d.spc)] >= FIRST_CLUSTER && cs[Quot(g + 1, d.spc)] >= FIRST_CLUSTER
    ensures SectorAt(d, cs, g) >= d.dataStart
    ensures IsLastSector(d, SectorAt(d, cs, g)) ==>
              && Quot(g + 1, d.spc) == Quot(g, d.spc) + 1
              && SectorAt(d, cs, g + 1) == ClusterToSector(d.dataStart, d.spc, cs[Quot(g + 1, d.spc)])
    ensures !IsLastSector(d, SectorAt(d, cs, g)) ==>
              Quot(g + 1, d.spc) == Quot(g, d.spc) && SectorAt(d, cs, g + 1) == SectorAt(d, cs, g) + 1
  {
    QuotStep(g, d.spc);
    LastInCluster(d, cs[Quot(g, d.spc)], Rem(g, d.spc));
  }

  /** One more step along the directory's sectors. */
  method StepSector(d: Disk, dir: Chain, sec: nat, clu: nat, ghost cs: seq<nat>, ghost g: nat)
    returns (sec': nat, clu': nat)
    requires DirOk(d, dir, cs) && d.spc > 0
    requires Quot(g, d.spc) < |cs| && Quot(g + 1, d.spc) < |cs| && clu == cs[Quot(g, d.spc)]
             && sec == SectorAt(d, cs, g)
    ensures clu' == cs[Quot(g + 1, d.spc)] && sec' == SectorAt(d, cs, g + 1)
  {
    EncodedAt(d.fat, dir.dir, dir.flags, cs, Quot(g, d.spc));
    EncodedAt(d.fat, dir.dir, dir.flags, cs, Quot(g + 1, d.spc));
    NextSectorAt(d, cs, g);
    sec', clu' := sec + 1, clu;
    if IsLastSector(d, sec) {
      clu' := NextCluster(d, dir, clu, cs, Quot(g, d.spc));
      sec' := ClusterToSector(d.dataStart, d.spc, clu');
    }
  }

  method NextCluster(d: Disk, dir: Chain, clu: nat, ghost cs: seq<nat>, ghost i: nat) returns (clu': nat)
    requires DirOk(d, dir, cs) && i + 1 < |cs| && clu == cs[i]
    ensures clu' == cs[i + 1]
  {
    if dir.flags == NoFatChain {
      RunIndex(dir.dir, cs);
      clu' := clu + 1;
    } else {
      ChainNext(d.fat, cs, i);
      clu' := EntGet(d.fat, clu).content;
    }
  }

  /** The sectors g .. g+n-1 of a directory. */
  ghost function SectorsFrom(d: Disk, cs: seq<nat>, g: nat, n: nat): (s: seq<nat>)
    requires d.spc > 0
    decreases n
  {
    if n == 0 then [] else SectorsFrom(d, cs, g, n - 1) + [SectorAt(d, cs, g + n - 1)]
  }

  lemma {:induction false} SectorsIndex(d: Disk, cs: seq<nat>, g: nat, n: nat, k: nat)
    requires d.spc > 0 && k < n
    ensures |SectorsFrom(d, cs, g, n)| == n && SectorsFrom(d, cs, g, n)[k] == SectorAt(d, cs, g + k)
    decreases n
  {
    if n > 1 { SectorsIndex(d, cs, g, n - 1, if k < n - 1 then k else 0); }
  }

  /** EXFAT_B_TO_BLK_ROUND_UP of a number of bytes that is not zero. */
  function Blocks(len: nat, bs: nat): (n: nat)
    requires bs > 0 && len > 0
    ensures n > 0
  {
    Quot(len - 1, bs) + 1
  }

  /** The sectors of a set of entries are the directory's. */
  lemma SetSectors(start: nat, len: nat, bs: nat, spc: nat, clusters: nat, k: nat)
    requires bs > 0 && spc > 0 && len > 0 && start + len <= clusters * (bs * spc)
             && k < Blocks(Rem(start, bs) + len, bs)
    ensures Quot(Quot(start, bs) + k, spc) < clusters
  {
    QuotFrom(start, len - 1, bs);
    InDir(start + len - 1, bs, spc, clusters);
    QuotMono(Quot(start, bs) + k, Quot(start + len - 1, bs), spc);
  }

  /** No entry set needs more sectors than the cache has room for. */
  lemma SetFits(entry: nat, num: nat, bs: nat)
    requires bs >= 512 && bs % DENTRY_SIZE == 0 && 0 < num <= MAX_SET
    ensures Blocks(Rem(entry * DENTRY_SIZE, bs) + num * DENTRY_SIZE, bs) <= DIR_CACHE_SIZE
  {
    Aligned(entry, bs);
    QuotBelow(Rem(entry * DENTRY_SIZE, bs) + num * DENTRY_SIZE - 1, DIR_CACHE_SIZE, bs);
  }

  lemma {:induction false} Aligned(entry: nat, bs: nat)
    requires bs > 0 && bs % DENTRY_SIZE == 0
    ensures Rem(entry * DENTRY_SIZE, bs) + DENTRY_SIZE <= bs
    decreases entry
  {
    var h := bs / DENTRY_SIZE;
    if entry >= h { Aligned(entry - h, bs); }
  }

  /** The sectors g .. g+n-1 are collected, and the cursors are at the last of them. */
  ghost predicate Collected(d: Disk, cs: seq<nat>, g: nat, n: nat, bh: seq<nat>, sec: nat, clu: nat)
    requires d.spc > 0
  {
    && n > 0 && |bh| == n && bh == SectorsFrom(d, cs, g, n)
    && Quot(g + n - 1, d.spc) < |cs| && clu == cs[Quot(g + n - 1, d.spc)] && sec == SectorAt(d, cs, g + n - 1)
  }

  /** One turn of the loop of exfat_get_dentry_set. */
  method CollectNext(d: Disk, dir: Chain, bh: seq<nat>, sec: nat, clu: nat, ghost cs: seq<nat>, ghost g: nat)
    returns (bh': seq<nat>, sec': nat, clu': nat)
    requires DirOk(d, dir, cs) && d.spc > 0
    requires Collected(d, cs, g, |bh|, bh, sec, clu) && Quot(g + |bh|, d.spc) < |cs|
    ensures Collected(d, cs, g, |bh| + 1, bh', sec', clu')
  {
    ghost var last := g + |bh| - 1;
    sec', clu' := StepSector(d, dir, sec, clu, cs, last);
    bh' := bh + [sec'];
  }

  /** The loop of exfat_get_dentry_set: the sectors of the `len` bytes from byte
      `start` of the directory on, the first of which is known. */
  method CollectSectors(d: Disk, dir: Chain, first: nat, firstClu: nat, numBh: nat,
                        ghost cs: seq<nat>, ghost start: nat, ghost len: nat)
    returns (bh: seq<nat>)
    requires DiskOk(d) && DirOk(d, dir, cs) && len > 0 && start + len <= |cs| * (d.bs * d.spc)
    requires numBh == Blocks(Rem(start, d.bs) + len, d.bs)
    requires Collected(d, cs, Quot(start, d.bs), 1, [first], first, firstClu)
    ensures bh == SectorsFrom(d, cs, Quot(start, d.bs), numBh) && |bh| == numBh
  {
    ghost var g := Quot(start, d.bs);
    var sec, clu := first, firstClu;
    bh := [sec];
    for i := 1 to numBh
      invariant Collected(d, cs, g, i, bh, sec, clu)
    {
      SetSectors(start, len, d.bs, d.spc, |cs|, i);
      bh, sec, clu := CollectNext(d, dir, bh, sec, clu, cs, g);
    }
  }

  lemma FirstCollected(d: Disk, cs: seq<nat>, g: nat, sec: nat, clu: nat)
    requires d.spc > 0 && Quot(g, d.spc) < |cs| && clu == cs[Quot(g, d.spc)] && sec == SectorAt(d, cs, g)
    ensures Collected(d, cs, g, 1, [sec], sec, clu)
  {
    assert SectorsFrom(d, cs, g, 0) == [];
  }

  /** exfat_get_dentry_set: the sectors of the entries entry .. entry+num-1, all
      of which are in the directory. */
  method GetDentrySet(d: Disk, dir: Chain, entry: nat, num: nat, ghost cs: seq<nat>)
    returns (bh: seq<nat>, startOff: nat)
    requires DiskOk(d) && DirOk(d, dir, cs) && Room(d, cs, entry + num) && 0 < num <= MAX_SET
    ensures startOff == Rem(entry * DENTRY_SIZE, d.bs)
    ensures |bh| == Blocks(startOff + num * DENTRY_SIZE, d.bs) <= DIR_CACHE_SIZE
    ensures bh == SectorsFrom(d, cs, Quot(entry * DENTRY_SIZE, d.bs), |bh|)
    ensures AreSectors(d, cs, Quot(entry * 32, d.bs), bh)
  {
    SetFits(entry, num, d.bs);
    var ok, sec, clu;
    ok, clu, sec, startOff := Locate(d, dir, entry * DENTRY_SIZE, cs);
    var numBh := Blocks(startOff + num * DENTRY_SIZE, d.bs);
    FirstCollected(d, cs, Quot(entry * DENTRY_SIZE, d.bs), sec, clu);
    bh := CollectSectors(d, dir, sec, clu, numBh, cs, entry * DENTRY_SIZE, num * DENTRY_SIZE);
    SetSectors(entry * DENTRY_SIZE, num * DENTRY_SIZE, d.bs, d.spc, |cs|, |bh| - 1);
    SectorsAre(d, dir, cs, Quot(entry * DENTRY_SIZE, d.bs), |bh|);
  }

  /** The disk sectors are those of the directory from its sector g on. */
  ghost predicate AreSectors(d: Disk, cs: seq<nat>, g: nat, bh: seq<nat>) {
    bh == [] || (AreSectors(d, cs, g, bh[..|bh| - 1]) && IsSector(d, cs, g + |bh| - 1, bh[|bh| - 1]))
  }

  lemma {:induction false} SectorsAre(d: Disk, dir: Chain, cs: seq<nat>, g: nat, n: nat)
    requires DirOk(d, dir, cs) && d.spc > 0 && (n > 0 ==> Quot(g + n - 1, d.spc) < |cs|)
    ensures |SectorsFrom(d, cs, g, n)| == n && AreSectors(d, cs, g, SectorsFrom(d, cs, g, n))
    decreases n
  {
    if n > 0 {
      if n > 1 { QuotMono(g + n - 2, g + n - 1, d.spc); }
      SectorsAre(d, dir, cs, g, n - 1);
      SectorAtIs(d, dir, cs, g + n - 1);
      AreSnoc(d, cs, g, SectorsFrom(d, cs, g, n - 1), SectorAt(d, cs, g + n - 1));
    }
  }

  lemma AreSnoc(d: Disk, cs: seq<nat>, g: nat, bh: seq<nat>, s: nat)
    requires AreSectors(d, cs, g, bh) && IsSector(d, cs, g + |bh|, s)
    ensures AreSectors(d, cs, g, bh + [s])
  {
    assert (bh + [s])[..|bh|] == bh;
  }

  /** exfat_get_dentry_cached: the sector and the offset of entry i of a set. */
  function Cached(bh: seq<nat>, startOff: nat, i: nat, bs: nat): (place: (nat, nat))
    requires bs > 0
  {
    var off := startOff + i * DENTRY_SIZE;
    (if Quot(off, bs) < |bh| then bh[Quot(off, bs)] else 0, Rem(off, bs))
  }

  /** Entry i of a set is where exfat_find_location finds entry + i. */
  lemma CachedIsLocated(d: Disk, cs: seq<nat>, entry: nat, num: nat, bh: seq<nat>, startOff: nat, i: nat)
    requires DiskOk(d) && i < num && startOff == Rem(entry * DENTRY_SIZE, d.bs)
    requires |bh| == Blocks(startOff + num * DENTRY_SIZE, d.bs)
    requires bh == SectorsFrom(d, cs, Quot(entry * DENTRY_SIZE, d.bs), |bh|)
    ensures Cached(bh, startOff, i, d.bs) == Located(d, cs, entry + i)
  {
    var start, x := entry * DENTRY_SIZE, i * DENTRY_SIZE;
    QuotFrom(start, x, d.bs);
    QuotMono(startOff + x, startOff + num * DENTRY_SIZE - 1, d.bs);
    SectorsIndex(d, cs, Quot(start, d.bs), |bh|, Quot(startOff + x, d.bs));
    assert (entry + i) * DENTRY_SIZE == start + x;
  }
}

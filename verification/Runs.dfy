/** Whole runs: any sequence of operations on any number of files. */
module Runs {
  import opened ExfatTypes
  import opened ExtentCache
  import opened Fat
  import opened FileSystem
  import opened Inodes
  import opened Mapping
  import opened Truncation
  import opened Volumes

  /** What is asked of the volume. */
  datatype Op =
    | Create(isFile: bool)
    | Read(file: nat, block: nat)
    | Write(file: nat, block: nat, upTo: nat)
    | Resize(file: nat, size: nat)
    | Delete(file: nat)

  /** One file's cached state and sizes are right. */
  ghost predicate StateGood(f: Inode, cluSize: nat)
    reads f
  {
    && CacheOk(f.clusters, f.cache) && f.nrCaches == |f.cache|
    && HintOk(f.clusters, f.hintOff, f.hintClu)
    && SizesOk(f.iSize, f.iSizeOndisk, cluSize, |f.clusters|)
  }

  ghost function RecOf(f: Inode): (r: FileRec)
    reads f
  {
    FileRec(f.startClu, f.flags, f.clusters)
  }

  /** The clusters of the files `rs`. */
  ghost function OwnedBy(rs: set<FileRec>): (s: set<nat>) {
    set r, c | r in rs && c in Elements(r.cs) :: c
  }

  /** Every mark is the system's, leaked by a failed allocation, or a cluster of
      exactly one file. */
  ghost predicate Accounted(inUse: set<nat>, leaked: set<nat>, system: set<nat>, owned: set<nat>) {
    && inUse == leaked + system + owned
    && leaked !! system && leaked !! owned && system !! owned
  }

  /** Where the files `fs` are stored. */
  ghost function Recs(fs: seq<Inode>): (rs: seq<FileRec>)
    reads fs
  {
    seq(|fs|, i requires 0 <= i < |fs| reads fs => RecOf(fs[i]))
  }

  ghost predicate Stored(fat: Table, inUse: set<nat>, leaked: set<nat>, rs: seq<FileRec>) {
    forall i :: 0 <= i < |rs| ==> FileOk(fat, inUse, leaked, rs[i].start, rs[i].flags, rs[i].cs)
  }

  /** No two of the files share a cluster. */
  ghost predicate Apart(rs: seq<FileRec>) {
    forall i, j :: 0 <= i < j < |rs| ==> Elements(rs[i].cs) !! Elements(rs[j].cs)
  }

  /** Taking away the clusters of one file after the other leaves the leaked
      ones and the system's. */
  ghost predicate Books(a: set<nat>, l: set<nat>, system: set<nat>, rs: seq<FileRec>)
    decreases |rs|
  {
    if rs == [] then Accounted(a, l, system, {})
    else
      var mine := Elements(rs[|rs| - 1].cs);
      mine <= a && Books(a - mine, l, system, rs[..|rs| - 1])
  }

  lemma OwnedSnoc(rs: seq<FileRec>, r: FileRec)
    ensures OwnedBy(Elts(rs + [r])) == OwnedBy(Elts(rs)) + Elements(r.cs)
  {
    var rs' := rs + [r];
    assert rs'[|rs|] == r;
    forall x | x in Elts(rs) ensures x in Elts(rs') {
      var i :| 0 <= i < |rs| && rs[i] == x;
      assert rs'[i] == x;
    }
  }

  /** The books mean that no two files share a cluster and every mark is
      accounted for. */
  lemma {:induction false} BooksAre(a: set<nat>, l: set<nat>, system: set<nat>, rs: seq<FileRec>)
    ensures Books(a, l, system, rs) <==> Apart(rs) && Accounted(a, l, system, OwnedBy(Elts(rs)))
    decreases |rs|
  {
    if rs == [] {
      assert OwnedBy(Elts(rs)) == {};
    } else {
      var rs0, r := rs[..|rs| - 1], rs[|rs| - 1];
      assert rs == rs0 + [r];
      OwnedSnoc(rs0, r);
      ApartSnoc(rs0, r);
      BooksAre(a - Elements(r.cs), l, system, rs0);
      AccountedMore(a, l, system, OwnedBy(Elts(rs0)), Elements(r.cs));
    }
  }

  lemma ApartSnoc(rs: seq<FileRec>, r: FileRec)
    ensures Apart(rs + [r]) <==> Apart(rs) && Elements(r.cs) !! OwnedBy(Elts(rs))
  {
    var rs' := rs + [r];
    if Apart(rs') {
      forall i, j | 0 <= i < j < |rs| ensures Elements(rs[i].cs) !! Elements(rs[j].cs) {
        assert rs'[i] == rs[i] && rs'[j] == rs[j];
      }
      forall x | x in OwnedBy(Elts(rs)) ensures x !in Elements(r.cs) {
        var q :| q in Elts(rs) && x in Elements(q.cs);
        var i :| 0 <= i < |rs| && rs[i] == q;
        assert rs'[i] == q && rs'[|rs|] == r;
      }
    }
    if Apart(rs) && Elements(r.cs) !! OwnedBy(Elts(rs)) {
      forall i, j | 0 <= i < j < |rs'| ensures Elements(rs'[i].cs) !! Elements(rs'[j].cs) {
        assert rs[i] in Elts(rs);
      }
    }
  }

  lemma AccountedMore(a: set<nat>, l: set<nat>, system: set<nat>, owned: set<nat>, mine: set<nat>)
    ensures mine <= a && Accounted(a - mine, l, system, owned)
         <==> mine !! owned && Accounted(a, l, system, owned + mine)
  {
    if mine <= a { assert a == (a - mine) + mine; }
  }

  ghost predicate Geometry(vol: Volume) {
    vol.bs > 0 && vol.spc > 0 && vol.cluSize == vol.bs * vol.spc
  }

  /** The invariant of every run. */
  ghost predicate AllGood(vol: Volume, fs: seq<Inode>, system: set<nat>)
    reads vol, fs
  {
    && vol.Valid() && Geometry(vol)
    && Distinct(fs)
    && (forall i :: 0 <= i < |fs| ==> StateGood(fs[i], vol.cluSize))
    && Stored(vol.fat, vol.inUse, vol.leaked, Recs(fs))
    && Books(vol.inUse, vol.leaked, system, Recs(fs))
  }

  ghost function Elts(rs: seq<FileRec>): (s: set<FileRec>) {
    set r | r in rs
  }

  /** The records other than rs[k]. */
  ghost function Others(rs: seq<FileRec>, k: nat): (s: set<FileRec>)
    requires k < |rs|
  {
    Elts(Without(rs, k))
  }

  /** Seen from one of the files. */
  lemma FromOne(fat: Table, a: set<nat>, l: set<nat>, rs: seq<FileRec>, k: nat)
    requires Stored(fat, a, l, rs) && Apart(rs) && k < |rs|
    ensures FileOk(fat, a, l, rs[k].start, rs[k].flags, rs[k].cs)
    ensures OthersOk(fat, a, l, rs[k].cs, Others(rs, k))
  {
    var os := Without(rs, k);
    forall r | r in Others(rs, k)
      ensures FileOk(fat, a, l, r.start, r.flags, r.cs) && Elements(rs[k].cs) !! Elements(r.cs)
    {
      var i :| 0 <= i < |os| && os[i] == r;
      assert r == rs[if i < k then i else i + 1];
    }
  }

  /** And seen from all of them again, when that one has changed. */
  lemma FromAll(fat: Table, a: set<nat>, l: set<nat>, rs: seq<FileRec>, k: nat, r: FileRec)
    requires Apart(rs) && k < |rs|
    requires FileOk(fat, a, l, r.start, r.flags, r.cs) && OthersOk(fat, a, l, r.cs, Others(rs, k))
    ensures Stored(fat, a, l, rs[k := r]) && Apart(rs[k := r])
  {
    var os := Without(rs, k);
    forall i | 0 <= i < |rs| && i != k
      ensures rs[i] in Others(rs, k)
    {
      assert rs[i] == os[if i < k then i else i - 1];
    }
  }

  lemma OwnedSplit(rs: seq<FileRec>, k: nat, r: FileRec)
    requires k < |rs|
    ensures OwnedBy(Elts(rs[k := r])) == Elements(r.cs) + OwnedBy(Others(rs, k))
  {
    var os, rs' := Without(rs, k), rs[k := r];
    assert rs'[k] == r;
    forall x | x in Others(rs, k) ensures x in Elts(rs') {
      var i :| 0 <= i < |os| && os[i] == x;
      assert x == rs'[if i < k then i else i + 1];
    }
    forall x | x in Elts(rs') ensures x == r || x in Others(rs, k) {
      var i :| 0 <= i < |rs'| && rs'[i] == x;
      assert i != k ==> x == os[if i < k then i else i - 1];
    }
  }

  /** Taking the clusters `cs` of one file away leaves the leaked ones, the
      system's and those of the other files. */
  ghost predicate Ledger(a: set<nat>, l: set<nat>, system: set<nat>, cs: seq<nat>, rest: set<nat>)
    decreases |cs|
  {
    if cs == [] then Accounted(a, l, system, rest)
    else Last(cs) in a && Ledger(a - {Last(cs)}, l, system, Front(cs), rest)
  }

  lemma {:induction false} LedgerIs(a: set<nat>, l: set<nat>, system: set<nat>, cs: seq<nat>, rest: set<nat>)
    requires Ledger(a, l, system, cs, rest)
    ensures Accounted(a, l, system, Elements(cs) + rest) && Elements(cs) !! rest
    decreases |cs|
  {
    if cs != [] {
      LedgerIs(a - {Last(cs)}, l, system, Front(cs), rest);
      ElementsSnoc(Front(cs), Last(cs));
      assert cs == Front(cs) + [Last(cs)];
    }
  }

  lemma {:induction false} LedgerOf(n: nat, a: set<nat>, l: set<nat>, system: set<nat>, cs: seq<nat>, rest: set<nat>)
    requires Accounted(a, l, system, Elements(cs) + rest) && Elements(cs) !! rest && Fresh(n, {}, cs)
    ensures Ledger(a, l, system, cs, rest)
    decreases |cs|
  {
    if cs != [] {
      FreshSplit(n, cs);
      ElementsSnoc(Front(cs), Last(cs));
      assert cs == Front(cs) + [Last(cs)];
      LedgerOf(n, a - {Last(cs)}, l, system, Front(cs), rest);
    }
  }

  lemma FreshSplit(n: nat, cs: seq<nat>)
    requires cs != [] && Fresh(n, {}, cs)
    ensures Fresh(n, {}, Front(cs)) && Last(cs) !in Elements(Front(cs))
  {
    FreshIndex(n, {}, cs);
    IndexFresh(n, {}, Front(cs));
    ElementsAll(Front(cs));
  }

  lemma AccountedGrow(a: set<nat>, l: set<nat>, system: set<nat>, c: set<nat>, e: set<nat>, rest: set<nat>)
    requires Accounted(a, l, system, c + rest) && c !! rest && e !! a
    ensures Accounted(a + e, l, system, c + e + rest) && c + e !! rest
  {
    forall x | x in e ensures x !in l + system + (c + rest) {}
  }

  lemma AccountedLeak(a: set<nat>, l: set<nat>, system: set<nat>, owned: set<nat>, e: set<nat>)
    requires Accounted(a, l, system, owned) && e !! a
    ensures Accounted(a + e, l + e, system, owned)
  {
    forall x | x in e ensures x !in l + system + owned {}
  }

  lemma FreshApart(n: nat, a: set<nat>, cs: seq<nat>)
    requires Fresh(n, a, cs)
    ensures Elements(cs) !! a
  {
    FreshSize(n, a, cs);
  }

  /** The accounts after `ext` joined the file, and after `ext` leaked. */
  lemma LedgerGrow(n: nat, a: set<nat>, l: set<nat>, system: set<nat>, cs: seq<nat>, ext: seq<nat>, rest: set<nat>)
    requires Ledger(a, l, system, cs, rest) && Fresh(n, a, ext) && Fresh(n, {}, cs + ext)
    ensures Ledger(a + Elements(ext), l, system, cs + ext, rest)
  {
    LedgerIs(a, l, system, cs, rest);
    FreshApart(n, a, ext);
    AccountedGrow(a, l, system, Elements(cs), Elements(ext), rest);
    ElementsConcat(cs, ext);
    LedgerOf(n, a + Elements(ext), l, system, cs + ext, rest);
  }

  lemma LedgerLeak(n: nat, a: set<nat>, l: set<nat>, system: set<nat>, cs: seq<nat>, ext: seq<nat>, rest: set<nat>)
    requires Ledger(a, l, system, cs, rest) && Fresh(n, a, ext) && Fresh(n, {}, cs)
    ensures Ledger(a + Elements(ext), l + Elements(ext), system, cs, rest)
  {
    LedgerIs(a, l, system, cs, rest);
    FreshApart(n, a, ext);
    AccountedLeak(a, l, system, Elements(cs) + rest, Elements(ext));
    LedgerOf(n, a + Elements(ext), l + Elements(ext), system, cs, rest);
  }

  /** The accounts after mapping a block of a file of clusters `cs`. */
  lemma LedgerMap(n: nat, st: Status, a0: set<nat>, a: set<nat>, l0: set<nat>, l: set<nat>,
                  system: set<nat>, cs: seq<nat>, cs': seq<nat>, ext: seq<nat>, rest: set<nat>)
    requires Ledger(a0, l0, system, cs, rest) && Effect(n, st, a0, a, l0, l, ext)
    requires cs' == (if st == Ok then cs + ext else cs) && Fresh(n, {}, cs')
    ensures Ledger(a, l, system, cs', rest)
  {
    if st == Ok { LedgerGrow(n, a0, l0, system, cs, ext, rest); } else { LedgerLeak(n, a0, l0, system, cs, ext, rest); }
  }

  /** The accounts after freeing the clusters of `cs` past the first `k`. */
  lemma LedgerFree(n: nat, a: set<nat>, l: set<nat>, system: set<nat>, cs: seq<nat>, k: nat, rest: set<nat>)
    requires Ledger(a, l, system, cs, rest) && Fresh(n, {}, cs) && k <= |cs| && Fresh(n, {}, cs[..k])
    ensures Ledger(a - Elements(cs[k..]), l, system, cs[..k], rest)
  {
    LedgerIs(a, l, system, cs, rest);
    SplitElements(n, cs, k);
    LedgerOf(n, a - Elements(cs[k..]), l, system, cs[..k], rest);
  }

  lemma OwnedApart(fat: Table, a: set<nat>, l: set<nat>, cs: seq<nat>, others: set<FileRec>)
    requires OthersOk(fat, a, l, cs, others)
    ensures Elements(cs) !! OwnedBy(others)
  {
  }

  /** What an operation on the file `f` needs and keeps. */
  ghost predicate OneGood(vol: Volume, f: Inode, others: set<FileRec>, system: set<nat>)
    reads vol, f
  {
    && Consistent(vol, f, others)
    && SizesOk(f.iSize, f.iSizeOndisk, vol.cluSize, |f.clusters|)
    && Ledger(vol.inUse, vol.leaked, system, f.clusters, OwnedBy(others))
  }

  function Without<T>(s: seq<T>, k: nat): (r: seq<T>)
    requires k < |s|
  {
    s[..k] + s[k + 1..]
  }

  /** The files other than fs[k] are stored at the places `rs`. */
  ghost predicate Peers(others: seq<Inode>, rs: seq<FileRec>, cluSize: nat)
    reads others
  {
    && |others| == |rs|
    && forall i :: 0 <= i < |others| ==> RecOf(others[i]) == rs[i] && StateGood(others[i], cluSize)
  }

  ghost predicate Distinct(fs: seq<Inode>) {
    forall i, j :: 0 <= i < j < |fs| ==> fs[i] != fs[j]
  }

  /** The accounts of all the files, from one of them and back. */
  lemma LedgerOfOne(n: nat, fat: Table, a: set<nat>, l: set<nat>, system: set<nat>, rs: seq<FileRec>, k: nat)
    requires k < |rs| && OthersOk(fat, a, l, rs[k].cs, Others(rs, k)) && Fresh(n, {}, rs[k].cs)
    requires Accounted(a, l, system, OwnedBy(Elts(rs)))
    ensures Ledger(a, l, system, rs[k].cs, OwnedBy(Others(rs, k)))
  {
    OwnedSplit(rs, k, rs[k]);
    assert rs[k := rs[k]] == rs;
    OwnedApart(fat, a, l, rs[k].cs, Others(rs, k));
    LedgerOf(n, a, l, system, rs[k].cs, OwnedBy(Others(rs, k)));
  }

  lemma LedgerOfAll(a: set<nat>, l: set<nat>, system: set<nat>, rs: seq<FileRec>, k: nat, r: FileRec)
    requires k < |rs| && Ledger(a, l, system, r.cs, OwnedBy(Others(rs, k)))
    ensures Accounted(a, l, system, OwnedBy(Elts(rs[k := r])))
  {
    OwnedSplit(rs, k, r);
    LedgerIs(a, l, system, r.cs, OwnedBy(Others(rs, k)));
  }

  lemma PeersOf(fs: seq<Inode>, k: nat, cluSize: nat)
    requires k < |fs| && Distinct(fs) && forall i :: 0 <= i < |fs| ==> StateGood(fs[i], cluSize)
    ensures Peers(Without(fs, k), Without(Recs(fs), k), cluSize) && fs[k] !in Without(fs, k)
  {
  }

  lemma OneOf(vol: Volume, fs: seq<Inode>, system: set<nat>, k: nat)
    requires AllGood(vol, fs, system) && k < |fs|
    ensures OneGood(vol, fs[k], Others(Recs(fs), k), system) && Apart(Recs(fs))
  {
    var rs := Recs(fs);
    BooksAre(vol.inUse, vol.leaked, system, rs);
    FromOne(vol.fat, vol.inUse, vol.leaked, rs, k);
    EncodedFresh(vol.fat, rs[k].start, rs[k].flags, rs[k].cs);
    LedgerOfOne(vol.n, vol.fat, vol.inUse, vol.leaked, system, rs, k);
  }

  lemma PeersBack(fs: seq<Inode>, rs: seq<FileRec>, k: nat, cluSize: nat)
    requires k < |fs| == |rs| && Peers(Without(fs, k), Without(rs, k), cluSize) && StateGood(fs[k], cluSize)
    ensures forall i :: 0 <= i < |fs| ==> StateGood(fs[i], cluSize)
    ensures Recs(fs) == rs[k := RecOf(fs[k])]
  {
    var others := Without(fs, k);
    forall i | 0 <= i < |fs| && i != k ensures RecOf(fs[i]) == rs[i] && StateGood(fs[i], cluSize) {
      assert fs[i] == others[if i < k then i else i - 1];
    }
  }

  lemma AllAgain(vol: Volume, fs: seq<Inode>, system: set<nat>, k: nat, rs: seq<FileRec>)
    requires Geometry(vol) && Distinct(fs) && k < |fs| == |rs| && Apart(rs)
    requires OneGood(vol, fs[k], Others(rs, k), system)
    requires Peers(Without(fs, k), Without(rs, k), vol.cluSize)
    ensures AllGood(vol, fs, system) && Without(Recs(fs), k) == Without(rs, k)
  {
    var r := RecOf(fs[k]);
    FromAll(vol.fat, vol.inUse, vol.leaked, rs, k, r);
    LedgerOfAll(vol.inUse, vol.leaked, system, rs, k, r);
    BooksAre(vol.inUse, vol.leaked, system, rs[k := r]);
    PeersBack(fs, rs, k, vol.cluSize);
  }

  /** exfat_get_block on a file. */
  method Access(vol: Volume, f: Inode, block: nat, create: bool, ghost others: set<FileRec>, ghost system: set<nat>)
    returns (mapped: bool, ghost ext: seq<nat>)
    requires OneGood(vol, f, others, system) && Geometry(vol) && block / vol.spc < EOF_CLUSTER
    requires create && f.flags == NoFatChain && f.clusters != [] ==> block / vol.spc <= |f.clusters|
    modifies vol, f
    ensures OneGood(vol, f, others, system)
    ensures mapped ==> block / vol.spc < |f.clusters|
    ensures f.clusters == (if create && mapped then old(f.clusters) + ext else old(f.clusters))
    ensures f.iSize == old(f.iSize)
    ensures f.iSizeOndisk == OndiskAfter(old(f.iSize), old(f.iSizeOndisk), block, vol.bs, create && mapped)
    ensures vol.served == Asked(old(vol.State()), old(f.clusters), create, block / vol.spc, mapped, ext,
                                old(vol.served))
    ensures create && block / vol.spc < |old(f.clusters)| ==> mapped && f.clusters == old(f.clusters)
    ensures create && mapped && block / vol.spc >= |old(f.clusters)| ==>
              |ext| == block / vol.spc - |old(f.clusters)| + 1
  {
    var st, phys;
    st, mapped, phys, ext := GetBlock(vol, f, block, create, others);
    EncodedFresh(vol.fat, f.startClu, f.flags, f.clusters);
    LedgerMap(vol.n, st, old(vol.inUse), vol.inUse, old(vol.leaked), vol.leaked, system,
              old(f.clusters), f.clusters, ext, OwnedBy(others));
  }

  /** exfat_write_end: the size moves up, within the aligned on-disk size. */
  method WriteEnd(vol: Volume, f: Inode, upTo: nat, ghost others: set<FileRec>, ghost system: set<nat>)
    requires OneGood(vol, f, others, system)
    modifies f`iSize
    ensures OneGood(vol, f, others, system)
    ensures f.iSize == if old(f.iSize) < upTo <= f.iSizeOndisk then upTo else old(f.iSize)
  {
    if f.iSize < upTo <= f.iSizeOndisk {
      f.iSize := upTo;
    }
  }

  /** A file is made smaller. */
  method Shorten(vol: Volume, f: Inode, size: nat, ghost others: set<FileRec>, ghost system: set<nat>)
    requires OneGood(vol, f, others, system) && Geometry(vol) && size <= f.iSize
    modifies vol, f
    ensures OneGood(vol, f, others, system) && f.iSize == size && vol.served == old(vol.served)
    ensures if size < old(f.iSizeOndisk) then AlignedTo(f.iSizeOndisk, size, vol.bs)
            else f.iSizeOndisk == old(f.iSizeOndisk)
    ensures Ceil(size, vol.cluSize) <= |old(f.clusters)| && f.clusters == old(f.clusters)[..Ceil(size, vol.cluSize)]
  {
    EncodedFresh(vol.fat, f.startClu, f.flags, f.clusters);
    Truncate(vol, f, size, others);
    EncodedFresh(vol.fat, f.startClu, f.flags, f.clusters);
    LedgerFree(vol.n, old(vol.inUse), old(vol.leaked), system, old(f.clusters),
               Ceil(size, vol.cluSize), OwnedBy(others));
  }

  /** A block whose cluster the file has, or that is the next one to add; blocks
      past that are reached by writing those before (cont_write_begin). */
  predicate NextBlock(vol: Volume, f: Inode, block: nat)
    requires Geometry(vol)
    reads f
  {
    block / vol.spc < EOF_CLUSTER && block / vol.spc <= CluRoundUp(f.iSizeOndisk, vol.cluSize)
  }

  /** A file as its users see it: where its blocks are, its size and the size on disk. */
  datatype FileState = FileState(cs: seq<nat>, size: nat, ondisk: nat)

  ghost function StateOf(f: Inode): (s: FileState)
    reads f
  {
    FileState(f.clusters, f.iSize, f.iSizeOndisk)
  }

  ghost function States(fs: seq<Inode>): (ss: seq<FileState>)
    reads fs
    ensures |ss| == |fs|
  {
    seq(|fs|, i requires 0 <= i < |fs| reads fs => StateOf(fs[i]))
  }

  /** The sizes after a block was written up to byte `upTo`. */
  ghost predicate SizesWritten(bs: nat, block: nat, upTo: nat, s: FileState, s': FileState) {
    && s'.ondisk == OndiskAfter(s.size, s.ondisk, block, bs, true)
    && s'.size == if s.size < upTo <= s'.ondisk then upTo else s.size
  }

  /** What writing a block did to a file of a volume that stood at m, and what was
      asked of the volume for it. A block of a cluster that the file has is written; a
      block of the next one is written if the volume grants that cluster; others are
      not asked for. */
  ghost predicate Wrote(bs: nat, spc: nat, block: nat, upTo: nat, m: Marks, s: FileState, s': FileState,
                        asked: seq<Request>)
    requires spc > 0
  {
    var off := block / spc;
    if off >= EOF_CLUSTER || off > |s.cs| then s' == s && asked == []
    else if off < |s.cs| then s'.cs == s.cs && SizesWritten(bs, block, upTo, s, s') && asked == []
    else
      && |asked| == 1 && asked[0] == Request(m, NextDir(s.cs), 1, asked[0].ok, asked[0].got)
      && if asked[0].ok then
           |asked[0].got| == 1 && s'.cs == s.cs + asked[0].got && SizesWritten(bs, block, upTo, s, s')
         else s' == s
  }

  /** What a request did to its file. A smaller size keeps as many of the first
      clusters as it needs. */
  ghost predicate Did(op: Op, bs: nat, spc: nat, m: Marks, s: FileState, s': FileState, asked: seq<Request>)
    requires bs > 0 && spc > 0 && bs * spc > 0
  {
    match op
    case Write(_, block, upTo) => Wrote(bs, spc, block, upTo, m, s, s', asked)
    case Resize(_, wanted) =>
      && asked == []
      && if wanted <= s.size then
           var k := Ceil(wanted, bs * spc);
           && s'.size == wanted && k <= |s.cs| && s'.cs == s.cs[..k]
           && if wanted < s.ondisk then AlignedTo(s'.ondisk, wanted, bs) else s'.ondisk == s.ondisk
         else s' == s
    case _ => s' == s && asked == []
  }

  /** The volume and its files between requests. */
  datatype Snap = Snap(marks: Marks, served: seq<Request>, files: seq<FileState>)

  ghost function Now(vol: Volume, fs: seq<Inode>): (s: Snap)
    reads vol, fs
  {
    Snap(vol.State(), vol.served, States(fs))
  }

  /** What a request did to the files. */
  ghost predicate Stepped(op: Op, bs: nat, spc: nat, s: Snap, s': Snap)
    requires bs > 0 && spc > 0 && bs * spc > 0
  {
    && s.served <= s'.served
    && var asked := s'.served[|s.served|..];
       match op
       case Create(_) => s'.files == s.files + [FileState([], 0, 0)] && asked == []
       case Delete(k) => s'.files == (if k < |s.files| then Without(s.files, k) else s.files) && asked == []
       case _ =>
         if op.file < |s.files| then
           && |s'.files| == |s.files| && s'.files == s.files[op.file := s'.files[op.file]]
           && Did(op, bs, spc, s.marks, s.files[op.file], s'.files[op.file], asked)
         else s'.files == s.files && asked == []
  }

  /** The volume and its files before, between and after the requests. */
  ghost predicate Ran(ops: seq<Op>, bs: nat, spc: nat, trace: seq<Snap>)
    requires bs > 0 && spc > 0 && bs * spc > 0
    decreases |ops|
  {
    && |trace| == |ops| + 1
    && (ops != [] ==> Stepped(ops[0], bs, spc, trace[0], trace[1]) && Ran(ops[1..], bs, spc, trace[1..]))
  }

  /** A block is written, or the next one is asked for. */
  method WriteBlock(vol: Volume, f: Inode, block: nat, upTo: nat, ghost others: set<FileRec>, ghost system: set<nat>)
    requires OneGood(vol, f, others, system) && Geometry(vol)
    modifies vol, f
    ensures OneGood(vol, f, others, system) && old(vol.served) <= vol.served
    ensures Wrote(vol.bs, vol.spc, block, upTo, old(vol.State()), old(StateOf(f)), StateOf(f),
                  vol.served[|old(vol.served)|..])
  {
    RoundUpIsCeil(f.iSizeOndisk, vol.cluSize);
    if NextBlock(vol, f, block) {
      var mapped;
      ghost var ext;
      mapped, ext := Access(vol, f, block, true, others, system);
      if mapped { WriteEnd(vol, f, upTo, others, system); }
      assert old(f.clusters) + [] == old(f.clusters);
    }
  }

  /** One request on one file; a request the callers never make is skipped. */
  method OnFile(vol: Volume, f: Inode, op: Op, ghost others: set<FileRec>, ghost system: set<nat>)
    requires OneGood(vol, f, others, system) && Geometry(vol)
    modifies vol, f
    ensures OneGood(vol, f, others, system) && old(vol.served) <= vol.served
    ensures Did(op, vol.bs, vol.spc, old(vol.State()), old(StateOf(f)), StateOf(f), vol.served[|old(vol.served)|..])
  {
    match op {
      case Read(_, block) =>
        if block / vol.spc < EOF_CLUSTER {
          var mapped;
          ghost var ext;
          mapped, ext := Access(vol, f, block, false, others, system);
        }
      case Write(_, block, upTo) => WriteBlock(vol, f, block, upTo, others, system);
      case Resize(_, size) =>
        if size <= f.iSize { Shorten(vol, f, size, others, system); }
      case _ =>
    }
  }

  /** The other files are out of the request's reach. */
  method OnPeers(vol: Volume, f: Inode, op: Op, ghost peers: seq<Inode>, ghost rs: seq<FileRec>,
                 ghost others: set<FileRec>, ghost system: set<nat>)
    requires Geometry(vol) && f !in peers && OneGood(vol, f, others, system) && Peers(peers, rs, vol.cluSize)
    modifies vol, f
    ensures OneGood(vol, f, others, system) && Peers(peers, rs, vol.cluSize)
    ensures old(vol.served) <= vol.served
    ensures Did(op, vol.bs, vol.spc, old(vol.State()), old(StateOf(f)), StateOf(f), vol.served[|old(vol.served)|..])
  {
    OnFile(vol, f, op, others, system);
  }

  /** A request on file k leaves the others as they are. */
  method OnFiles(vol: Volume, fs: seq<Inode>, k: nat, op: Op, ghost system: set<nat>)
    requires AllGood(vol, fs, system) && k < |fs|
    modifies vol, fs
    ensures AllGood(vol, fs, system)
    ensures Without(Recs(fs), k) == old(Without(Recs(fs), k))
    ensures old(vol.served) <= vol.served
    ensures Did(op, vol.bs, vol.spc, old(vol.State()), old(StateOf(fs[k])), StateOf(fs[k]),
                vol.served[|old(vol.served)|..])
    ensures States(fs) == old(States(fs))[k := StateOf(fs[k])]
  {
    OneOf(vol, fs, system, k);
    PeersOf(fs, k, vol.cluSize);
    ghost var rs := Recs(fs);
    OnPeers(vol, fs[k], op, Without(fs, k), Without(rs, k), Others(rs, k), system);
    AllAgain(vol, fs, system, k, rs);
  }

  lemma RecsSnoc(fs: seq<Inode>, f: Inode)
    ensures Recs(fs + [f]) == Recs(fs) + [RecOf(f)]
  {
  }

  lemma AddedGood(vol: Volume, fs: seq<Inode>, f: Inode, system: set<nat>)
    requires AllGood(vol, fs, system) && f !in fs && StateGood(f, vol.cluSize)
    requires f.startClu == EOF_CLUSTER && f.flags == NoFatChain && f.clusters == []
    ensures AllGood(vol, fs + [f], system)
  {
    RecsSnoc(fs, f);
    assert Recs(fs + [f])[..|fs|] == Recs(fs);
    assert vol.inUse - {} == vol.inUse;
  }

  /** A new file. */
  method AddFile(vol: Volume, fs: seq<Inode>, isFile: bool, ghost system: set<nat>) returns (f: Inode)
    requires AllGood(vol, fs, system)
    ensures AllGood(vol, fs + [f], system) && fresh(f)
    ensures States(fs + [f]) == old(States(fs)) + [FileState([], 0, 0)]
  {
    f := new Inode.Empty(isFile);
    assert AllGood(vol, fs, system);
    AddedGood(vol, fs, f, system);
  }

  lemma RemovedRecs(fat: Table, a: set<nat>, l: set<nat>, system: set<nat>, rs: seq<FileRec>, k: nat)
    requires k < |rs| && Apart(rs) && OthersOk(fat, a, l, [], Others(rs, k))
    requires Ledger(a, l, system, [], OwnedBy(Others(rs, k)))
    ensures Stored(fat, a, l, Without(rs, k)) && Books(a, l, system, Without(rs, k))
  {
    var os := Without(rs, k);
    BooksAre(a, l, system, os);
    forall i | 0 <= i < |os| ensures os[i] in Others(rs, k) {}
  }

  lemma PeersRecs(others: seq<Inode>, rs: seq<FileRec>, cluSize: nat)
    requires Peers(others, rs, cluSize)
    ensures Recs(others) == rs
  {
  }

  lemma DistinctWithout(fs: seq<Inode>, k: nat)
    requires Distinct(fs) && k < |fs|
    ensures Distinct(Without(fs, k))
  {
  }

  lemma RemovedGood(vol: Volume, fs: seq<Inode>, k: nat, rs: seq<FileRec>, system: set<nat>)
    requires vol.Valid() && Geometry(vol) && Distinct(fs) && k < |fs| == |rs| && Apart(rs)
    requires OthersOk(vol.fat, vol.inUse, vol.leaked, [], Others(rs, k))
    requires Ledger(vol.inUse, vol.leaked, system, [], OwnedBy(Others(rs, k)))
    requires Peers(Without(fs, k), Without(rs, k), vol.cluSize)
    ensures AllGood(vol, Without(fs, k), system)
    ensures Recs(Without(fs, k)) == Without(rs, k)
  {
    RemovedRecs(vol.fat, vol.inUse, vol.leaked, system, rs, k);
    PeersRecs(Without(fs, k), Without(rs, k), vol.cluSize);
    DistinctWithout(fs, k);
  }

  /** exfat_evict_inode of one file; the others, `peers`, are stored at `prs`. */
  method EvictOne(vol: Volume, f: Inode, ghost peers: seq<Inode>, ghost prs: seq<FileRec>, ghost system: set<nat>)
    requires OneGood(vol, f, Elts(prs), system) && f !in peers && Peers(peers, prs, vol.cluSize)
    modifies vol, f
    ensures vol.Valid() && OthersOk(vol.fat, vol.inUse, vol.leaked, [], Elts(prs))
    ensures Ledger(vol.inUse, vol.leaked, system, [], OwnedBy(Elts(prs)))
    ensures Peers(peers, prs, vol.cluSize) && vol.served == old(vol.served)
  {
    ghost var cs := f.clusters;
    EncodedFresh(vol.fat, f.startClu, f.flags, cs);
    LedgerFree(vol.n, vol.inUse, vol.leaked, system, cs, 0, OwnedBy(Elts(prs)));
    assert cs[0..] == cs && cs[..0] == [];
    Evict(vol, f, Elts(prs));
  }

  /** An unlinked file is evicted. */
  method RemoveFile(vol: Volume, fs: seq<Inode>, k: nat, ghost system: set<nat>)
    requires AllGood(vol, fs, system) && k < |fs|
    modifies vol, fs[k]
    ensures AllGood(vol, Without(fs, k), system)
    ensures Recs(Without(fs, k)) == old(Without(Recs(fs), k)) && vol.served == old(vol.served)
  {
    OneOf(vol, fs, system, k);
    PeersOf(fs, k, vol.cluSize);
    ghost var rs := Recs(fs);
    EvictOne(vol, fs[k], Without(fs, k), Without(rs, k), system);
    RemovedGood(vol, fs, k, rs, system);
  }

  /** A volume just mounted: every mark found is the system's until files are
      opened over it. */
  lemma MountedGood(vol: Volume)
    requires vol.Valid() && Geometry(vol) && vol.leaked == {}
    ensures AllGood(vol, [], vol.inUse)
  {
  }

  /** The files that stay are as they were. */
  method RemoveOne(vol: Volume, fs: seq<Inode>, k: nat, ghost system: set<nat>) returns (fs': seq<Inode>)
    requires AllGood(vol, fs, system) && k < |fs|
    modifies vol, fs
    ensures AllGood(vol, fs', system) && fs' == Without(fs, k)
    ensures States(fs') == old(Without(States(fs), k)) && vol.served == old(vol.served)
  {
    RemoveFile(vol, fs, k, system);
    fs' := Without(fs, k);
  }

  /** A file comes or goes; the others stay. */
  method AddOrRemove(vol: Volume, fs: seq<Inode>, op: Op, ghost system: set<nat>) returns (fs': seq<Inode>)
    requires AllGood(vol, fs, system) && (op.Create? || op.Delete?)
    modifies vol, fs
    ensures AllGood(vol, fs', system)
    ensures forall i :: 0 <= i < |fs'| ==> fs'[i] in fs || fresh(fs'[i])
    ensures Stepped(op, vol.bs, vol.spc, old(Now(vol, fs)), Now(vol, fs'))
  {
    if op.Create? {
      var f := AddFile(vol, fs, op.isFile, system);
      fs' := fs + [f];
    } else if op.file < |fs| {
      fs' := RemoveOne(vol, fs, op.file, system);
    } else {
      fs' := fs;
    }
  }

  /** One request: what it does to the files, with all that holds of the volume kept. */
  method Step(vol: Volume, fs: seq<Inode>, op: Op, ghost system: set<nat>) returns (fs': seq<Inode>)
    requires AllGood(vol, fs, system)
    modifies vol, fs
    ensures AllGood(vol, fs', system)
    ensures forall i :: 0 <= i < |fs'| ==> fs'[i] in fs || fresh(fs'[i])
    ensures Stepped(op, vol.bs, vol.spc, old(Now(vol, fs)), Now(vol, fs'))
  {
    fs' := fs;
    if op.Create? || op.Delete? {
      fs' := AddOrRemove(vol, fs, op, system);
    } else if op.file < |fs| {
      OnFiles(vol, fs, op.file, op, system);
    }
  }

  /** Every run: whatever is asked, in whatever order, every request does what it
      should to its file, and all that holds of the volume is kept. */
  method Execute(vol: Volume, fs: seq<Inode>, ops: seq<Op>, ghost system: set<nat>)
    returns (fs': seq<Inode>, ghost trace: seq<Snap>)
    requires AllGood(vol, fs, system)
    modifies vol, fs
    ensures AllGood(vol, fs', system)
    ensures Ran(ops, vol.bs, vol.spc, trace)
    ensures trace[0] == old(Now(vol, fs)) && trace[|ops|] == Now(vol, fs')
    decreases |ops|
  {
    fs', trace := fs, [Now(vol, fs)];
    if ops != [] {
      var fs1 := Step(vol, fs, ops[0], system);
      ghost var later;
      fs', later := Execute(vol, fs1, ops[1..], system);
      trace := trace + later;
      assert trace[1..] == later;
    }
  }

  ghost function TotalClusters(rs: seq<FileRec>): (k: nat) {
    if rs == [] then 0 else TotalClusters(rs[..|rs| - 1]) + |rs[|rs| - 1].cs|
  }

  lemma {:induction false} BooksTotal(a: set<nat>, l: set<nat>, system: set<nat>, rs: seq<FileRec>, n: nat)
    requires Books(a, l, system, rs) && forall i :: 0 <= i < |rs| ==> Fresh(n, {}, rs[i].cs)
    ensures |a| == |l| + |system| + TotalClusters(rs)
    decreases |rs|
  {
    if rs == [] {
      assert l !! system && a == l + system;
    } else {
      var cs := rs[|rs| - 1].cs;
      BooksTotal(a - Elements(cs), l, system, rs[..|rs| - 1], n);
      FreshSize(n, {}, cs);
      assert a == (a - Elements(cs)) + Elements(cs);
    }
  }

  /** In every reachable state the counter of clusters in use is exactly the
      system's clusters and those of the files. */
  lemma UsedIsOwned(vol: Volume, fs: seq<Inode>, system: set<nat>)
    requires AllGood(vol, fs, system)
    ensures vol.usedClusters == |system| + TotalClusters(Recs(fs))
  {
    var rs := Recs(fs);
    forall i | 0 <= i < |rs| ensures Fresh(vol.n, {}, rs[i].cs) {
      EncodedFresh(vol.fat, rs[i].start, rs[i].flags, rs[i].cs);
    }
    BooksTotal(vol.inUse, vol.leaked, system, rs, vol.n);
  }

  lemma StoredAt(fat: Table, a: set<nat>, l: set<nat>, system: set<nat>, rs: seq<FileRec>, i: nat, p: nat)
    requires Stored(fat, a, l, rs) && |fat| <= BAD_CLUSTER && i < |rs| && p < |rs[i].cs|
    ensures rs[i].cs[p] >= FIRST_CLUSTER
  {
    EncodedAt(fat, rs[i].start, rs[i].flags, rs[i].cs, p);
  }

  lemma BooksApart(a: set<nat>, l: set<nat>, system: set<nat>, rs: seq<FileRec>, i: nat, j: nat)
    requires Books(a, l, system, rs) && i < |rs| && j < |rs| && i != j
    ensures Elements(rs[i].cs) !! Elements(rs[j].cs)
  {
    BooksAre(a, l, system, rs);
    if i < j { assert Elements(rs[i].cs) !! Elements(rs[j].cs); }
  }

  /** Block b is one of the file's. */
  ghost predicate InFile(vol: Volume, f: Inode, b: nat)
    reads f
  {
    vol.spc > 0 && b / vol.spc < |f.clusters|
  }

  /** It is in a data cluster. */
  ghost predicate OnDisk(vol: Volume, f: Inode, b: nat)
    reads f
  {
    InFile(vol, f, b) && f.clusters[b / vol.spc] >= FIRST_CLUSTER
  }

  ghost function SectorOf(vol: Volume, f: Inode, b: nat): (s: nat)
    requires OnDisk(vol, f, b)
    reads f
  {
    BlockSector(vol.dataStart, vol.spc, f.clusters, b)
  }

  /** In every reachable state blocks of two different files are in different
      disk sectors. */
  lemma NeverOverlap(vol: Volume, fs: seq<Inode>, system: set<nat>, i: nat, j: nat, bi: nat, bj: nat)
    requires AllGood(vol, fs, system) && i < |fs| && j < |fs| && i != j
    requires InFile(vol, fs[i], bi) && InFile(vol, fs[j], bj)
    ensures OnDisk(vol, fs[i], bi) && OnDisk(vol, fs[j], bj)
    ensures SectorOf(vol, fs[i], bi) != SectorOf(vol, fs[j], bj)
  {
    var rs := Recs(fs);
    BooksApart(vol.inUse, vol.leaked, system, rs, i, j);
    StoredAt(vol.fat, vol.inUse, vol.leaked, system, rs, i, bi / vol.spc);
    StoredAt(vol.fat, vol.inUse, vol.leaked, system, rs, j, bj / vol.spc);
    FilesApart(vol.dataStart, vol.spc, rs[i].cs, rs[j].cs, bi, bj);
  }
}

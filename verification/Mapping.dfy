/** Logical to physical mapping: exfat_map_cluster of fs/exfat-linux/inode.c. */
module Mapping {
  import opened AllocPlan
  import opened Bitmap
  import opened ExfatTypes
  import opened ExtentCache
  import opened Fat
  import opened Inodes
  import opened Volumes

  /** A file's clusters as stored, all of them marked and accounted for. */
  ghost predicate FileOk(fat: Table, inUse: set<nat>, leaked: set<nat>, start: nat, flags: Alloc, cs: seq<nat>) {
    Encodes(fat, start, flags, cs) && Elements(cs) <= inUse - leaked
  }

  /** EXFAT_B_TO_CLU_ROUND_UP: the clusters that hold `b` bytes. */
  function CluRoundUp(b: nat, cluSize: nat): (k: nat)
    requires cluSize > 0
  {
    assert (b as int - 1) / cluSize >= -1;
    (b as int - 1) / cluSize + 1
  }

  /** The cached position is right, or there is none. */
  ghost predicate HintOk(cs: seq<nat>, off: nat, clu: nat) {
    off != EOF_CLUSTER ==> off < |cs| && clu == cs[off]
  }

  /** Another file is untouched by an operation that changed FAT entries of the
      clusters `s` only and marked `ext` ones. */
  lemma OtherFileKept(fat: Table, fat': Table, inUse: set<nat>, inUse': set<nat>, leaked: set<nat>, leaked': set<nat>,
                      start: nat, flags: Alloc, cs: seq<nat>, s: set<nat>)
    requires FileOk(fat, inUse, leaked, start, flags, cs)
    requires SameOutside(fat', fat, s) && s !! Elements(cs)
    requires Elements(cs) <= inUse' && leaked' !! Elements(cs)
    ensures FileOk(fat', inUse', leaked', start, flags, cs)
  {
    EncodesFrame(fat, fat', start, flags, cs, s);
  }

  /** Two runs, the second starting where the first ends. */
  lemma RunConcat(first: nat, a: seq<nat>, b: seq<nat>)
    requires IsRun(first, a) && IsRun(first + |a|, b)
    ensures IsRun(first, a + b)
  {
    RunIndex(first, a);
    RunIndex(first + |a|, b);
    RunIndex(first, a + b);
  }

  /** Append in the contiguous encoding. */
  lemma AppendRun(fat: Table, start: nat, cs: seq<nat>, ext: seq<nat>)
    requires cs != [] && ext != []
    requires Encodes(fat, start, NoFatChain, cs) && Encodes(fat, start + |cs|, NoFatChain, ext)
    ensures Encodes(fat, start, NoFatChain, cs + ext)
  {
    RunConcat(start, cs, ext);
  }

  /** Append in the chained encoding: the last entry is pointed at the new chain. */
  lemma AppendChain(fat: Table, start: nat, cs: seq<nat>, ext: seq<nat>)
    requires cs != [] && ext != [] && |fat| <= BAD_CLUSTER && Last(cs) < |fat|
    requires Encodes(fat, start, FatChain, cs) && Encodes(fat, ext[0], FatChain, ext)
    requires Elements(cs) !! Elements(ext)
    ensures Encodes(fat[Last(cs) := ext[0]], start, FatChain, cs + ext)
  {
    ChainAppend(fat, fat[Last(cs) := ext[0]], cs, ext);
  }

  /** The end of a file in the contiguous encoding. */
  lemma RunLast(fat: Table, start: nat, cs: seq<nat>)
    requires cs != [] && Encodes(fat, start, NoFatChain, cs)
    ensures Last(cs) == start + |cs| - 1
  {
  }

  /** exfat_chain_cont_cluster on a whole file: same clusters, other encoding. */
  method RunToChain(vol: Volume, start: nat, count: nat, ghost cs: seq<nat>)
    requires cs != [] && Encodes(vol.fat, start, NoFatChain, cs) && count == |cs|
    modifies vol`fat
    ensures Encodes(vol.fat, start, FatChain, cs)
    ensures SameOutside(vol.fat, old(vol.fat), Elements(cs))
  {
    vol.ChainContCluster(start, count);
    RunLinked(vol.fat, start, cs);
    forall c: nat | c < |vol.fat| && c !in Elements(cs)
      ensures vol.fat[c] == old(vol.fat)[c]
    {
      RunHas(start, cs, c);
    }
  }

  /** Link freshly allocated clusters behind a file's last one. */
  method LinkFresh(vol: Volume, start: nat, flags: Alloc, last: nat, count: nat, res: Chain,
                   ghost cs: seq<nat>, ghost ext: seq<nat>)
    returns (start': nat, flags': Alloc)
    requires |vol.fat| <= BAD_CLUSTER && ext != [] && Elements(cs) !! Elements(ext)
    requires Encodes(vol.fat, start, flags, cs) && Encodes(vol.fat, res.dir, res.flags, ext)
    requires count == |cs| && last == if cs == [] then EOF_CLUSTER else Last(cs)
    requires flags == FatChain ==> res.flags == FatChain
    requires res.flags == NoFatChain && cs != [] ==> res.dir == last + 1
    modifies vol`fat
    ensures Encodes(vol.fat, start', flags', cs + ext)
    ensures SameOutside(vol.fat, old(vol.fat), Elements(cs))
    ensures flags' == res.flags && (flags' == NoFatChain ==> vol.fat == old(vol.fat))
  {
    start', flags' := start, flags;
    if last == EOF_CLUSTER {
      LastValid(vol.fat, start, flags, cs);
      if res.flags == FatChain {
        flags' := FatChain;
      }
      start' := res.dir;
      assert cs + ext == ext;
    } else {
      LastValid(vol.fat, start, flags, cs);
      if res.flags != flags {
        RunToChain(vol, start, count, cs);
        EncodesFrame(old(vol.fat), vol.fat, res.dir, res.flags, ext, Elements(cs));
        flags' := FatChain;
      }
      if res.flags == FatChain {
        AppendChain(vol.fat, start, cs, ext);
        vol.EntSet(last, res.dir);
      } else {
        RunLast(vol.fat, start, cs);
        AppendRun(vol.fat, start, cs, ext);
      }
    }
  }

  lemma EncodedAt(fat: Table, start: nat, flags: Alloc, cs: seq<nat>, i: nat)
    requires Encodes(fat, start, flags, cs) && |fat| <= BAD_CLUSTER
    ensures i < |cs| ==> IsValidCluster(|fat|, cs[i])
  {
    EncodedFresh(fat, start, flags, cs);
    FreshIndex(|fat|, {}, cs);
  }

  lemma LastValid(fat: Table, start: nat, flags: Alloc, cs: seq<nat>)
    requires Encodes(fat, start, flags, cs) && |fat| <= BAD_CLUSTER
    ensures cs != [] ==> IsValidCluster(|fat|, Last(cs)) && Last(cs) in Elements(cs)
  {
    EncodedFresh(fat, start, flags, cs);
  }

  /** The contiguous case of the lookup: the cluster and its predecessor. */
  function RunLookup(start: nat, off: nat, num: nat): (r: (nat, nat)) {
    if off > 0 && start != EOF_CLUSTER then
      (if off == num then EOF_CLUSTER else (start + off) % 0x1_0000_0000, (start + off - 1) % 0x1_0000_0000)
    else (start, start)
  }

  /** The contiguous lookup is right up to the end of the file and not beyond: from
      two clusters past the end it names a cluster that is not the file's (save for
      the one offset where the sum happens to be the end marker). */
  lemma RunLookupRightIff(fat: Table, start: nat, cs: seq<nat>, off: nat)
    requires cs != [] && Encodes(fat, start, NoFatChain, cs) && |fat| <= BAD_CLUSTER && off < EOF_CLUSTER
    ensures RunLookup(start, off, |cs|).0 == (if off < |cs| then cs[off] else EOF_CLUSTER)
            <==> off <= |cs| || start + off == EOF_CLUSTER
    ensures off == |cs| ==> RunLookup(start, off, |cs|).1 == Last(cs)
  {
    RunIndex(start, cs);
  }

  /** The failing input: a file of the one cluster 5, looked up two clusters in. The
      lookup names cluster 7, which is not the file's. */
  lemma RunLookupPastEnd(fat: Table)
    requires 6 <= |fat| <= BAD_CLUSTER
    ensures Encodes(fat, 5, NoFatChain, [5]) && RunLookup(5, 2, 1).0 == 7
  {
    RunIndex(5, [5]);
  }

  /** The walk of the directory case, from the hinted position when there is one. */
  method DirWalk(fat: Table, start: nat, hintOff: nat, hintClu: nat, off: nat, ghost cs: seq<nat>)
    returns (clu: nat, last: nat)
    requires Encodes(fat, start, FatChain, cs) && |fat| <= BAD_CLUSTER && HintOk(cs, hintOff, hintClu)
    ensures clu == if off < |cs| then cs[off] else EOF_CLUSTER
    ensures off >= |cs| ==> last == if cs == [] then EOF_CLUSTER else Last(cs)
  {
    clu, last := start, start;
    var left := off;
    if off > 0 && hintOff != EOF_CLUSTER && hintOff > 0 && off >= hintOff {
      left, clu := off - hintOff, hintClu;
    }
    if cs != [] { ChainIndex(fat, cs); }
    while left > 0 && clu != EOF_CLUSTER
      invariant 0 <= left <= off
      invariant clu == if off - left < |cs| then cs[off - left] else EOF_CLUSTER
      invariant clu == EOF_CLUSTER ==> last == if cs == [] then EOF_CLUSTER else Last(cs)
    {
      ChainNext(fat, cs, off - left);
      last := clu;
      clu := EntGet(fat, clu).content;
      left := left - 1;
    }
    if cs != [] { ValidNotEof(fat, cs, off - left); }
  }

  /** The lookup part of exfat_map_cluster: the cluster at `off`, or the end marker
      and the file's last cluster. */
  method Locate(vol: Volume, f: Inode, off: nat, num: nat) returns (clu: nat, last: nat)
    requires |vol.fat| <= BAD_CLUSTER && Encodes(vol.fat, f.startClu, f.flags, f.clusters) && num == |f.clusters|
    requires CacheOk(f.clusters, f.cache) && f.nrCaches == |f.cache| && HintOk(f.clusters, f.hintOff, f.hintClu)
    requires f.flags == NoFatChain && f.clusters != [] ==> off <= |f.clusters|
    requires off < EOF_CLUSTER
    modifies f`cache, f`nrCaches
    ensures CacheOk(f.clusters, f.cache) && f.nrCaches == |f.cache|
    ensures clu == if off < |f.clusters| then f.clusters[off] else EOF_CLUSTER
    ensures clu == EOF_CLUSTER <==> off >= |f.clusters|
    ensures off >= |f.clusters| ==> last == if f.clusters == [] then EOF_CLUSTER else Last(f.clusters)
  {
    EncodedAt(vol.fat, f.startClu, f.flags, f.clusters, off);
    if f.flags == NoFatChain {
      if f.startClu != EOF_CLUSTER { RunLookupRightIff(vol.fat, f.startClu, f.clusters, off); }
      var r := RunLookup(f.startClu, off, num);
      clu, last := r.0, r.1;
    } else if f.isFile {
      var st, fclus;
      st, fclus, clu, last := f.GetCluster(vol.fat, off, true);
    } else {
      clu, last := DirWalk(vol.fat, f.startClu, f.hintOff, f.hintClu, off, f.clusters);
    }
  }

  /** The last of `k` fresh clusters, the first of which is at `clu`. */
  method SkipTo(fat: Table, flags: Alloc, clu0: nat, k: nat, ghost cs: seq<nat>) returns (clu: nat)
    requires cs != [] && |fat| <= BAD_CLUSTER && k > 0 && |cs| >= k && cs[|cs| - k] == clu0
    requires Encodes(fat, cs[0], flags, cs)
    ensures clu == Last(cs)
  {
    clu := clu0;
    if flags == NoFatChain {
      RunIndex(cs[0], cs);
      clu := clu + (k - 1);
    } else {
      var left := k;
      while left > 1
        invariant 1 <= left <= k && clu == cs[|cs| - left]
      {
        ChainNext(fat, cs, |cs| - left);
        clu := EntGet(fat, clu).content;
        left := left - 1;
      }
    }
  }

  /** What a successful request promises about a file it is for. */
  lemma FreshForFile(n: nat, fat: Table, fat': Table, a0: set<nat>, a: set<nat>, leaked: set<nat>,
                     start: nat, flags: Alloc, cs: seq<nat>, ext: seq<nat>)
    requires FileOk(fat, a0, leaked, start, flags, cs) && Took(n, a0, a, ext) && leaked <= a0
    requires SameOutside(fat', fat, Elements(ext))
    ensures Elements(cs) !! Elements(ext)
    ensures Encodes(fat', start, flags, cs)
  {
    FreshSize(n, a0, ext);
    EncodesFrame(fat, fat', start, flags, cs, Elements(ext));
  }

  /** Link the clusters of a completed request to the file and go to the last. */
  method Attach(vol: Volume, f: Inode, last: nat, k: nat, num: nat, res: Chain, ghost ext: seq<nat>) returns (clu: nat)
    requires |vol.fat| <= BAD_CLUSTER && k > 0 && num == |f.clusters| && |ext| == k
    requires Elements(f.clusters) !! Elements(ext)
    requires Encodes(vol.fat, f.startClu, f.flags, f.clusters) && Encodes(vol.fat, res.dir, res.flags, ext)
    requires last == if f.clusters == [] then EOF_CLUSTER else Last(f.clusters)
    requires f.flags == FatChain ==> res.flags == FatChain
    requires res.flags == NoFatChain && f.clusters != [] ==> res.dir == last + 1
    modifies vol`fat, f`startClu, f`flags, f`clusters
    ensures Encodes(vol.fat, f.startClu, f.flags, f.clusters)
    ensures f.clusters == old(f.clusters) + ext && clu == Last(ext)
    ensures SameOutside(vol.fat, old(vol.fat), Elements(old(f.clusters)))
    ensures f.flags == res.flags && (f.flags == NoFatChain ==> vol.fat == old(vol.fat))
  {
    f.startClu, f.flags := LinkFresh(vol, f.startClu, f.flags, last, num, res, f.clusters, ext);
    f.clusters := f.clusters + ext;
    clu := SkipTo(vol.fat, f.flags, res.dir, k, f.clusters);
  }

  /** The FAT after allocating `ext` and linking it to a file of clusters `cs`. */
  lemma AppendedFat(fat: Table, fat1: Table, fat0: Table, cs: seq<nat>, ext: seq<nat>)
    requires SameOutside(fat, fat1, Elements(cs)) && SameOutside(fat1, fat0, Elements(ext))
    ensures SameOutside(fat, fat0, Elements(cs + ext))
  {
    ElementsConcat(cs, ext);
    SameOutsideTrans(fat, fat1, fat0, Elements(cs), Elements(ext), Elements(cs) + Elements(ext));
  }

  /** The hint for the clusters that are to follow those of a file. */
  ghost function NextDir(cs: seq<nat>): (dir: nat) {
    if cs == [] then EOF_CLUSTER else Last(cs) + 1
  }

  lemma RunOn(start: nat, cs: seq<nat>, ext: seq<nat>)
    requires cs != [] && ext != [] && IsRun(start, cs)
    ensures IsRun(cs[0], cs + ext) <==> IsRun(Last(cs) + 1, ext)
  {
    RunIndex(start, cs);
    RunIndex(cs[0], cs + ext);
    RunIndex(Last(cs) + 1, ext);
    if IsRun(cs[0], cs + ext) {
      forall i | 0 <= i < |ext| ensures ext[i] == Last(cs) + 1 + i { assert (cs + ext)[|cs| + i] == ext[i]; }
    }
  }

  /** A request without a hint takes the cluster that its search started from. */
  lemma StartsThere(a: set<nat>, n: nat, ptr: nat, k: nat)
    requires FIRST_CLUSTER < n <= BAD_CLUSTER && ptr < n && k > 0 && StartHint(a, n, ptr, EOF_CLUSTER) != EOF_CLUSTER
    ensures var h := StartHint(a, n, ptr, EOF_CLUSTER);
            IsValidCluster(n, h) && Plan(a, n, h, k) != [] && Plan(a, n, h, k)[0] == h
  {
    var p := if ptr < FIRST_CLUSTER then FIRST_CLUSTER else ptr;
    ScanValid(a, n, p);
    var h := ScanFrom(a, n, p);
    ScanAt(a, n, h, h);
  }

  /** When the clusters of a file stay consecutive. */
  lemma StaysRun(fat: Table, a: set<nat>, ptr: nat, start: nat, flags: Alloc, cs: seq<nat>, ext: seq<nat>, h: nat,
                 f': Alloc)
    requires Encodes(fat, start, flags, cs) && FIRST_CLUSTER < |fat| <= BAD_CLUSTER && ptr < |fat|
    requires h == StartHint(a, |fat|, ptr, NextDir(cs)) && IsValidCluster(|fat|, h)
    requires ext != [] && ext == Plan(a, |fat|, h, |ext|) && Fresh(|fat|, a, ext)
    requires f' == NoFatChain <==> && flags == NoFatChain && IsRun(h, ext)
                                   && (NextDir(cs) == EOF_CLUSTER || IsValidCluster(|fat|, NextDir(cs)))
    ensures cs + ext != [] && (f' == NoFatChain <==> flags == NoFatChain && IsRun((cs + ext)[0], cs + ext))
  {
    if cs == [] {
      StartsThere(a, |fat|, ptr, |ext|);
      assert cs + ext == ext;
    } else if flags == NoFatChain {
      LastValid(fat, start, flags, cs);
      RunOn(start, cs, ext);
      RunIndex(Last(cs) + 1, ext);
      FreshIndex(|fat|, a, ext);
    }
  }

  /** The request for `k` clusters that are to follow the last one of a file. */
  method AskFor(vol: Volume, start: nat, flags: Alloc, last: nat, k: nat, ghost cs: seq<nat>)
    returns (st: Status, res: Chain, ghost ext: seq<nat>)
    requires vol.Valid() && k > 0 && FileOk(vol.fat, vol.inUse, vol.leaked, start, flags, cs)
    requires last == if cs == [] then EOF_CLUSTER else Last(cs)
    modifies vol
    ensures vol.Valid() && Encodes(vol.fat, start, flags, cs) && Elements(cs) !! Elements(ext)
    ensures Took(vol.n, old(vol.inUse), vol.inUse, ext) && SameOutside(vol.fat, old(vol.fat), Elements(ext))
    ensures st == Ok <==> |ext| == k
    ensures st == Ok ==> Encodes(vol.fat, res.dir, res.flags, ext) && vol.leaked == old(vol.leaked)
    ensures vol.served == old(vol.served) + [Request(old(vol.State()), NextDir(cs), k, st == Ok, ext)]
    ensures st == Ok ==> cs + ext != [] && (res.flags == NoFatChain <==>
                                              flags == NoFatChain && IsRun((cs + ext)[0], cs + ext))
    ensures st == Ok && res.flags == NoFatChain ==> vol.fat == old(vol.fat)
    ensures st == Ok && res.flags == NoFatChain && cs != [] ==> res.dir == last + 1
    ensures st != Ok ==> vol.leaked == old(vol.leaked) + Elements(ext)
  {
    LastValid(vol.fat, start, flags, cs);
    var want := Chain(if last == EOF_CLUSTER then EOF_CLUSTER else last + 1, 0, flags);
    st, res, ext := vol.AllocCluster(k, want);
    FreshForFile(vol.n, old(vol.fat), vol.fat, old(vol.inUse), vol.inUse, old(vol.leaked), start, flags, cs, ext);
    if st == Ok {
      ghost var h := StartHint(old(vol.inUse), vol.n, old(vol.cluSrchPtr), NextDir(cs));
      StartValid(old(vol.inUse), vol.n, old(vol.cluSrchPtr), NextDir(cs));
      StaysRun(vol.fat, old(vol.inUse), old(vol.cluSrchPtr), start, flags, cs, ext, h, res.flags);
    }
  }

  /** The allocating part of exfat_map_cluster. */
  method Append(vol: Volume, f: Inode, last: nat, k: nat, num: nat) returns (st: Status, clu: nat, ghost ext: seq<nat>)
    requires vol.Valid() && k > 0 && num == |f.clusters|
    requires FileOk(vol.fat, vol.inUse, vol.leaked, f.startClu, f.flags, f.clusters)
    requires last == if f.clusters == [] then EOF_CLUSTER else Last(f.clusters)
    modifies vol, f`startClu, f`flags, f`clusters
    ensures vol.Valid()
    ensures Encodes(vol.fat, f.startClu, f.flags, f.clusters)
    ensures Took(vol.n, old(vol.inUse), vol.inUse, ext)
    ensures SameOutside(vol.fat, old(vol.fat), Elements(old(f.clusters) + ext))
    ensures st == Ok <==> |ext| == k
    ensures st == Ok ==> f.clusters == old(f.clusters) + ext && clu == Last(ext) && vol.leaked == old(vol.leaked)
    ensures st != Ok ==> f.clusters == old(f.clusters) && f.startClu == old(f.startClu) && f.flags == old(f.flags)
                         && vol.leaked == old(vol.leaked) + Elements(ext)
    ensures vol.served == old(vol.served) + [Request(old(vol.State()), NextDir(old(f.clusters)), k, st == Ok, ext)]
    ensures st == Ok ==> f.clusters != [] && (f.flags == NoFatChain <==>
                                                old(f.flags) == NoFatChain && IsRun(f.clusters[0], f.clusters))
    ensures st == Ok && f.flags == NoFatChain ==> vol.fat == old(vol.fat)
  {
    var res;
    st, res, ext := AskFor(vol, f.startClu, f.flags, last, k, f.clusters);
    ghost var fat1 := vol.fat;
    clu := EOF_CLUSTER;
    if st == Ok {
      clu := Attach(vol, f, last, k, num, res, ext);
    }
    AppendedFat(vol.fat, fat1, old(vol.fat), old(f.clusters), ext);
  }

  /** The volume's part in an operation that took `ext` for a file of clusters `cs`. */
  twostate predicate Extended(vol: Volume, cs: seq<nat>, ext: seq<nat>, done: bool)
    reads vol
  {
    && Took(vol.n, old(vol.inUse), vol.inUse, ext)
    && SameOutside(vol.fat, old(vol.fat), Elements(cs + ext))
    && vol.leaked == if done then old(vol.leaked) else old(vol.leaked) + Elements(ext)
  }

  /** The requests after the cluster at `off` of a file of clusters `cs` was mapped:
      one more when it has to be added. */
  ghost function Asked(m: Marks, cs: seq<nat>, create: bool, off: nat, ok: bool, ext: seq<nat>, served: seq<Request>)
    : (served': seq<Request>)
  {
    if create && off >= |cs| then served + [Request(m, NextDir(cs), off - |cs| + 1, ok, ext)] else served
  }

  /** Append clusters; what is cached of the file stays right. */
  method Extend(vol: Volume, f: Inode, last: nat, k: nat, num: nat) returns (st: Status, clu: nat, ghost ext: seq<nat>)
    requires vol.Valid() && k > 0 && num == |f.clusters|
    requires FileOk(vol.fat, vol.inUse, vol.leaked, f.startClu, f.flags, f.clusters)
    requires last == if f.clusters == [] then EOF_CLUSTER else Last(f.clusters)
    requires CacheOk(f.clusters, f.cache) && HintOk(f.clusters, f.hintOff, f.hintClu)
    modifies vol, f`startClu, f`flags, f`clusters
    ensures vol.Valid() && Encodes(vol.fat, f.startClu, f.flags, f.clusters)
    ensures CacheOk(f.clusters, f.cache) && HintOk(f.clusters, f.hintOff, f.hintClu)
    ensures Extended(vol, old(f.clusters), ext, st == Ok)
    ensures st == Ok <==> |ext| == k
    ensures vol.served == old(vol.served) + [Request(old(vol.State()), NextDir(old(f.clusters)), k, st == Ok, ext)]
    ensures st == Ok ==> f.clusters == old(f.clusters) + ext && ext != [] && clu == f.clusters[num + k - 1]
    ensures st != Ok ==> f.clusters == old(f.clusters) && f.startClu == old(f.startClu) && f.flags == old(f.flags)
  {
    st, clu, ext := Append(vol, f, last, k, num);
    CacheGrows(old(f.clusters), f.clusters, f.cache);
  }

  /** Look up the cluster at `off` of a file of `num` clusters, allocating up to it
      when there is none. */
  method Reach(vol: Volume, f: Inode, off: nat, num: nat) returns (st: Status, clu: nat, ghost ext: seq<nat>)
    requires vol.Valid() && off < EOF_CLUSTER && num == |f.clusters|
    requires FileOk(vol.fat, vol.inUse, vol.leaked, f.startClu, f.flags, f.clusters)
    requires CacheOk(f.clusters, f.cache) && f.nrCaches == |f.cache| && HintOk(f.clusters, f.hintOff, f.hintClu)
    requires f.flags == NoFatChain && f.clusters != [] ==> off <= |f.clusters|
    modifies vol, f`startClu, f`flags, f`clusters, f`cache, f`nrCaches
    ensures vol.Valid() && Encodes(vol.fat, f.startClu, f.flags, f.clusters)
    ensures CacheOk(f.clusters, f.cache) && f.nrCaches == |f.cache| && HintOk(f.clusters, f.hintOff, f.hintClu)
    ensures Extended(vol, old(f.clusters), ext, st == Ok)
    ensures st == Ok <==> |ext| == if off < num then 0 else off - num + 1
    ensures off < num ==> st == Ok
    ensures vol.served == Asked(old(vol.State()), old(f.clusters), true, off, st == Ok, ext, old(vol.served))
    ensures st == Ok ==> f.clusters == old(f.clusters) + ext && clu == f.clusters[off]
    ensures st != Ok ==> f.clusters == old(f.clusters) && f.startClu == old(f.startClu) && f.flags == old(f.flags)
  {
    st, ext := Ok, [];
    var last;
    clu, last := Locate(vol, f, off, num);
    if clu == EOF_CLUSTER {
      st, clu, ext := Extend(vol, f, last, off - num + 1, num);
    } else {
      assert f.clusters + [] == f.clusters;
    }
  }

  /** exfat_map_cluster for a file of `num` clusters: the cluster that is reached is
      the next one to look from. */
  method MapAt(vol: Volume, f: Inode, off: nat, num: nat) returns (st: Status, clu: nat, ghost ext: seq<nat>)
    requires vol.Valid() && off < EOF_CLUSTER && num == |f.clusters|
    requires FileOk(vol.fat, vol.inUse, vol.leaked, f.startClu, f.flags, f.clusters)
    requires CacheOk(f.clusters, f.cache) && f.nrCaches == |f.cache| && HintOk(f.clusters, f.hintOff, f.hintClu)
    requires f.flags == NoFatChain && f.clusters != [] ==> off <= |f.clusters|
    modifies vol, f`startClu, f`flags, f`clusters, f`cache, f`nrCaches, f`hintOff, f`hintClu
    ensures vol.Valid() && Encodes(vol.fat, f.startClu, f.flags, f.clusters)
    ensures CacheOk(f.clusters, f.cache) && f.nrCaches == |f.cache| && HintOk(f.clusters, f.hintOff, f.hintClu)
    ensures Extended(vol, old(f.clusters), ext, st == Ok)
    ensures st == Ok <==> |ext| == if off < num then 0 else off - num + 1
    ensures off < num ==> st == Ok
    ensures vol.served == Asked(old(vol.State()), old(f.clusters), true, off, st == Ok, ext, old(vol.served))
    ensures st == Ok ==> f.clusters == old(f.clusters) + ext && clu == f.clusters[off]
    ensures st == Ok ==> f.hintOff == off && f.hintClu == clu
    ensures st != Ok ==> f.clusters == old(f.clusters) && f.startClu == old(f.startClu) && f.flags == old(f.flags)
  {
    st, clu, ext := Reach(vol, f, off, num);
    if st == Ok {
      f.hintOff, f.hintClu := off, clu;
    }
  }
}

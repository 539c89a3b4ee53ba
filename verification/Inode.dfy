/** The per-inode extent cache of fs/exfat-linux/cache.c: pieces of the cluster
    chain that are consecutive on disk. */
module ExtentCache {
  import opened ExfatTypes

  const MAX_CACHE: nat := 16
  const CACHE_VALID: nat := 0

  /** struct exfat_cache: file clusters fcluster .. fcluster+nrContig are the disk
      clusters dcluster .. dcluster+nrContig. */
  datatype Extent = Extent(fcluster: nat, dcluster: nat, nrContig: nat)

  /** struct exfat_cache_id */
  datatype CacheId = CacheId(id: nat, extent: Extent)

  /** What an extent says about the cluster sequence of its file. */
  ghost predicate Right(cs: seq<nat>, f: nat, d: nat, k: nat)
    decreases k
  {
    f + k < |cs| && cs[f + k] == d + k && (k > 0 ==> Right(cs, f, d, k - 1))
  }

  lemma {:induction false} RightAt(cs: seq<nat>, f: nat, d: nat, k: nat, i: nat)
    requires Right(cs, f, d, k) && i <= k
    ensures f + i < |cs| && cs[f + i] == d + i && Right(cs, f, d, i)
    decreases k
  {
    if i < k { RightAt(cs, f, d, k - 1, i); }
  }

  /** Extents stay right when the file grows. */
  lemma {:induction false} RightGrows(cs: seq<nat>, cs': seq<nat>, f: nat, d: nat, k: nat)
    requires Right(cs, f, d, k) && cs <= cs'
    ensures Right(cs', f, d, k)
    decreases k
  {
    if k > 0 { RightGrows(cs, cs', f, d, k - 1); }
  }

  ghost predicate RightExtent(cs: seq<nat>, e: Extent) {
    Right(cs, e.fcluster, e.dcluster, e.nrContig)
  }

  /** Every extent is right and no two start at the same file cluster. */
  ghost predicate CacheOk(cs: seq<nat>, cache: seq<Extent>) {
    && |cache| <= MAX_CACHE
    && (forall i :: 0 <= i < |cache| ==> RightExtent(cs, cache[i]))
    && (forall i, j :: 0 <= i < j < |cache| ==> cache[i].fcluster != cache[j].fcluster)
  }

  lemma CacheGrows(cs: seq<nat>, cs': seq<nat>, cache: seq<Extent>)
    requires CacheOk(cs, cache) && cs <= cs'
    ensures CacheOk(cs', cache)
  {
    forall i | 0 <= i < |cache| ensures RightExtent(cs', cache[i]) {
      RightGrows(cs, cs', cache[i].fcluster, cache[i].dcluster, cache[i].nrContig);
    }
  }

  /** list_move to the head of the LRU list. */
  function MoveToFront(cache: seq<Extent>, k: nat): (c: seq<Extent>)
    requires k < |cache|
    ensures |c| == |cache|
  {
    [cache[k]] + cache[..k] + cache[k + 1..]
  }

  /** The list after an extent was added: it is at the front, joined with the one that
      starts at the same cluster or, when the list is full, in place of the last. */
  ghost predicate Added(c: seq<Extent>, c': seq<Extent>, e: Extent) {
    if forall i :: 0 <= i < |c| ==> c[i].fcluster != e.fcluster then
      if |c| < 16 then c' == c || c' == [e] + c else c' == [e] + c[..|c| - 1]
    else exists k :: 0 <= k < |c| && c[k].fcluster == e.fcluster && c' == [Longer(c[k], e)] + c[..k] + c[k + 1..]
  }

  ghost function Longer(a: Extent, b: Extent): (e: Extent) {
    if a.nrContig < b.nrContig then a.(nrContig := b.nrContig) else a
  }

  /** The last cluster that a walk to file cluster `f` gets to. */
  ghost function LastReached(cs: seq<nat>, f: nat): (p: nat)
    requires cs != []
  {
    if f < |cs| then f else |cs| - 1
  }

  /** Some extent of the list holds cluster `f` of the file. */
  ghost predicate Covers(cache: seq<Extent>, f: nat) {
    exists i :: 0 <= i < |cache| && cache[i].fcluster <= f <= cache[i].fcluster + cache[i].nrContig
  }

  /** An extent that was added is held, unless there was no memory for it. */
  lemma AddedCovers(c: seq<Extent>, c': seq<Extent>, e: Extent, f: nat)
    requires Added(c, c', e) && e.fcluster <= f <= e.fcluster + e.nrContig
    ensures Covers(c', f) || (c' == c && |c| < 16)
  {
    if c' != [] && c'[0].fcluster == e.fcluster && c'[0].nrContig >= e.nrContig { assert Covers(c', f); }
  }

  lemma MovedAt(cache: seq<Extent>, k: nat, i: nat)
    requires k < |cache| && i < |cache|
    ensures MoveToFront(cache, k)[i] == cache[if i == 0 then k else if i <= k then i - 1 else i]
  {
  }

  lemma MovedOk(cs: seq<nat>, cache: seq<Extent>, k: nat)
    requires CacheOk(cs, cache) && k < |cache|
    ensures CacheOk(cs, MoveToFront(cache, k))
  {
    var c := MoveToFront(cache, k);
    forall i | 0 <= i < |c| ensures RightExtent(cs, c[i]) { MovedAt(cache, k, i); }
    forall i, j | 0 <= i < j < |c| ensures c[i].fcluster != c[j].fcluster {
      MovedAt(cache, k, i);
      MovedAt(cache, k, j);
    }
  }

  lemma MovedSame(cache: seq<Extent>, k: nat)
    requires k < |cache|
    ensures multiset(MoveToFront(cache, k)) == multiset(cache)
  {
    assert cache == cache[..k] + [cache[k]] + cache[k + 1..];
  }

  lemma HitSmall(cs: seq<nat>, cache: seq<Extent>, k: nat)
    requires CacheOk(cs, cache) && k < |cache| && |cs| <= BAD_CLUSTER
    ensures RightExtent(cs, cache[k]) && cache[k].nrContig < EOF_CLUSTER
  {
  }

  /** Replacing the extent at `k` by one with the same file cluster. */
  lemma ExtendedOk(cs: seq<nat>, cache: seq<Extent>, k: nat, e: Extent)
    requires CacheOk(cs, cache) && k < |cache| && RightExtent(cs, e) && e.fcluster == cache[k].fcluster
    ensures CacheOk(cs, cache[k := e])
  {
  }

  /** A new extent at the head of a list that has room and no such file cluster. */
  lemma PushedOk(cs: seq<nat>, cache: seq<Extent>, e: Extent)
    requires CacheOk(cs, cache) && |cache| < MAX_CACHE && RightExtent(cs, e)
    requires forall i :: 0 <= i < |cache| ==> cache[i].fcluster != e.fcluster
    ensures CacheOk(cs, [e] + cache)
  {
    var c := [e] + cache;
    assert forall i :: 1 <= i < |c| ==> c[i] == cache[i - 1];
  }

  lemma DroppedOk(cs: seq<nat>, cache: seq<Extent>)
    requires CacheOk(cs, cache) && cache != []
    ensures CacheOk(cs, cache[..|cache| - 1])
  {
  }

  /** exfat_cache_merge: the extent that starts where `new` does. */
  method FindMerge(cache: seq<Extent>, f: nat) returns (k: nat)
    ensures k <= |cache|
    ensures k < |cache| ==> cache[k].fcluster == f
    ensures k == |cache| ==> forall i :: 0 <= i < |cache| ==> cache[i].fcluster != f
  {
    k := 0;
    while k < |cache| && cache[k].fcluster != f
      invariant k <= |cache| && forall i :: 0 <= i < k ==> cache[i].fcluster != f
    {
      k := k + 1;
    }
  }

  /** No extent of the list starts above `f` and not above `fclus`. */
  ghost predicate Nearest(cache: seq<Extent>, f: nat, fclus: nat) {
    forall i :: 0 <= i < |cache| ==> cache[i].fcluster <= f || fclus < cache[i].fcluster
  }

  /** The loop of exfat_cache_lookup: an extent that holds `fclus`, or else the
      one that starts nearest below it. */
  method Search(cache: seq<Extent>, fclus: nat) returns (hit: nat, offset: nat)
    requires fclus > 0
    ensures hit <= |cache|
    ensures hit == |cache| ==> offset == EOF_CLUSTER && Nearest(cache, 0, fclus)
    ensures hit < |cache| ==>
              var e := cache[hit];
              && 0 < e.fcluster <= fclus && offset <= e.nrContig
              && (if fclus <= e.fcluster + e.nrContig then e.fcluster + offset == fclus
                  else offset == e.nrContig && Nearest(cache, e.fcluster, fclus))
  {
    hit, offset := |cache|, EOF_CLUSTER;
    var best, p := 0, 0;
    while p < |cache|
      invariant p <= |cache| && hit <= |cache| && best <= fclus
      invariant hit == |cache| ==> best == 0 && offset == EOF_CLUSTER
      invariant hit < |cache| ==> && 0 < best == cache[hit].fcluster && offset == cache[hit].nrContig
                                  && best + offset < fclus
      invariant forall i :: 0 <= i < p ==> cache[i].fcluster <= best || fclus < cache[i].fcluster
    {
      if cache[p].fcluster <= fclus && best < cache[p].fcluster {
        hit, best := p, cache[p].fcluster;
        if best + cache[p].nrContig < fclus {
          offset := cache[p].nrContig;
        } else {
          offset := fclus - best;
          return;
        }
      }
      p := p + 1;
    }
  }
}

/** Following a FAT chain while remembering the extent one is in. */
module ChainWalk {
  import opened ExfatTypes
  import opened ExtentCache

  /** The extent ends at file cluster `f`, or is the dummy one at the start. */
  ghost predicate Tracks(cs: seq<nat>, e: Extent, f: nat) {
    if e.fcluster == EOF_CLUSTER then e.dcluster == EOF_CLUSTER && e.nrContig == 0
    else RightExtent(cs, e) && e.fcluster + e.nrContig == f
  }

  /** cache_contiguous and cache_init: going on to file cluster `f`, the extent grows
      when the disk cluster `d` is the next one, else a new extent starts. */
  function GoneOn(cid: CacheId, f: nat, d: nat): (cid': CacheId) {
    var e := cid.extent.(nrContig := cid.extent.nrContig + 1);
    if (e.dcluster + e.nrContig) % 0x1_0000_0000 == d then cid.(extent := e)
    else CacheId(CACHE_VALID, Extent(f, d, 0))
  }

  lemma TracksStep(cs: seq<nat>, cid: CacheId, f: nat)
    requires 0 < f < |cs| <= BAD_CLUSTER && cs[f - 1] < BAD_CLUSTER && 0 < cs[f] && Tracks(cs, cid.extent, f - 1)
    ensures var cid' := GoneOn(cid, f, cs[f]);
            && Tracks(cs, cid'.extent, f) && cid'.extent.fcluster != EOF_CLUSTER
            && (cid'.id == CACHE_VALID || cid'.id == cid.id)
  {
  }
}

/** Inodes: how a file's clusters are reached (fs/exfat-linux/cache.c, inode.c). */
module Inodes {
  import opened ExfatTypes
  import opened ChainWalk
  import opened ExtentCache
  import opened Fat

  /** struct exfat_inode_info */
  class Inode {
    const isFile: bool          // ei->type == TYPE_FILE
    var startClu: nat
    var flags: Alloc
    var iSize: nat              // i_size
    var iSizeOndisk: nat        // i_size_ondisk
    var hintOff: nat            // hint_bmap
    var hintClu: nat
    var cache: seq<Extent>      // cache_lru, most recently used first
    var nrCaches: nat
    var cacheValidId: nat
    ghost var clusters: seq<nat>  // the file's clusters, in order

    /** A new file or directory: no clusters, no size (fs/exfat-linux/namei.c). */
    constructor Empty(isFile: bool)
      ensures this.isFile == isFile && startClu == EOF_CLUSTER && flags == NoFatChain && clusters == []
      ensures iSize == 0 && iSizeOndisk == 0 && hintOff == EOF_CLUSTER && cache == [] && nrCaches == 0
    {
      this.isFile := isFile;
      startClu, flags, clusters := EOF_CLUSTER, NoFatChain, [];
      iSize, iSizeOndisk, hintOff, hintClu := 0, 0, EOF_CLUSTER, EOF_CLUSTER;
      cache, nrCaches, cacheValidId := [], 0, CACHE_VALID + 1;
    }

    /** exfat_cache_lookup: the extent that holds the cluster or, when there is none,
        the one that starts nearest below it. */
    method CacheLookup(fclus: nat) returns (offset: nat, cid: CacheId)
      requires CacheOk(clusters, cache) && fclus > 0 && |clusters| <= BAD_CLUSTER
      modifies this`cache
      ensures CacheOk(clusters, cache) && |cache| == |old(cache)|
      ensures multiset(cache) == multiset(old(cache))
      ensures cid.id == cacheValidId
      ensures offset != EOF_CLUSTER ==> cache != [] && cache[0] == cid.extent
      ensures offset != EOF_CLUSTER ==>
                var e := cid.extent;
                && RightExtent(clusters, e) && e.fcluster + offset <= fclus && offset <= e.nrContig
                && (e.fcluster + offset == fclus || (offset == e.nrContig && Nearest(old(cache), e.fcluster, fclus)))
      ensures offset == EOF_CLUSTER ==> cache == old(cache) && Nearest(cache, 0, fclus)
    {
      var hit;
      hit, offset := Search(cache, fclus);
      cid := CacheId(cacheValidId, Extent(EOF_CLUSTER, EOF_CLUSTER, 0));
      if hit < |cache| {
        cid := CacheId(cacheValidId, cache[hit]);
        HitSmall(clusters, cache, hit);
        UseExtent(hit);
      }
    }

    /** exfat_cache_update_lru */
    method UseExtent(hit: nat)
      requires CacheOk(clusters, cache) && hit < |cache|
      modifies this`cache
      ensures CacheOk(clusters, cache) && cache == MoveToFront(old(cache), hit)
      ensures multiset(cache) == multiset(old(cache))
    {
      MovedOk(clusters, cache, hit);
      MovedSame(cache, hit);
      cache := MoveToFront(cache, hit);
    }

    /** exfat_cache_add. The allocation of a list element may fail, in which case
        nothing is added. */
    method CacheAdd(cid: CacheId)
      requires CacheOk(clusters, cache) && nrCaches == |cache|
      requires cid.extent.fcluster != EOF_CLUSTER ==> RightExtent(clusters, cid.extent)
      modifies this`cache, this`nrCaches
      ensures CacheOk(clusters, cache) && nrCaches == |cache|
      ensures var e := cid.extent;
              if e.fcluster == EOF_CLUSTER || (cid.id != CACHE_VALID && cid.id != cacheValidId) then cache == old(cache)
              else Added(old(cache), cache, e)
    {
      var e := cid.extent;
      if e.fcluster == EOF_CLUSTER {
        return;
      }
      if cid.id != CACHE_VALID && cid.id != cacheValidId {
        return;
      }
      var k := FindMerge(cache, e.fcluster);
      if k < |cache| {
        cache := MergeAt(cache, k, e, clusters);
      } else if nrCaches < MAX_CACHE {
        var gotMemory: bool := *;
        if gotMemory {
          PushedOk(clusters, cache, e);
          cache, nrCaches := [e] + cache, nrCaches + 1;
        }
      } else {
        DroppedOk(clusters, cache);
        PushedOk(clusters, cache[..|cache| - 1], e);
        cache := [e] + cache[..|cache| - 1];
      }
    }

    /** __exfat_cache_inval_inode */
    method CacheInval()
      requires nrCaches == |cache|
      modifies this`cache, this`nrCaches, this`cacheValidId
      ensures cache == [] && nrCaches == 0 && cacheValidId != CACHE_VALID
      ensures old(cacheValidId) < 0x1_0000_0000 ==> cacheValidId != old(cacheValidId) && cacheValidId < 0x1_0000_0000
    {
      while cache != []
        invariant nrCaches == |cache| && cacheValidId == old(cacheValidId)
        decreases |cache|
      {
        cache, nrCaches := cache[1..], nrCaches - 1;
      }
      cacheValidId := (cacheValidId + 1) % 0x1_0000_0000;
      if cacheValidId == CACHE_VALID {
        cacheValidId := cacheValidId + 1;
      }
    }

    /** The walk of exfat_get_cluster from position `from`, keeping track of the
        extent it is in. */
    method Walk(fat: Table, cluster: nat, from: nat, at: nat, id0: CacheId)
      returns (fclus: nat, dclus: nat, lastDclus: nat, cid: CacheId)
      requires IsChain(fat, clusters) && |fat| <= BAD_CLUSTER
      requires from < |clusters| && at == clusters[from] && from < cluster
      requires Tracks(clusters, id0.extent, from)
      ensures fclus == if cluster < |clusters| then cluster else |clusters|
      ensures dclus == if cluster < |clusters| then clusters[cluster] else EOF_CLUSTER
      ensures lastDclus == clusters[fclus - 1]
      ensures Tracks(clusters, cid.extent, LastReached(clusters, cluster))
      ensures cid.extent.fcluster == EOF_CLUSTER ==> cid == id0 && |clusters| == from + 1
      ensures cid.id == CACHE_VALID || cid.id == id0.id
    {
      ChainFits(fat, clusters);
      fclus, dclus, lastDclus, cid := from, at, at, id0;
      var eof := false;
      while fclus < cluster && !eof
        invariant from <= fclus <= cluster && fclus <= |clusters|
        invariant eof <==> fclus == |clusters|
        invariant dclus == if eof then EOF_CLUSTER else clusters[fclus]
        invariant fclus > from ==> lastDclus == clusters[fclus - 1]
        invariant Tracks(clusters, cid.extent, if eof then fclus - 1 else fclus)
        invariant cid.extent.fcluster == EOF_CLUSTER ==> cid == id0 && fclus == if eof then from + 1 else from
        invariant cid.id == CACHE_VALID || cid.id == id0.id
        decreases cluster - fclus
      {
        if fclus > |fat| {
          assert false;
        }
        ChainNext(fat, clusters, fclus);
        var content := EntGet(fat, dclus).content;
        lastDclus, dclus, fclus := dclus, content, fclus + 1;
        ValidNotEof(fat, clusters, fclus - 1);
        ValidNotEof(fat, clusters, fclus);
        eof := content == EOF_CLUSTER;
        if !eof {
          TracksStep(clusters, cid, fclus);
          cid := GoneOn(cid, fclus, dclus);
        }
      }
    }

    /** Walk on from position `from` and remember the extent the walk ends in. */
    method WalkOn(fat: Table, cluster: nat, allowEof: bool, from: nat, at: nat, id0: CacheId)
      returns (st: Status, fclus: nat, dclus: nat, lastDclus: nat)
      requires IsChain(fat, clusters) && |fat| <= BAD_CLUSTER && CacheOk(clusters, cache) && nrCaches == |cache|
      requires from < |clusters| && at == clusters[from] && from < cluster
      requires Tracks(clusters, id0.extent, from) && (id0.extent.fcluster == EOF_CLUSTER ==> from == 0)
      requires id0.id == CACHE_VALID || id0.id == cacheValidId
      modifies this`cache, this`nrCaches
      ensures CacheOk(clusters, cache) && nrCaches == |cache|
      ensures st == if |clusters| <= cluster && !allowEof then EIO else Ok
      ensures fclus == if cluster < |clusters| then cluster else |clusters|
      ensures dclus == if cluster < |clusters| then clusters[cluster] else EOF_CLUSTER
      ensures lastDclus == clusters[fclus - 1]
      ensures st == Ok && 1 < |clusters| ==>
                Covers(cache, LastReached(clusters, cluster)) || (cache == old(cache) && |cache| < 16)
    {
      var cid;
      fclus, dclus, lastDclus, cid := Walk(fat, cluster, from, at, id0);
      ChainFits(fat, clusters);
      ValidNotEof(fat, clusters, cluster);
      st := Ok;
      if dclus == EOF_CLUSTER && !allowEof {
        st := EIO;
      } else {
        CacheAdd(cid);
        if cid.extent.fcluster != EOF_CLUSTER {
          AddedCovers(old(cache), cache, cid.extent, LastReached(clusters, cluster));
        }
      }
    }

    /** exfat_get_cluster: whatever the cache holds, the answer is an element of
        the file's cluster sequence, or its end. */
    method GetCluster(fat: Table, cluster: nat, allowEof: bool)
      returns (st: Status, fclus: nat, dclus: nat, lastDclus: nat)
      requires Encodes(fat, startClu, FatChain, clusters) && |fat| <= BAD_CLUSTER
      requires CacheOk(clusters, cache) && nrCaches == |cache|
      modifies this`cache, this`nrCaches
      ensures CacheOk(clusters, cache) && nrCaches == |cache|
      ensures st == if 0 < |clusters| <= cluster && !allowEof then EIO else Ok
      ensures st == Ok ==> fclus == if cluster < |clusters| then cluster else |clusters|
      ensures st == Ok ==> dclus == if cluster < |clusters| then clusters[cluster] else EOF_CLUSTER
      ensures st == Ok && |clusters| <= cluster ==> lastDclus == if clusters == [] then EOF_CLUSTER else Last(clusters)
      ensures st == Ok && 0 < cluster && 1 < |clusters| ==>
                Covers(cache, LastReached(clusters, cluster))
                || (multiset(cache) == multiset(old(cache)) && |cache| < 16)
    {
      if startClu == FREE_CLUSTER {
        assert false;
      }
      st, fclus, dclus, lastDclus := Ok, 0, startClu, startClu;
      if cluster == 0 || dclus == EOF_CLUSTER {
        return;
      }
      ChainFits(fat, clusters);
      ValidNotEof(fat, clusters, 0);
      var offset, cid := CacheLookup(cluster);
      if offset == EOF_CLUSTER {
        cid := CacheId(CACHE_VALID, Extent(EOF_CLUSTER, EOF_CLUSTER, 0));
      } else {
        RightAt(clusters, cid.extent.fcluster, cid.extent.dcluster, cid.extent.nrContig, offset);
        fclus, dclus := cid.extent.fcluster + offset, cid.extent.dcluster + offset;
      }
      if fclus == cluster {
        return;
      }
      st, fclus, dclus, lastDclus := WalkOn(fat, cluster, allowEof, fclus, dclus, cid);
    }
  }

  /** exfat_cache_merge and the LRU update that follows it. */
  method MergeAt(cache: seq<Extent>, k: nat, e: Extent, ghost cs: seq<nat>) returns (c: seq<Extent>)
    requires k < |cache| && cache[k].fcluster == e.fcluster && CacheOk(cs, cache) && RightExtent(cs, e)
    ensures CacheOk(cs, c) && |c| == |cache|
    ensures c == [Longer(cache[k], e)] + cache[..k] + cache[k + 1..]
  {
    c := cache;
    if e.nrContig > cache[k].nrContig {
      RightAt(cs, e.fcluster, e.dcluster, e.nrContig, 0);
      RightAt(cs, e.fcluster, cache[k].dcluster, cache[k].nrContig, 0);
      ExtendedOk(cs, cache, k, cache[k].(nrContig := e.nrContig));
      c := cache[k := cache[k].(nrContig := e.nrContig)];
    }
    MovedOk(cs, c, k);
    c := MoveToFront(c, k);
  }
}

/** exfat_find_dir_entry of fs/exfat-linux/dir.c on a directory whose clusters
    are a FAT chain: the walk over clusters and entries, with its hint. */
module DirLookup {
  import opened Arith
  import opened Common
  import opened DirSearch
  import opened ExfatTypes
  import opened Fat

  /** struct exfat_hint */
  datatype Hint = Hint(clu: nat, eidx: nat)

  /** exfat_get_dentry: the entry at an index of a cluster. */
  type Getter = (nat, nat) -> Dentry

  /** The entries `es` of a directory are those of its clusters `cs`, in order. */
  ghost predicate Stored(fat: Table, start: nat, cs: seq<nat>, dpc: nat, get: Getter, es: seq<Dentry>) {
    && |fat| <= BAD_CLUSTER && IsChain(fat, cs) && cs[0] == start && dpc > 0 && |es| == |cs| * dpc
    && forall k :: 0 <= k < |es| ==> es[k] == EntryOf(cs, dpc, get, k)
  }

  ghost function EntryOf(cs: seq<nat>, dpc: nat, get: Getter, k: nat): (e: Dentry)
    requires dpc > 0
  {
    if Quot(k, dpc) < |cs| then get(cs[Quot(k, dpc)], Rem(k, dpc)) else Unused
  }

  /** The cluster of entry k, or the end of the chain behind the last. */
  ghost function ClusterOf(cs: seq<nat>, dpc: nat, k: nat): (clu: nat)
    requires dpc > 0
  {
    if Quot(k, dpc) < |cs| then cs[Quot(k, dpc)] else EOF_CLUSTER
  }

  ghost predicate HintFits(cs: seq<nat>, dpc: nat, n: nat, h: Hint)
    requires dpc > 0
  {
    h.eidx > 0 ==> h.eidx < n && h.clu == ClusterOf(cs, dpc, h.eidx)
  }

  /** What a pass over the directory has come to. */
  datatype Pass = Going(st: Step) | NotFound | Found(hit: Hit)

  ghost predicate Same(up: Upcase, q: Query, es: seq<Dentry>, whole: Option<Hit>, k: nat, stop: nat, p: Pass)
    requires stop <= |es|
  {
    match p
    case Going(st) => whole == Scan(up, q, es, k, stop, st)
    case NotFound => whole == None
    case Found(hit) => whole == Some(hit)
  }

  lemma ScanStep(up: Upcase, q: Query, es: seq<Dentry>, k: nat, stop: nat, st: Step)
    requires stop <= |es|
    ensures k >= stop ==> Scan(up, q, es, k, stop, st) == None
    ensures k < stop && es[k].Unused? ==> Scan(up, q, es, k, stop, st) == None
    ensures k < stop && !es[k].Unused? ==>
              var r := Advance(up, q, st, es[k]);
              Scan(up, q, es, k, stop, st) == if r.None? then Some(Hit(k - SetSize(st), k + 1))
                                              else Scan(up, q, es, k + 1, stop, r.value)
  {
  }

  /** The entries of one cluster, from index Rem(dentry, dpc) on. */
  method ScanCluster(up: Upcase, q: Query, get: Getter, dpc: nat, clu: nat, from: nat, st: Step, rewind: bool, end: nat,
                     ghost stop: nat, ghost fat: Table, ghost start: nat, ghost cs: seq<nat>, ghost es: seq<Dentry>,
                     ghost whole: Option<Hit>)
    returns (dentry: nat, p: Pass)
    requires Stored(fat, start, cs, dpc, get, es) && from < |es| && clu == ClusterOf(cs, dpc, from)
    requires stop == (if rewind then end else |es|) && stop <= |es|
    requires whole == Scan(up, q, es, from, stop, st) && from <= stop
    ensures from <= dentry <= stop && Same(up, q, es, whole, dentry, stop, p)
    ensures p.Going? ==> Rem(dentry, dpc) == 0 && Quot(dentry, dpc) == Quot(from, dpc) + 1
    ensures p.Found? ==> dentry < |es| && Quot(dentry, dpc) == Quot(from, dpc) && p.hit.end == dentry + 1
  {
    dentry, p := from, Going(st);
    var i := Rem(from, dpc);
    BelowEnd(cs, dpc, |es|, from);
    while i < dpc && p.Going?
      invariant from <= dentry <= stop && Same(up, q, es, whole, dentry, stop, p)
      invariant p.Found? ==> p.hit.end == dentry + 1
      invariant i < dpc ==> dentry < |es| && Rem(dentry, dpc) == i && Quot(dentry, dpc) == Quot(from, dpc)
      invariant i >= dpc ==> p.Going? && Rem(dentry, dpc) == 0 && Quot(dentry, dpc) == Quot(from, dpc) + 1
      decreases dpc - i, p.Going?
    {
      ScanStep(up, q, es, dentry, stop, p.st);
      var e := get(clu, i);
      assert e == es[dentry];
      if (rewind && dentry == end) || e.Unused? {
        p := NotFound;
      } else {
        p := Took(up, q, p.st, e, dentry);
        if p.Going? {
          QuotStep(dentry, dpc);
          StepBelow(cs, dpc, |es|, dentry);
          i, dentry := i + 1, dentry + 1;
        }
      }
    }
  }

  function Took(up: Upcase, q: Query, st: Step, e: Dentry, dentry: nat): (p: Pass) {
    var r := Advance(up, q, st, e);
    if r.None? then Found(Hit(dentry - SetSize(st), dentry + 1)) else Going(r.value)
  }

  lemma BelowEnd(cs: seq<nat>, dpc: nat, n: nat, k: nat)
    requires dpc > 0 && n == |cs| * dpc && k < n
    ensures Quot(k, dpc) < |cs|
  {
    QuotBelow(k, |cs|, dpc);
  }

  /** The next entry is in the directory, or the one behind its end. */
  lemma StepBelow(cs: seq<nat>, dpc: nat, n: nat, k: nat)
    requires dpc > 0 && n == |cs| * dpc && k < n
    ensures k + 1 <= n && (Rem(k, dpc) != dpc - 1 ==> k + 1 < n)
  {
    if k + 1 == n {
      QuotOf(|cs|, 0, dpc);
      QuotStep(k, dpc);
    }
  }

  /** One pass, from entry `from` of the cluster `clu` on. */
  method ScanPass(up: Upcase, q: Query, get: Getter, dpc: nat, fat: Table, clu: nat, from: nat, rewind: bool, end: nat,
                  ghost stop: nat, ghost start: nat, ghost cs: seq<nat>, ghost es: seq<Dentry>)
    returns (r: Option<Hit>, last: nat, lastClu: nat)
    requires Stored(fat, start, cs, dpc, get, es) && from <= stop <= |es| && clu == ClusterOf(cs, dpc, from)
    requires stop == if rewind then end else |es|
    ensures r == Scan(up, q, es, from, stop, AtFile)
    ensures r.Some? ==> last < |es| && lastClu == ClusterOf(cs, dpc, last) && r.value.end == last + 1
  {
    var p := Going(AtFile);
    r, last, lastClu := None, from, clu;
    ghost var whole := Scan(up, q, es, from, stop, AtFile);
    while lastClu != EOF_CLUSTER && p.Going?
      invariant from <= last <= stop && Same(up, q, es, whole, last, stop, p)
      invariant p.Going? ==> lastClu == ClusterOf(cs, dpc, last)
      invariant p.Found? ==> last < |es| && lastClu == ClusterOf(cs, dpc, last) && p.hit.end == last + 1
      decreases |es| - last, p.Going?
    {
      NotEof(fat, cs, dpc, |es|, last);
      ghost var was := last;
      last, p := ScanCluster(up, q, get, dpc, lastClu, last, p.st, rewind, end, stop, fat, start, cs, es, whole);
      if p.Going? {
        NextOf(fat, cs, dpc, was, last);
        lastClu := EntGet(fat, lastClu).content;
      }
    }
    if p.Going? { AtEof(fat, cs, dpc, |es|, last); ScanStep(up, q, es, last, stop, p.st); }
    if p.Found? { r := Some(p.hit); }
  }

  lemma NotEof(fat: Table, cs: seq<nat>, dpc: nat, n: nat, k: nat)
    requires dpc > 0 && n == |cs| * dpc && k <= n && ClusterOf(cs, dpc, k) != EOF_CLUSTER
    ensures k < n
  {
    if k == n { QuotOf(|cs|, 0, dpc); }
  }

  lemma AtEof(fat: Table, cs: seq<nat>, dpc: nat, n: nat, k: nat)
    requires IsChain(fat, cs) && |fat| <= BAD_CLUSTER
    requires dpc > 0 && n == |cs| * dpc && k <= n && ClusterOf(cs, dpc, k) == EOF_CLUSTER
    ensures k == n
  {
    if k < n {
      BelowEnd(cs, dpc, n, k);
      ValidNotEof(fat, cs, Quot(k, dpc));
    }
  }

  lemma NextOf(fat: Table, cs: seq<nat>, dpc: nat, k: nat, k': nat)
    requires IsChain(fat, cs) && |fat| <= BAD_CLUSTER && dpc > 0 && Quot(k, dpc) < |cs|
             && Quot(k', dpc) == Quot(k, dpc) + 1
    ensures EntGet(fat, ClusterOf(cs, dpc, k)).content == ClusterOf(cs, dpc, k')
  {
    ChainNext(fat, cs, Quot(k, dpc));
  }

  /** The hint after a set that ends with entry `last` was found: the entry after
      it, or none at the end of the directory. */
  method HintAfter(dpc: nat, fat: Table, start: nat, last: nat, lastClu: nat, ghost cs: seq<nat>, ghost n: nat)
    returns (h: Hint)
    requires IsChain(fat, cs) && |fat| <= BAD_CLUSTER && dpc > 0 && n == |cs| * dpc && last < n
    requires lastClu == ClusterOf(cs, dpc, last)
    ensures HintFits(cs, dpc, n, h) && h.eidx == if last + 1 < n then last + 1 else 0
  {
    BelowEnd(cs, dpc, n, last);
    QuotStep(last, dpc);
    StepBelow(cs, dpc, n, last);
    h := Hint(lastClu, last + 1);
    if Rem(last + 1, dpc) == 0 {
      NextOf(fat, cs, dpc, last, last + 1);
      var clu := EntGet(fat, lastClu).content;
      if last + 1 < n { BelowEnd(cs, dpc, n, last + 1); ValidNotEof(fat, cs, Quot(last + 1, dpc)); }
      if clu == EOF_CLUSTER {
        h := Hint(start, 0);
      } else {
        NotEof(fat, cs, dpc, n, last + 1);
        h := Hint(clu, last + 1);
      }
    }
  }

  /** exfat_find_dir_entry: a pass from the hint to the end, and if the name was
      not found there, one from the start to the hint. */
  method FindDirEntry(up: Upcase, q: Query, get: Getter, dpc: nat, fat: Table, start: nat, hint: Hint,
                      ghost cs: seq<nat>, ghost es: seq<Dentry>)
    returns (r: Option<Hit>, hint': Hint)
    requires Stored(fat, start, cs, dpc, get, es) && HintFits(cs, dpc, |es|, hint)
    ensures r == Search(up, q, es, hint.eidx)
    ensures HintFits(cs, dpc, |es|, hint')
    ensures hint'.eidx == if r.Some? && r.value.end < |es| then r.value.end else 0
  {
    FirstCluster(cs, dpc);
    var clu := if hint.eidx > 0 then hint.clu else start;
    var last, lastClu;
    r, last, lastClu := ScanPass(up, q, get, dpc, fat, clu, hint.eidx, false, 0, |es|, start, cs, es);
    if r.None? && hint.eidx > 0 {
      r, last, lastClu := ScanPass(up, q, get, dpc, fat, start, 0, true, hint.eidx, hint.eidx, start, cs, es);
    }
    hint' := Hint(start, 0);
    if r.Some? { hint' := HintAfter(dpc, fat, start, last, lastClu, cs, |es|); }
  }

  lemma FirstCluster(cs: seq<nat>, dpc: nat)
    requires dpc > 0 && cs != []
    ensures ClusterOf(cs, dpc, 0) == cs[0]
  {
  }

  /** On a directory of entry sets with different names, from any hint the driver
      may hold, the search gives what a scan of all entries gives: the position
      of the one set with the name looked for. The hint it leaves is again one
      that the driver may hold. */
  method Lookup(up: Upcase, hash: NameHash, q: Query, get: Getter, dpc: nat, fat: Table, start: nat, hint: Hint,
                ghost cs: seq<nat>, ghost es: seq<Dentry>, ghost a: seq<Block>, ghost b: seq<Block>)
    returns (r: Option<Hit>, hint': Hint, ghost a': seq<Block>, ghost b': seq<Block>, ghost at: nat)
    requires Stored(fat, start, cs, dpc, get, es) && HintFits(cs, dpc, |es|, hint) && q.hash == hash(Up(up, q.name))
    requires IsDir(up, hash, a + b, es) && HintOk(up, hash, a, b, hint.eidx)
    ensures Answers(up, hash, q, a + b, es, r, at)
    ensures r == FirstMatch(up, hash, q, a + b, 0)
    ensures HintFits(cs, dpc, |es|, hint') && a' + b' == a + b && HintOk(up, hash, a', b', hint'.eidx)
  {
    r, hint' := FindDirEntry(up, q, get, dpc, fat, start, hint, cs, es);
    at, a', b' := AfterSearch(up, hash, q, a, b, es, hint.eidx, r, hint'.eidx);
  }

  lemma AfterSearch(up: Upcase, hash: NameHash, q: Query, a: seq<Block>, b: seq<Block>, es: seq<Dentry>, hint: nat,
                    r: Option<Hit>, next: nat)
    returns (at: nat, a': seq<Block>, b': seq<Block>)
    requires IsDir(up, hash, a + b, es) && HintOk(up, hash, a, b, hint) && hint <= |es|
    requires q.hash == hash(Up(up, q.name))
    requires r == Search(up, q, es, hint) && next == if r.Some? && r.value.end < |es| then r.value.end else 0
    ensures Answers(up, hash, q, a + b, es, r, at)
    ensures r == FirstMatch(up, hash, q, a + b, 0)
    ensures a' + b' == a + b && HintOk(up, hash, a', b', next)
  {
    HintedIsPlain(up, hash, q, a, b, es, hint);
    at := MatchAnswers(up, hash, q, a + b, es);
    a', b' := NextHint(up, hash, q, a + b, next);
  }

  lemma NextHint(up: Upcase, hash: NameHash, q: Query, bs: seq<Block>, next: nat)
    returns (a': seq<Block>, b': seq<Block>)
    requires next > 0 ==> FirstMatch(up, hash, q, bs, 0).Some? && next == FirstMatch(up, hash, q, bs, 0).value.end
    ensures a' + b' == bs && HintOk(up, hash, a', b', next)
  {
    a', b' := [], bs;
    if next > 0 { a', b' := HintAgain(up, hash, q, bs); }
  }
}

/** The sector caches of fs/exfat/exfat_cache.c: a ring of all entries from the
    most to the least recently used, and hash chains to find them. */
module SectorCache {
  import opened Common
  import opened HashChains
  import opened Rings

  /** BUF_CACHE_T without its links. */
  datatype Entry = Entry(drv: int, sec: nat, locked: bool)

  const NO_DRIVE: int := -1

  /** The ring of the entries 0 .. n-1 with head n. */
  ghost predicate LruOk(next: Links, prev: Links, n: nat, lru: seq<nat>) {
    && |next| == |prev| == n + 1 && |lru| == n
    && Ring(next, prev, n, lru)
    && forall i :: 0 <= i < n ==> i in lru
  }

  predicate Live(e: Entry, drv: int) {
    e.drv == drv
  }

  function Bucket(sec: nat, spc: nat, size: nat): (b: nat)
    requires spc > 0 && size > 0
    ensures b < size
  {
    (sec + sec / spc) % size
  }

  /** Every live entry is in its sector's chain, and no sector is there twice. */
  ghost predicate EntriesOk(es: seq<Entry>, home: seq<nat>, drv: int, spc: nat, size: nat)
    requires spc > 0 && size > 0
  {
    && |es| == |home|
    && (forall i :: 0 <= i < |es| && Live(es[i], drv) ==> home[i] == Bucket(es[i].sec, spc, size))
    && (forall i, j :: 0 <= i < j < |es| && Live(es[i], drv) && Live(es[j], drv) ==> es[i].sec != es[j].sec)
  }

  /** The entry that holds a sector, as a reader sees it. */
  ghost predicate Holds(es: seq<Entry>, drv: int, sec: nat, i: nat) {
    i < |es| && Live(es[i], drv) && es[i].sec == sec
  }

  /** Links lead to nodes. */
  ghost predicate InRange(hn: Links, hp: Links) {
    |hn| == |hp| && forall i :: 0 <= i < |hn| ==> hn[i] < |hn| && hp[i] < |hn|
  }

  /** Entries in no chain are dead and not locked. */
  ghost predicate LostOk(lost: set<nat>, es: seq<Entry>, drv: int) {
    forall x :: x in lost ==> x < |es| && !Live(es[x], drv) && !es[x].locked
  }

  /** An entry may be unhashed: it is in a chain, or unhashing it is harmless. */
  predicate Safe(hn: Links, hp: Links, lost: set<nat>, x: nat) {
    x in lost ==> x < |hn| && x < |hp| && hn[x] < |hp| && hp[x] < |hn| && Harmless(hn, hp, lost, x)
  }

  /** Only the least recently used entry may be in no chain, and it is safe. */
  ghost predicate Tidy(hn: Links, hp: Links, lost: set<nat>, lru: seq<nat>) {
    forall x :: x in lost ==> lru != [] && x == lru[|lru| - 1] && Safe(hn, hp, lost, x)
  }

  /** The entry that is used next: the least recently used one that is not locked. */
  ghost predicate Victim(lru: seq<nat>, es: seq<Entry>, x: nat) {
    && x in lru && x < |es| && !es[x].locked
    && forall i :: i in Behind(lru, x) ==> i < |es| && es[i].locked
  }

  /** move_to_mru */
  lemma MovedToFront(next: Links, prev: Links, n: nat, lru: seq<nat>, x: nat)
    requires LruOk(next, prev, n, lru) && x < n
    ensures next[x] < |prev| && prev[x] < |next| && x in lru
    ensures var next1, prev1 := next[prev[x] := next[x]], prev[next[x] := prev[x]];
            && next1[n] < |prev1|
            && LruOk(next1[x := next1[n]][n := x], prev1[x := n][next1[n] := x], n, [x] + Minus(lru, x))
  {
    RingMinus(next, prev, n, lru, x);
    MinusHas(lru, x);
    PushFront(next[prev[x] := next[x]], prev[next[x] := prev[x]], n, Minus(lru, x), x);
    forall i | 0 <= i < n ensures i in [x] + Minus(lru, x) {
      if i != x { assert i in Minus(lru, x); }
    }
  }

  /** move_to_lru */
  lemma MovedToBack(next: Links, prev: Links, n: nat, lru: seq<nat>, x: nat)
    requires LruOk(next, prev, n, lru) && x < n
    ensures next[x] < |prev| && prev[x] < |next| && x in lru
    ensures var next1, prev1 := next[prev[x] := next[x]], prev[next[x] := prev[x]];
            && prev1[n] < |next1|
            && LruOk(next1[x := n][prev1[n] := x], prev1[x := prev1[n]][n := x], n, Minus(lru, x) + [x])
  {
    RingMinus(next, prev, n, lru, x);
    MinusHas(lru, x);
    PushBack(next[prev[x] := next[x]], prev[next[x] := prev[x]], n, Minus(lru, x), x);
    forall i | 0 <= i < n ensures i in Minus(lru, x) + [x] {
      if i != x { assert i in Minus(lru, x); }
    }
  }

  /** The links of the hash chains, forth and back. */
  type Hash = (Links, Links)

  /** What buf_cache_remove_hash and buf_cache_insert_hash do to the links. */
  function Unhashed(l: Hash, x: nat): (r: Hash) {
    if x < |l.0| && x < |l.1| && l.0[x] < |l.1| && l.1[x] < |l.0|
    then (l.0[l.1[x] := l.0[x]], l.1[l.0[x] := l.1[x]]) else l
  }

  function Hashed(l: Hash, h: nat, x: nat): (r: Hash) {
    if x < |l.0| && x < |l.1| && h < |l.0| && l.0[h] < |l.1|
    then (l.0[x := l.0[h]][h := x], l.1[x := h][l.0[h] := x]) else l
  }

  /** After entry x was given to a sector of the chain with head h, and after the
      sector could not be read. */
  function Rehashed(l: Hash, h: nat, x: nat, readable: bool): (r: Hash) {
    var l' := Hashed(Unhashed(l, x), h, x);
    if readable then l' else Unhashed(l', x)
  }

  /** The entries below k hashed one after the other. */
  function HashedAll(l: Hash, h: nat, k: nat): (r: Hash) {
    if k == 0 then l else Hashed(HashedAll(l, h, k - 1), h, k - 1)
  }

  /** Nodes that are linked to themselves. */
  function Alone(k: nat): (l: Links)
    ensures |l| == k && forall i :: 0 <= i < k ==> l[i] == i
  {
    seq(k, i => i)
  }

  function AllDead(n: nat): (es: seq<Entry>)
    ensures |es| == n
  {
    if n == 0 then [] else AllDead(n - 1) + [DEAD]
  }

  lemma {:induction false} AllDeadAt(n: nat, i: nat)
    requires i < n
    ensures AllDead(n)[i] == DEAD
  {
    if i < n - 1 { AllDeadAt(n - 1, i); }
  }

  lemma AllDeadOk(n: nat, home: seq<nat>, drv: int, spc: nat, size: nat)
    requires |home| == n && spc > 0 && size > 0 && drv != NO_DRIVE
    ensures EntriesOk(AllDead(n), home, drv, spc, size) && LostOk({}, AllDead(n), drv)
    ensures forall s: nat, i: nat :: !Holds(AllDead(n), drv, s, i)
  {
    forall i | 0 <= i < n ensures !Live(AllDead(n)[i], drv) { AllDeadAt(n, i); }
  }

  function Descending(k: nat): (s: seq<nat>) {
    if k == 0 then [] else [k - 1] + Descending(k - 1)
  }

  /** The head of the chain of a sector. */
  function Head(n: nat, sec: nat, spc: nat, size: nat): (h: nat)
    requires spc > 0 && size > 0
  {
    n + Bucket(sec, spc, size)
  }

  class Cache {
    const n: nat
    const size: nat
    const spc: nat
    const drv: int
    var next: Links
    var prev: Links
    var hashNext: Links
    var hashPrev: Links
    var entries: seq<Entry>
    ghost var lru: seq<nat>
    ghost var chains: seq<seq<nat>>
    ghost var home: seq<nat>
    /** The entries in no chain: a record that the driver does not keep. */
    var lost: set<nat>

    ghost predicate Valid()
      reads this
    {
      && size > 0 && spc > 0 && drv != NO_DRIVE && |chains| == size
      && LruOk(next, prev, n, lru)
      && Chained(hashNext, hashPrev, n, chains, home, lost) && InRange(hashNext, hashPrev)
      && EntriesOk(entries, home, drv, spc, size) && LostOk(lost, entries, drv)
    }

    function HashLinks(): (l: Hash)
      reads this
    {
      (hashNext, hashPrev)
    }

    ghost predicate Settled()
      reads this
    {
      Tidy(hashNext, hashPrev, lost, lru)
    }

    /** A request for a sector can be served: it is cached, or the entry that is
        used next may be unhashed. */
    ghost predicate Ready(sec: nat)
      reads this
    {
      || (exists i :: Holds(entries, drv, sec, i))
      || (exists x :: Victim(lru, entries, x) && Safe(hashNext, hashPrev, lost, x))
    }

    /** buf_init: all entries are dead, in the ring and in the chain of the sector
        number that stands for none. */
    constructor Init(n: nat, size: nat, spc: nat, drv: int)
      requires size > 0 && spc > 0 && drv != NO_DRIVE
      ensures Valid() && lost == {} && this.n == n && this.drv == drv
      ensures forall s: nat, i: nat :: !Holds(entries, drv, s, i)
      ensures this.size == size && this.spc == spc && entries == AllDead(n) && lru == Descending(n)
      ensures HashLinks() == HashedAll((Alone(n + size), Alone(n + size)), Head(n, DEAD.sec, spc, size), n)
    {
      this.n, this.size, this.spc, this.drv := n, size, spc, drv;
      next, prev := seq(n + 1, _ => n), seq(n + 1, _ => n);
      hashNext, hashPrev := Alone(n + size), Alone(n + size);
      entries, lost := AllDead(n), {};
      lru, chains, home := [], seq(size, _ => []), seq(n, _ => 0);
      new;
      NoChains(hashNext, hashPrev, n, chains, home);
      InitLinks();
    }

    /** All entries are put into the ring and into their chain. */
    method InitLinks()
      requires size > 0 && spc > 0 && drv != NO_DRIVE && |chains| == size && entries == AllDead(n) && lost == {}
      requires |next| == |prev| == n + 1 && Ring(next, prev, n, []) && lru == []
      requires Chained(hashNext, hashPrev, n, chains, home, EntriesFrom(0, n)) && InRange(hashNext, hashPrev)
      modifies this`next, this`prev, this`lru, this`hashNext, this`hashPrev, this`chains, this`home
      ensures Valid() && lru == Descending(n) && (forall s: nat, i: nat :: !Holds(entries, drv, s, i))
      ensures HashLinks() == HashedAll(old(HashLinks()), Head(n, DEAD.sec, spc, size), n)
    {
      InitRing();
      InitChains();
      AllDeadOk(n, home, drv, spc, size);
    }

    method InitRing()
      requires |next| == |prev| == n + 1 && Ring(next, prev, n, []) && lru == []
      modifies this`next, this`prev, this`lru
      ensures LruOk(next, prev, n, lru) && lru == Descending(n)
    {
      for i := 0 to n
        invariant |next| == |prev| == n + 1 && Ring(next, prev, n, lru) && |lru| == i && lru == Descending(i)
        invariant forall k :: 0 <= k < |next| ==> (k in lru <==> k < i)
      {
        PushFront(next, prev, n, lru, i);
        next, prev := next[i := next[n]][n := i], prev[i := n][next[n] := i];
        lru := [i] + lru;
      }
    }

    method InitChains()
      requires size > 0 && spc > 0 && |chains| == size && entries == AllDead(n)
      requires Chained(hashNext, hashPrev, n, chains, home, EntriesFrom(0, n)) && InRange(hashNext, hashPrev)
      modifies this`hashNext, this`hashPrev, this`chains, this`home
      ensures Chained(hashNext, hashPrev, n, chains, home, {}) && |chains| == size && InRange(hashNext, hashPrev)
      ensures HashLinks() == HashedAll(old(HashLinks()), Head(n, DEAD.sec, spc, size), n)
    {
      for i := 0 to n
        invariant |chains| == size && Chained(hashNext, hashPrev, n, chains, home, EntriesFrom(i, n))
        invariant InRange(hashNext, hashPrev)
        invariant HashLinks() == HashedAll(old(HashLinks()), Head(n, DEAD.sec, spc, size), i)
      {
        HashDead(i, old(HashLinks()));
      }
    }

    method HashDead(i: nat, ghost l: Hash)
      requires size > 0 && spc > 0 && |chains| == size && entries == AllDead(n) && i < n
      requires Chained(hashNext, hashPrev, n, chains, home, EntriesFrom(i, n)) && InRange(hashNext, hashPrev)
      requires HashLinks() == HashedAll(l, Head(n, DEAD.sec, spc, size), i)
      modifies this`hashNext, this`hashPrev, this`chains, this`home
      ensures |chains| == size && Chained(hashNext, hashPrev, n, chains, home, EntriesFrom(i + 1, n))
      ensures InRange(hashNext, hashPrev)
      ensures HashLinks() == HashedAll(l, Head(n, DEAD.sec, spc, size), i + 1)
    {
      EntriesFromHas(i + 1, n);
      AllDeadAt(n, i);
      HashOne(i, EntriesFrom(i, n));
      assert EntriesFrom(i, n) - {i} == EntriesFrom(i + 1, n);
    }

    /** buf_cache_insert_hash */
    method HashOne(x: nat, ghost out: set<nat>)
      requires size > 0 && spc > 0 && |chains| == size && x < n == |entries| && x in out
      requires Chained(hashNext, hashPrev, n, chains, home, out) && InRange(hashNext, hashPrev)
      modifies this`hashNext, this`hashPrev, this`chains, this`home
      ensures Chained(hashNext, hashPrev, n, chains, home, out - {x}) && |chains| == size && InRange(hashNext, hashPrev)
      ensures home == old(home)[x := Bucket(entries[x].sec, spc, size)]
      ensures HashLinks() == Hashed(old(HashLinks()), Head(n, entries[x].sec, spc, size), x)
    {
      var off := (entries[x].sec + entries[x].sec / spc) % size;
      InsertHash(hashNext, hashPrev, n, chains, home, out, x, off);
      chains, home := chains[off := [x] + chains[off]], home[x := off];
      var head := n + off;
      hashNext, hashPrev := hashNext[x := hashNext[head]][head := x], hashPrev[x := head][hashNext[head] := x];
    }

    /** move_to_mru */
    method MoveToMru(x: nat)
      requires LruOk(next, prev, n, lru) && x < n
      modifies this`next, this`prev, this`lru
      ensures LruOk(next, prev, n, lru) && x in old(lru) && lru == [x] + Minus(old(lru), x)
    {
      MovedToFront(next, prev, n, lru, x);
      next, prev := next[prev[x] := next[x]], prev[next[x] := prev[x]];
      next, prev := next[x := next[n]][n := x], prev[x := n][next[n] := x];
      lru := [x] + Minus(lru, x);
    }

    /** move_to_lru */
    method MoveToLru(x: nat)
      requires LruOk(next, prev, n, lru) && x < n
      modifies this`next, this`prev, this`lru
      ensures LruOk(next, prev, n, lru) && x in old(lru) && lru == Minus(old(lru), x) + [x]
    {
      MovedToBack(next, prev, n, lru, x);
      next, prev := next[prev[x] := next[x]], prev[next[x] := prev[x]];
      next, prev := next[x := n][prev[n] := x], prev[x := prev[n]][n := x];
      lru := Minus(lru, x) + [x];
    }

    /** buf_cache_remove_hash: of an entry in a chain, or once more of one in none. */
    method Unhash(x: nat)
      requires Chained(hashNext, hashPrev, n, chains, home, lost) && InRange(hashNext, hashPrev)
      requires Entries(n, lost) && x < n && Safe(hashNext, hashPrev, lost, x)
      modifies this`hashNext, this`hashPrev, this`chains, this`lost
      ensures Chained(hashNext, hashPrev, n, chains, home, lost) && InRange(hashNext, hashPrev)
      ensures |chains| == |old(chains)| && lost == old(lost) + {x}
      ensures old(lost) == {} ==> Safe(hashNext, hashPrev, {x}, x)
      ensures HashLinks() == Unhashed(old(HashLinks()), x)
    {
      if x in lost {
        HarmlessKeeps(hashNext, hashPrev, n, chains, home, lost, x);
        assert lost + {x} == lost;
      } else {
        RemoveHash(hashNext, hashPrev, n, chains, home, lost, x);
        StaysStale(hashNext, hashPrev, n, chains, home, lost, x);
        chains := chains[home[x] := Minus(chains[home[x]], x)];
      }
      hashNext, hashPrev := hashNext[hashPrev[x] := hashNext[x]], hashPrev[hashNext[x] := hashPrev[x]];
      lost := lost + {x};
    }

    /** buf_cache_find: a walk along the chain of the sector. */
    method Find(sec: nat) returns (x: Option<nat>)
      requires Valid()
      ensures x.Some? ==> Holds(entries, drv, sec, x.value)
      ensures x.None? ==> forall i :: !Holds(entries, drv, sec, i)
    {
      x := None;
      var off := Bucket(sec, spc, size);
      ghost var chain := chains[off];
      var bp := hashNext[n + off];
      ghost var k := 0;
      FirstIn(hashNext, hashPrev, n + off, chain);
      while bp != n + off && x.None?
        invariant k <= |chain| && bp == (if k < |chain| then chain[k] else n + off)
        invariant x.Some? ==> Holds(entries, drv, sec, x.value)
        invariant x.None? ==> forall j :: 0 <= j < k ==> !Holds(entries, drv, sec, chain[j])
        decreases |chain| - k, x.None?
      {
        assert chain[k] in chain;
        InChain(hashNext, hashPrev, n, chains, home, lost, off, bp);
        if entries[bp].drv == drv && entries[bp].sec == sec {
          x := Some(bp);
        } else {
          NextIn(hashNext, hashPrev, n + off, chain, k);
          bp := hashNext[bp];
          k := k + 1;
        }
      }
      if x.None? {
        forall i ensures !Holds(entries, drv, sec, i) {
          if Holds(entries, drv, sec, i) { InHome(entries, home, drv, spc, size, i); }
        }
      }
    }

    /** buf_cache_get without the move: back from the least recently used entry
        over those that are locked. */
    method FindVictim() returns (x: nat)
      requires LruOk(next, prev, n, lru) && |entries| == n
      requires exists i :: 0 <= i < n && !entries[i].locked
      ensures Victim(lru, entries, x)
    {
      ghost var k := n - 1;
      FirstIn(next, prev, n, lru);
      InRing(next, prev, n, lru);
      x := prev[n];
      while entries[x].locked
        invariant 0 <= k < n && x == lru[k] && x < n
        invariant forall j :: k < j < n ==> lru[j] < n && entries[lru[j]].locked
        decreases k
      {
        NextIn(next, prev, n, lru, k);
        Unlocked(entries, lru, k);
        x := prev[x];
        k := k - 1;
      }
      PlaceIs(lru, k);
    }

    /** Give entry x to a sector that is not cached. */
    method Reuse(x: nat, sec: nat)
      requires Valid() && x < n && Safe(hashNext, hashPrev, lost, x)
      requires forall i :: !Holds(entries, drv, sec, i)
      modifies this
      ensures Valid() && lost == old(lost) - {x}
      ensures entries == old(entries)[x := Entry(drv, sec, false)]
      ensures HashLinks() == Rehashed(old(HashLinks()), Head(n, sec, spc, size), x, true)
      ensures x in old(lru) && lru == [x] + Minus(old(lru), x)
    {
      EntriesPut(entries, home, drv, spc, size, x, sec);
      MoveToMru(x);
      Unhash(x);
      entries := entries[x := Entry(drv, sec, false)];
      HashOne(x, lost);
      lost := lost - {x};
    }

    /** The path of __buf_getblk for a sector that could not be read. */
    method Forget(x: nat)
      requires Valid() && x < n && Live(entries[x], drv)
      modifies this
      ensures Valid() && lost == old(lost) + {x} && (old(lost) == {} ==> Settled())
      ensures entries == old(entries)[x := DEAD] && HashLinks() == Unhashed(old(HashLinks()), x)
      ensures x in old(lru) && lru == Minus(old(lru), x) + [x]
    {
      EntriesDrop(entries, home, drv, spc, size, x);
      Unhash(x);
      entries := entries[x := DEAD];
      MoveToLru(x);
    }

    /** buf_cache_get without the move, when the request can be served. */
    method SafeVictim(ghost sec: nat) returns (x: nat)
      requires Valid() && (forall i :: !Holds(entries, drv, sec, i)) && Ready(sec)
      ensures Victim(lru, entries, x) && Safe(hashNext, hashPrev, lost, x)
      ensures Settled() ==> lost <= {x}
    {
      ghost var y :| Victim(lru, entries, y) && Safe(hashNext, hashPrev, lost, y);
      x := FindVictim();
      OneVictim(lru, entries, x, y);
      if Settled() { TidyVictim(hashNext, hashPrev, lost, lru, entries, drv, x); }
    }

    /** The part of __buf_getblk for a sector that is not cached. */
    method Load(sec: nat, readable: bool) returns (x: nat)
      requires Valid() && (forall i :: !Holds(entries, drv, sec, i)) && Ready(sec)
      modifies this
      ensures Valid() && Victim(old(lru), old(entries), x)
      ensures entries == old(entries)[x := if readable then Entry(drv, sec, false) else DEAD]
      ensures lru == if readable then [x] + Minus(old(lru), x) else Minus(old(lru), x) + [x]
      ensures lost == if readable then old(lost) - {x} else old(lost) + {x}
      ensures HashLinks() == Rehashed(old(HashLinks()), Head(n, sec, spc, size), x, readable)
      ensures old(Settled()) ==> Settled()
    {
      x := SafeVictim(sec);
      LoadInto(x, sec, readable);
    }

    /** Entry x is used for the sector, and forgotten when it cannot be read. */
    method LoadInto(x: nat, sec: nat, readable: bool)
      requires Valid() && (forall i :: !Holds(entries, drv, sec, i))
      requires x < n && Safe(hashNext, hashPrev, lost, x)
      modifies this
      ensures Valid() && x in old(lru) && x < |old(entries)|
      ensures entries == old(entries)[x := if readable then Entry(drv, sec, false) else DEAD]
      ensures lru == if readable then [x] + Minus(old(lru), x) else Minus(old(lru), x) + [x]
      ensures lost == if readable then old(lost) - {x} else old(lost) + {x}
      ensures HashLinks() == Rehashed(old(HashLinks()), Head(n, sec, spc, size), x, readable)
      ensures old(lost) <= {x} ==> Settled()
    {
      MinusHas(lru, x);
      Reuse(x, sec);
      if !readable {
        Forget(x);
        MinusFront(x, Minus(old(lru), x));
      }
    }

    /** __buf_getblk; `readable` says whether the sector can be read. On success
        the entry that holds the sector is the most recently used one; on failure
        the sector is not cached and the entry is the next to be used. */
    method GetBlk(sec: nat, readable: bool) returns (x: nat, hit: bool)
      requires Valid() && Ready(sec)
      modifies this
      ensures Valid() && x in old(lru) && x < |old(entries)| && (old(Settled()) ==> Settled())
      ensures hit <==> exists i :: Holds(old(entries), drv, sec, i)
      ensures hit ==> entries == old(entries) && Holds(entries, drv, sec, x)
      ensures !hit ==> entries == old(entries)[x := if readable then Entry(drv, sec, false) else DEAD]
      ensures !hit ==> Victim(old(lru), old(entries), x)
      ensures lru == if hit || readable then [x] + Minus(old(lru), x) else Minus(old(lru), x) + [x]
      ensures lost == if hit then old(lost) else if readable then old(lost) - {x} else old(lost) + {x}
      ensures hit ==> HashLinks() == old(HashLinks())
      ensures !hit ==> HashLinks() == Rehashed(old(HashLinks()), Head(n, sec, spc, size), x, readable)
    {
      var found := Find(sec);
      hit := found.Some?;
      if hit {
        x := found.value;
        MoveToMru(x);
        StillLast(old(lru), x, n);
      } else {
        x := Load(sec, readable);
      }
    }

    /** Whether a request can be served. */
    method IsReady(sec: nat) returns (ok: bool)
      requires Valid()
      ensures ok == Ready(sec)
    {
      var found := Find(sec);
      ok := found.Some?;
      if !ok && exists k :: 0 <= k < n && !entries[k].locked {
        var x := FindVictim();
        ok := Safe(hashNext, hashPrev, lost, x);
        if Ready(sec) {
          ghost var y :| Victim(lru, entries, y) && Safe(hashNext, hashPrev, lost, y);
          OneVictim(lru, entries, x, y);
        }
      }
    }

    /** buf_release: the entry is dead and the first to be used again. */
    method Release(sec: nat) returns (x: Option<nat>)
      requires Valid()
      modifies this`next, this`prev, this`lru, this`entries
      ensures Valid() && forall i :: !Holds(entries, drv, sec, i)
      ensures old(Settled()) && (lost == {} || x.None?) ==> Settled()
      ensures x.Some? <==> exists i :: Holds(old(entries), drv, sec, i)
      ensures x.None? ==> entries == old(entries) && lru == old(lru)
      ensures x.Some? ==> Holds(old(entries), drv, sec, x.value) && x.value in old(lru)
                          && entries == old(entries)[x.value := DEAD] && lru == Minus(old(lru), x.value) + [x.value]
                          && (forall s: nat, i: nat :: s != sec ==>
                                (Holds(entries, drv, s, i) <==> Holds(old(entries), drv, s, i)))
    {
      x := Find(sec);
      if x.Some? {
        ghost var es0 := entries;
        entries := entries[x.value := DEAD];
        EntriesDrop(es0, home, drv, spc, size, x.value);
        MoveToLru(x.value);
      }
    }

    /** buf_lock and buf_unlock */
    method SetLock(sec: nat, on: bool)
      requires Valid()
      modifies this`entries
      ensures Valid()
      ensures forall s: nat, i: nat :: Holds(entries, drv, s, i) <==> Holds(old(entries), drv, s, i)
      ensures forall i :: 0 <= i < n ==>
                entries[i].locked == if Holds(old(entries), drv, sec, i) then on else old(entries)[i].locked
    {
      var x := Find(sec);
      if x.Some? {
        ghost var es0 := entries;
        entries := entries[x.value := entries[x.value].(locked := on)];
        EntriesLock(es0, home, drv, spc, size, x.value, on);
      }
    }

    /** FAT_release_all and buf_release_all: every entry of the drive is dead, in
        its place. */
    method ReleaseAll()
      requires Valid()
      modifies this`entries
      ensures Valid() && forall s: nat, i: nat :: !Holds(entries, drv, s, i)
      ensures forall i :: 0 <= i < n ==>
                entries[i] == if Live(old(entries)[i], drv) then DEAD else old(entries)[i]
    {
      var bp := next[n];
      ghost var k := 0;
      FirstIn(next, prev, n, lru);
      InRing(next, prev, n, lru);
      while bp != n
        invariant k <= n && bp == (if k < n then lru[k] else n)
        invariant EntriesOk(entries, home, drv, spc, size) && |entries| == n
        invariant LostOk(lost, entries, drv)
        invariant forall j :: 0 <= j < k ==> !Live(entries[lru[j]], drv)
        invariant AllButDead(old(entries), entries, drv)
        decreases n - k
      {
        if entries[bp].drv == drv {
          EntriesDrop(entries, home, drv, spc, size, bp);
          MoreDead(old(entries), entries, drv, bp);
          entries := entries[bp := DEAD];
        }
        NextIn(next, prev, n, lru, k);
        bp := next[bp];
        k := k + 1;
      }
      NoneLive(entries, lru, drv);
    }
  }

  lemma NoneLive(es: seq<Entry>, lru: seq<nat>, drv: int)
    requires |lru| == |es| && (forall i :: 0 <= i < |es| ==> i in lru)
    requires forall j :: 0 <= j < |lru| ==> lru[j] < |es| && !Live(es[lru[j]], drv)
    ensures forall i :: 0 <= i < |es| ==> !Live(es[i], drv)
  {
    forall i | 0 <= i < |es| ensures !Live(es[i], drv) {
      assert i in lru;
      var j :| 0 <= j < |lru| && lru[j] == i;
    }
  }

  /** Entries of the device have died, and no entry has changed in another way. */
  ghost predicate AllButDead(es: seq<Entry>, es': seq<Entry>, drv: int) {
    && |es'| == |es|
    && forall i :: 0 <= i < |es| && es'[i] != es[i] ==> Live(es[i], drv) && es'[i] == DEAD
  }

  lemma MoreDead(es: seq<Entry>, es': seq<Entry>, drv: int, x: nat)
    requires AllButDead(es, es', drv) && x < |es'| && Live(es'[x], drv) && !Live(DEAD, drv)
    ensures AllButDead(es, es'[x := DEAD], drv)
  {
  }

  /** The entries i .. n-1. */
  ghost function EntriesFrom(i: nat, n: nat): (s: set<nat>)
    decreases n - i
  {
    if i >= n then {} else {i} + EntriesFrom(i + 1, n)
  }

  lemma {:induction false} EntriesFromHas(i: nat, n: nat)
    ensures forall k: nat :: k in EntriesFrom(i, n) <==> i <= k < n
    decreases n - i
  {
    if i < n { EntriesFromHas(i + 1, n); }
  }

  /** At the start every chain is empty and no entry is in one. */
  lemma NoChains(hn: Links, hp: Links, n: nat, chains: seq<seq<nat>>, home: seq<nat>)
    requires |hn| == |hp| == n + |chains| && |home| == n
    requires forall i :: 0 <= i < |hn| ==> hn[i] == i && hp[i] == i
    requires forall b :: 0 <= b < |chains| ==> chains[b] == []
    ensures Chained(hn, hp, n, chains, home, EntriesFrom(0, n))
  {
    EntriesFromHas(0, n);
  }

  const DEAD := Entry(NO_DRIVE, 0xFFFF_FFFF_FFFF_FFFF, false)

  /** Taking an entry out of its chain leaves its own links as they were. */
  lemma StaysStale(hn: Links, hp: Links, n: nat, chains: seq<seq<nat>>, home: seq<nat>, lost: set<nat>, x: nat)
    requires Chained(hn, hp, n, chains, home, lost) && Entries(n, lost) && x < n && x !in lost
    ensures hn[x] < |hp| && hp[x] < |hn|
    ensures lost == {} ==> Safe(hn[hp[x] := hn[x]], hp[hn[x] := hp[x]], {x}, x)
  {
    LinksMutual(hn, hp, n, chains, home, lost, x);
  }

  /** The last of the ring stays the last when another one moves to the front. */
  lemma StillLast(s: seq<nat>, x: nat, n: nat)
    requires x in s && |s| == n
    ensures s[n - 1] != x ==> ([x] + Minus(s, x))[n - 1] == s[n - 1]
  {
  }

  /** There is one victim at most. */
  lemma OneVictim(lru: seq<nat>, es: seq<Entry>, x: nat, y: nat)
    requires Victim(lru, es, x) && Victim(lru, es, y)
    ensures x == y
  {
    Later(lru, x, y);
  }

  lemma Later(s: seq<nat>, x: nat, y: nat)
    requires x in s && y in s
    ensures x == y || y in Behind(s, x) || x in Behind(s, y)
  {
    var i, j := Place(s, x), Place(s, y);
    if i < j {
      assert Behind(s, x)[j - i - 1] == y;
    } else if j < i {
      assert Behind(s, y)[i - j - 1] == x;
    }
  }

  /** While the cache is tidy, the entry in no chain is the victim. */
  lemma TidyVictim(hn: Links, hp: Links, lost: set<nat>, lru: seq<nat>, es: seq<Entry>, drv: int, x: nat)
    requires Tidy(hn, hp, lost, lru) && LostOk(lost, es, drv) && Victim(lru, es, x)
    ensures Safe(hn, hp, lost, x) && lost <= {x}
  {
    LastBehind(lru, x);
  }

  lemma LastBehind(s: seq<nat>, x: nat)
    requires x in s
    ensures s[|s| - 1] == x || s[|s| - 1] in Behind(s, x)
  {
    var b := Behind(s, x);
    if b != [] { assert b[|b| - 1] == s[|s| - 1]; }
  }

  lemma MinusFront(x: nat, s: seq<nat>)
    requires x !in s
    ensures Minus([x] + s, x) == s
  {
    assert ([x] + s)[0] == x;
  }

  lemma InRing(next: Links, prev: Links, n: nat, lru: seq<nat>)
    requires LruOk(next, prev, n, lru)
    ensures forall k :: 0 <= k < n ==> lru[k] < n
  {
    Inside(next, prev, n, lru, n);
    forall k | 0 <= k < n ensures lru[k] < n { assert lru[k] in lru; }
  }

  /** If all behind place k and at it are locked, one before is not. */
  lemma Unlocked(es: seq<Entry>, lru: seq<nat>, k: nat)
    requires k < |lru| == |es| && exists i :: 0 <= i < |es| && !es[i].locked
    requires forall i :: 0 <= i < |es| ==> i in lru
    requires forall j :: k <= j < |lru| ==> lru[j] < |es| && es[lru[j]].locked
    ensures k > 0
  {
    var i :| 0 <= i < |es| && !es[i].locked;
    assert i in lru;
    var j :| 0 <= j < |lru| && lru[j] == i;
  }

  lemma {:induction false} PlaceIs(s: seq<nat>, k: nat)
    requires NoDup(s) && k < |s|
    ensures Place(s, s[k]) == k && Behind(s, s[k]) == s[k + 1..]
    decreases k
  {
    if k > 0 {
      assert NoDup(s[1..]);
      PlaceIs(s[1..], k - 1);
    }
  }

  /** Entry x takes a sector that no live entry holds. */
  lemma EntriesPut(es: seq<Entry>, home: seq<nat>, drv: int, spc: nat, size: nat, x: nat, sec: nat)
    requires spc > 0 && size > 0 && EntriesOk(es, home, drv, spc, size) && x < |es|
    requires forall i :: !Holds(es, drv, sec, i)
    ensures EntriesOk(es[x := Entry(drv, sec, false)], home[x := Bucket(sec, spc, size)], drv, spc, size)
  {
    assert forall i :: 0 <= i < |es| && Live(es[i], drv) ==> !Holds(es, drv, sec, i);
  }

  lemma EntriesDrop(es: seq<Entry>, home: seq<nat>, drv: int, spc: nat, size: nat, x: nat)
    requires spc > 0 && size > 0 && EntriesOk(es, home, drv, spc, size) && x < |es| && drv != NO_DRIVE
    ensures EntriesOk(es[x := DEAD], home, drv, spc, size)
  {
  }

  lemma EntriesLock(es: seq<Entry>, home: seq<nat>, drv: int, spc: nat, size: nat, x: nat, on: bool)
    requires spc > 0 && size > 0 && EntriesOk(es, home, drv, spc, size) && x < |es|
    ensures EntriesOk(es[x := es[x].(locked := on)], home, drv, spc, size)
  {
  }

  lemma InHome(es: seq<Entry>, home: seq<nat>, drv: int, spc: nat, size: nat, i: nat)
    requires spc > 0 && size > 0 && EntriesOk(es, home, drv, spc, size) && i < |es| && Live(es[i], drv)
    ensures home[i] == Bucket(es[i].sec, spc, size)
  {
  }

  /** What is asked of the buffer cache. */
  datatype Op = Get(sec: nat, readable: bool) | Drop(sec: nat) | Lock(sec: nat, on: bool) | DropAll

  /** No more than one entry has changed, and none that was locked. */
  ghost predicate OneGives(es: seq<Entry>, es': seq<Entry>) {
    && |es'| == |es|
    && (forall i, j :: 0 <= i < |es| && 0 <= j < |es| && es'[i] != es[i] && es'[j] != es[j] ==> i == j)
    && (forall i :: 0 <= i < |es| && es[i].locked ==> es'[i] == es[i])
  }

  /** What a request that is served does to the cached sectors. A sector that was
      cached or could be read is cached after a Get, and one that was not and could not
      is not, and one entry at most gives way to it, which is not locked; a sector that
      is dropped is cached no longer; a lock changes nothing else. */
  ghost predicate Serves(op: Op, drv: int, es: seq<Entry>, es': seq<Entry>) {
    match op
    case Get(sec, readable) =>
      && ((exists i :: Holds(es', drv, sec, i)) <==> readable || (exists i :: Holds(es, drv, sec, i)))
      && OneGives(es, es')
    case Drop(sec) =>
      && (forall i :: !Holds(es', drv, sec, i))
      && (forall s: nat, i: nat :: s != sec ==> (Holds(es', drv, s, i) <==> Holds(es, drv, s, i)))
    case Lock(sec, on) =>
      && (forall s: nat, i: nat :: Holds(es', drv, s, i) <==> Holds(es, drv, s, i))
      && (forall i: nat :: Holds(es', drv, sec, i) ==> es'[i].locked == on)
    case DropAll => forall s: nat, i: nat :: !Holds(es', drv, s, i)
  }

  /** One request; a Get that cannot be served is not made. */
  method Serve(c: Cache, op: Op) returns (ok: bool)
    requires c.Valid()
    modifies c
    ensures c.Valid() && ok == (op.Get? ==> old(c.Ready(op.sec)))
    ensures !ok ==> !c.Ready(op.sec) && c.entries == old(c.entries)
    ensures old(c.Settled()) && !op.Drop? ==> c.Settled()
    ensures ok ==> Serves(op, c.drv, old(c.entries), c.entries)
  {
    ok := true;
    match op {
      case Get(sec, readable) =>
        ok := c.IsReady(sec);
        if ok { GetServed(c, sec, readable); }
      case Drop(sec) => var x := c.Release(sec);
      case Lock(sec, on) => c.SetLock(sec, on);
      case DropAll => c.ReleaseAll();
    }
  }

  method GetServed(c: Cache, sec: nat, readable: bool)
    requires c.Valid() && c.Ready(sec)
    modifies c
    ensures c.Valid() && (old(c.Settled()) ==> c.Settled())
    ensures Serves(Get(sec, readable), c.drv, old(c.entries), c.entries)
    ensures forall k :: 0 <= k < c.n && c.entries[k].locked ==> old(c.entries)[k].locked
  {
    var x, hit := c.GetBlk(sec, readable);
    GotServes(old(c.entries), c.entries, c.drv, sec, readable, hit, x);
  }

  lemma GotServes(es: seq<Entry>, es': seq<Entry>, drv: int, sec: nat, readable: bool, hit: bool, x: nat)
    requires x < |es| && !Live(DEAD, drv) && (hit <==> exists i :: Holds(es, drv, sec, i))
    requires hit ==> es' == es && Holds(es', drv, sec, x)
    requires !hit ==> !es[x].locked && es' == es[x := if readable then Entry(drv, sec, false) else DEAD]
    ensures Serves(Get(sec, readable), drv, es, es')
    ensures forall k :: 0 <= k < |es'| && es'[k].locked ==> es[k].locked
  {
    if hit || readable {
      assert Holds(es', drv, sec, x);
    } else {
      forall i ensures !Holds(es', drv, sec, i) { assert !Holds(es, drv, sec, i); }
    }
  }

  /** A run of the cache: what each request that was served did to the entries. */
  ghost predicate Served(ops: seq<Op>, done: nat, drv: int, trace: seq<seq<Entry>>) {
    && done <= |ops| && |trace| == done + 1
    && forall i :: 0 <= i < done ==> Serves(ops[i], drv, trace[i], trace[i + 1])
  }

  lemma ServedMore(ops: seq<Op>, done: nat, drv: int, trace: seq<seq<Entry>>, es: seq<Entry>)
    requires Served(ops, done, drv, trace) && done < |ops| && Serves(ops[done], drv, trace[done], es)
    ensures Served(ops, done + 1, drv, trace + [es])
  {
  }

  /** Every run of the buffer cache, whether or not sectors can be read: it goes on
      up to the first request that cannot be served. A run that drops no entry
      stays tidy, and a tidy cache serves every request while an entry is not
      locked. */
  method RunBuffers(c: Cache, ops: seq<Op>) returns (done: nat, ghost trace: seq<seq<Entry>>)
    requires c.Valid()
    modifies c
    ensures c.Valid() && Served(ops, done, c.drv, trace) && trace[0] == old(c.entries) && trace[done] == c.entries
    ensures done < |ops| ==> ops[done].Get? && !c.Ready(ops[done].sec)
    ensures old(c.Settled()) && (forall i :: 0 <= i < |ops| ==> !ops[i].Drop?) ==> c.Settled()
    ensures done < |ops| && c.Settled() ==> forall k :: 0 <= k < c.n ==> c.entries[k].locked
  {
    done, trace := 0, [c.entries];
    var ok := true;
    while done < |ops| && ok
      invariant done <= |ops| && c.Valid()
      invariant Served(ops, done, c.drv, trace) && trace[0] == old(c.entries) && trace[done] == c.entries
      invariant !ok ==> done < |ops| && ops[done].Get? && !c.Ready(ops[done].sec)
      invariant old(c.Settled()) && (forall i :: 0 <= i < |ops| ==> !ops[i].Drop?) ==> c.Settled()
      decreases |ops| - done, ok
    {
      ok := Serve(c, ops[done]);
      if ok {
        ServedMore(ops, done, c.drv, trace, c.entries);
        done, trace := done + 1, trace + [c.entries];
      }
    }
    if done < |ops| && c.Settled() { TidyReady(c, ops[done].sec); }
  }

  /** A tidy cache serves every request while an entry is not locked. */
  lemma TidyReady(c: Cache, sec: nat)
    requires c.Valid() && c.Settled()
    ensures c.Ready(sec) || forall k :: 0 <= k < c.n ==> c.entries[k].locked
  {
    InRing(c.next, c.prev, c.n, c.lru);
    var k := LastUnlocked(c.entries, c.lru, c.n);
    if k < c.n {
      PlaceIs(c.lru, k);
      TidyVictim(c.hashNext, c.hashPrev, c.lost, c.lru, c.entries, c.drv, c.lru[k]);
    } else {
      forall i | 0 <= i < c.n ensures c.entries[i].locked {
        assert i in c.lru;
        var j :| 0 <= j < c.n && c.lru[j] == i;
      }
    }
  }

  /** The last place below m of an entry that is not locked. */
  lemma {:induction false} LastUnlocked(es: seq<Entry>, lru: seq<nat>, m: nat) returns (k: nat)
    requires m <= |lru| == |es| && forall j :: 0 <= j < |lru| ==> lru[j] < |es|
    ensures k < m ==> !es[lru[k]].locked && forall j :: k < j < m ==> es[lru[j]].locked
    ensures k >= m ==> k == |es| && forall j :: 0 <= j < m ==> es[lru[j]].locked
    decreases m
  {
    if m == 0 {
      k := |es|;
    } else if es[lru[m - 1]].locked {
      k := LastUnlocked(es, lru, m - 1);
    } else {
      k := m - 1;
    }
  }

  /** Every run of the FAT cache, whose entries are never locked nor dropped one
      by one, whether or not sectors can be read: all requests are served. */
  method RunFat(c: Cache, gets: seq<Op>) returns (ghost trace: seq<seq<Entry>>)
    requires c.Valid() && c.Settled() && c.n > 0 && forall i :: 0 <= i < c.n ==> !c.entries[i].locked
    requires forall i :: 0 <= i < |gets| ==> gets[i].Get?
    modifies c
    ensures c.Valid() && c.Settled() && forall i :: 0 <= i < c.n ==> !c.entries[i].locked
    ensures Served(gets, |gets|, c.drv, trace) && trace[0] == old(c.entries) && trace[|gets|] == c.entries
  {
    trace := [c.entries];
    for i := 0 to |gets|
      invariant c.Valid() && c.Settled() && forall k :: 0 <= k < c.n ==> !c.entries[k].locked
      invariant Served(gets, i, c.drv, trace) && trace[0] == old(c.entries) && trace[i] == c.entries
    {
      TidyReady(c, gets[i].sec);
      assert !c.entries[0].locked;
      GetServed(c, gets[i].sec, gets[i].readable);
      ServedMore(gets, i, c.drv, trace, c.entries);
      trace := trace + [c.entries];
    }
  }
}

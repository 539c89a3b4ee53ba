/** A run of the sector cache after which it cannot go on: on a cache of three
    entries with one chain, two sectors are loaded, a third cannot be read, the first
    is dropped, and a fourth is loaded. */
module CacheExample {
  import opened Common
  import opened HashChains
  import opened Rings
  import opened SectorCache

  /** The entries of drive 0 that hold these sectors, none of them locked. */
  function Loaded(secs: seq<Option<nat>>): (es: seq<Entry>)
    ensures |es| == |secs|
  {
    if secs == [] then []
    else Loaded(secs[..|secs| - 1]) + [if secs[|secs| - 1].Some? then Entry(0, secs[|secs| - 1].value, false) else DEAD]
  }

  lemma {:induction false} LoadedAt(secs: seq<Option<nat>>, i: nat)
    requires i < |secs|
    ensures Loaded(secs)[i] == if secs[i].Some? then Entry(0, secs[i].value, false) else DEAD
  {
    if i < |secs| - 1 { LoadedAt(secs[..|secs| - 1], i); }
  }

  lemma LoadedPut(secs: seq<Option<nat>>, x: nat, s: Option<nat>)
    requires x < |secs|
    ensures Loaded(secs[x := s]) == Loaded(secs)[x := if s.Some? then Entry(0, s.value, false) else DEAD]
  {
    var put := secs[x := s];
    forall i | 0 <= i < |secs|
      ensures Loaded(put)[i] == Loaded(secs)[x := if s.Some? then Entry(0, s.value, false) else DEAD][i]
    {
      LoadedAt(put, i);
      LoadedAt(secs, i);
    }
  }

  lemma NotLoaded(secs: seq<Option<nat>>, sec: nat)
    requires Some(sec) !in secs
    ensures forall i :: !Holds(Loaded(secs), 0, sec, i)
  {
    forall i | 0 <= i < |secs| ensures !Holds(Loaded(secs), 0, sec, i) {
      LoadedAt(secs, i);
      assert secs[i] in secs;
    }
  }

  lemma LastVictim(secs: seq<Option<nat>>, a: nat, b: nat, x: nat)
    requires x < |secs| && x != a && x != b && a != b
    ensures Victim([a, b, x], Loaded(secs), x)
  {
    LoadedAt(secs, x);
    MinusLast(a, b, x);
  }

  /** Where a cache of three entries with one chain stands. */
  datatype Stand = Stand(secs: seq<Option<nat>>, lru: seq<nat>, hn: Links, hp: Links, lost: set<nat>)

  ghost predicate Stands(c: Cache, s: Stand)
    reads c
  {
    && c.Valid() && c.n == 3 && c.size == 1 && c.spc == 1 && c.drv == 0
    && c.entries == Loaded(s.secs) && c.lru == s.lru && c.hashNext == s.hn && c.hashPrev == s.hp && c.lost == s.lost
  }

  lemma MinusLast(a: nat, b: nat, x: nat)
    requires x != a && x != b && a != b
    ensures Minus([a, b, x], x) == [a, b] && Behind([a, b, x], x) == []
    ensures Minus([a, x, b], x) == [a, b]
  {
    PlaceIs([a, b, x], 2);
    PlaceIs([a, x, b], 1);
  }

  /** A sector that is not cached is loaded into the least recently used entry x. */
  ghost predicate Loads(s: Stand, x: nat, sec: nat, readable: bool, s': Stand) {
    && |s.secs| == 3 && |s.lru| == 3 && x < 3 && s.lru[0] != s.lru[1] && s.lru[0] != x && s.lru[1] != x && s.lru[2] == x
    && Some(sec) !in s.secs && Safe(s.hn, s.hp, s.lost, x)
    && s'.secs == s.secs[x := if readable then Some(sec) else None]
    && s'.lru == (if readable then [x, s.lru[0], s.lru[1]] else s.lru)
    && Rehashed((s.hn, s.hp), 3, x, readable) == (s'.hn, s'.hp)
    && s'.lost == if readable then s.lost - {x} else s.lost + {x}
  }

  lemma LoadsIs(s: Stand, x: nat, sec: nat, readable: bool, s': Stand)
    requires Loads(s, x, sec, readable, s')
    ensures Victim(s.lru, Loaded(s.secs), x) && forall i :: !Holds(Loaded(s.secs), 0, sec, i)
    ensures s'.lru == if readable then [x] + Minus(s.lru, x) else Minus(s.lru, x) + [x]
    ensures Loaded(s'.secs) == Loaded(s.secs)[x := if readable then Entry(0, sec, false) else DEAD]
  {
    var a, b := s.lru[0], s.lru[1];
    assert s.lru == [a, b, x];
    MinusLast(a, b, x);
    LastVictim(s.secs, a, b, x);
    NotLoaded(s.secs, sec);
    LoadedPut(s.secs, x, if readable then Some(sec) else None);
  }

  /** Entry x is the one that is used next. */
  method LoadVictim(c: Cache, sec: nat, readable: bool, ghost x: nat)
    requires c.Valid() && Victim(c.lru, c.entries, x) && Safe(c.hashNext, c.hashPrev, c.lost, x)
    requires forall i :: !Holds(c.entries, c.drv, sec, i)
    modifies c
    ensures c.Valid() && x < |old(c.entries)|
    ensures c.entries == old(c.entries)[x := if readable then Entry(c.drv, sec, false) else DEAD]
    ensures c.lru == if readable then [x] + Minus(old(c.lru), x) else Minus(old(c.lru), x) + [x]
    ensures c.lost == if readable then old(c.lost) - {x} else old(c.lost) + {x}
    ensures c.HashLinks() == Rehashed(old(c.HashLinks()), Head(c.n, sec, c.spc, c.size), x, readable)
  {
    var y, hit := c.GetBlk(sec, readable);
    OneVictim(old(c.lru), old(c.entries), x, y);
  }

  method LoadLast(c: Cache, sec: nat, readable: bool, ghost x: nat, ghost s: Stand, ghost s': Stand)
    requires Stands(c, s) && Loads(s, x, sec, readable, s')
    modifies c
    ensures Stands(c, s')
  {
    LoadsIs(s, x, sec, readable, s');
    LoadVictim(c, sec, readable, x);
  }

  lemma Rehash(hn: Links, hp: Links, x: nat, readable: bool, hn': Links, hp': Links)
    requires x < 3 && |hn| == |hp| == 4 && hn[x] < 4 && hp[x] < 4
    requires var un, up := hn[hp[x] := hn[x]], hp[hn[x] := hp[x]];
             && un[3] < 4
             && var jn, jp := un[x := un[3]][3 := x], up[x := 3][un[3] := x];
                if readable then hn' == jn && hp' == jp
                else jn[x] < 4 && jp[x] < 4 && hn' == jn[jp[x] := jn[x]] && hp' == jp[jn[x] := jp[x]]
    ensures Rehashed((hn, hp), 3, x, readable) == (hn', hp')
  {
  }

  /** What may happen when a sector is dropped between a failed read and the next
      load. In a cache of three entries the read into entry 2 fails, entry 0 is
      dropped and used again, and then entry 2 is to be used. Taking 2 out of the
      chain once more is not harmless: it takes entry 0 with its sector out as well,
      and the walk from the head meets entry 1 only. */
  method DropAfterFailure() returns (c: Cache)
    ensures fresh(c) && Stands(c, S5())
    ensures !c.Ready(14) && Ring(c.hashNext, c.hashPrev, 3, [0, 1])
    ensures Ring([1, 3, 1, 1], [3, 3, 3, 1], 3, [1]) && Unhashed(c.HashLinks(), 2) == ([1, 3, 1, 1], [3, 3, 3, 1])
  {
    FirstLoads();
    SecondLoads();
    ThirdFails();
    FourthLoads();
    c := ThreeEntries();
    LoadLast(c, 10, true, 0, S0(), S1());
    LoadLast(c, 11, true, 1, S1(), S2());
    LoadLast(c, 12, false, 2, S2(), S3());
    DropTen(c);
    LoadLast(c, 13, true, 0, S4(), S5());
    NotHarmless(c);
  }

  /** Where the cache stands at the start of the run and after each request. */
  ghost function S0(): (s: Stand) {
    Stand([None, None, None], [2, 1, 0], [3, 0, 1, 2], [1, 2, 3, 0], {})
  }

  ghost function S1(): (s: Stand) {
    Stand([Some(10), None, None], [0, 2, 1], [2, 3, 1, 0], [3, 2, 0, 1], {})
  }

  ghost function S2(): (s: Stand) {
    Stand([Some(10), Some(11), None], [1, 0, 2], [2, 0, 3, 1], [1, 3, 0, 2], {})
  }

  ghost function S3(): (s: Stand) {
    Stand([Some(10), Some(11), None], [1, 0, 2], [3, 0, 1, 1], [1, 3, 3, 0], {2})
  }

  ghost function S4(): (s: Stand) {
    Stand([None, Some(11), None], [1, 2, 0], [3, 0, 1, 1], [1, 3, 3, 0], {2})
  }

  ghost function S5(): (s: Stand) {
    Stand([Some(13), Some(11), None], [0, 1, 2], [1, 3, 1, 0], [3, 0, 3, 1], {2})
  }

  lemma FirstLoads()
    ensures Loads(S0(), 0, 10, true, S1())
  {
    Rehash(S0().hn, S0().hp, 0, true, S1().hn, S1().hp);
  }

  lemma SecondLoads()
    ensures Loads(S1(), 1, 11, true, S2())
  {
    Rehash(S1().hn, S1().hp, 1, true, S2().hn, S2().hp);
  }

  lemma ThirdFails()
    ensures Loads(S2(), 2, 12, false, S3())
  {
    Rehash(S2().hn, S2().hp, 2, false, S3().hn, S3().hp);
  }

  lemma FourthLoads()
    ensures Loads(S4(), 0, 13, true, S5())
  {
    Rehash(S4().hn, S4().hp, 0, true, S5().hn, S5().hp);
  }

  method ThreeEntries() returns (c: Cache)
    ensures fresh(c) && Stands(c, S0())
  {
    c := new Cache.Init(3, 1, 1, 0);
    StartLinks();
    NothingLoaded();
  }

  lemma NothingLoaded()
    ensures Loaded([None, None, None]) == AllDead(3)
  {
    forall i | 0 <= i < 3 ensures Loaded([None, None, None])[i] == AllDead(3)[i] {
      LoadedAt([None, None, None], i);
      AllDeadAt(3, i);
    }
  }

  /** The chain of a cache that was just set up. */
  lemma StartLinks()
    ensures HashedAll((Alone(4), Alone(4)), 3, 3) == ([3, 0, 1, 2], [1, 2, 3, 0]) && Descending(3) == [2, 1, 0]
  {
    var own := Alone(4);
    var l0: Hash := (own, own);
    assert own == [0, 1, 2, 3];
    var l1 := Hashed(l0, 3, 0);
    assert l1.0 == [3, 1, 2, 0] && l1.1 == [3, 1, 2, 0];
    var l2 := Hashed(l1, 3, 1);
    assert l2.0 == [3, 0, 2, 1] && l2.1 == [1, 3, 2, 0];
    var l3 := Hashed(l2, 3, 2);
    assert l3.0 == [3, 0, 1, 2] && l3.1 == [1, 2, 3, 0];
    assert HashedAll(l0, 3, 0) == l0 && HashedAll(l0, 3, 1) == l1 && HashedAll(l0, 3, 2) == l2;
    assert Descending(1) == [0] && Descending(2) == [1, 0];
  }

  method DropTen(c: Cache)
    requires Stands(c, S3())
    modifies c
    ensures Stands(c, S4())
  {
    var secs: seq<Option<nat>> := [Some(10), Some(11), None];
    LoadedAt(secs, 0);
    LoadedPut(secs, 0, None);
    assert secs[0 := None] == S4().secs;
    MinusLast(1, 2, 0);
    assert Holds(c.entries, 0, 10, 0);
    var x := c.Release(10);
  }

  lemma NotHarmless(c: Cache)
    requires Stands(c, S5())
    ensures !c.Ready(14) && Ring(c.hashNext, c.hashPrev, 3, [0, 1])
    ensures Ring([1, 3, 1, 1], [3, 3, 3, 1], 3, [1]) && Unhashed(c.HashLinks(), 2) == ([1, 3, 1, 1], [3, 3, 3, 1])
  {
    var secs := S5().secs;
    LastVictim(secs, 0, 1, 2);
    NotLoaded(secs, 14);
    forall x | Victim([0, 1, 2], Loaded(secs), x) ensures x == 2 { OneVictim([0, 1, 2], Loaded(secs), x, 2); }
    assert !Safe([1, 3, 1, 0], [3, 0, 3, 1], {2}, 2);
    assert [0, 1][1..] == [1] && [1][1..] == [];
    var after := Unhashed(c.HashLinks(), 2);
    assert after.0 == [1, 3, 1, 1] && after.1 == [3, 3, 3, 1];
  }
}

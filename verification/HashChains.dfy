/** The hash chains of the sector caches of fs/exfat/exfat_cache.c: every entry
    is in exactly one of them. */
module HashChains {
  import opened Rings

  /** Chain b is the ring with head n + b. */
  ghost predicate AllRings(hn: Links, hp: Links, n: nat, chains: seq<seq<nat>>) {
    |hn| == |hp| == n + |chains| && forall b :: 0 <= b < |chains| ==> Ring(hn, hp, n + b, chains[b])
  }

  /** Entry i is in the chain home[i] and in no other; the entries `out` are in none. */
  ghost predicate Homed(n: nat, chains: seq<seq<nat>>, home: seq<nat>, out: set<nat>) {
    && |home| == n
    && (forall b :: 0 <= b < |chains| ==> AllHome(n, chains[b], home, out, b))
    && (forall i :: 0 <= i < n && i !in out ==> home[i] < |chains| && i in chains[home[i]])
  }

  /** All of `s` are entries at home in chain b. */
  ghost predicate AllHome(n: nat, s: seq<nat>, home: seq<nat>, out: set<nat>, b: nat)
    requires |home| == n
  {
    forall i :: i in s ==> i < n && i !in out && home[i] == b
  }

  ghost predicate Chained(hn: Links, hp: Links, n: nat, chains: seq<seq<nat>>, home: seq<nat>, out: set<nat>) {
    AllRings(hn, hp, n, chains) && Homed(n, chains, home, out)
  }

  /** Where x is in a sequence that has it. */
  ghost function Place(s: seq<nat>, x: nat): (k: nat)
    requires x in s
    ensures k < |s| && s[k] == x
  {
    if s[0] == x then 0 else 1 + Place(s[1..], x)
  }

  ghost function Before(s: seq<nat>, x: nat): (u: seq<nat>)
    requires x in s
  {
    s[..Place(s, x)]
  }

  ghost function Behind(s: seq<nat>, x: nat): (v: seq<nat>)
    requires x in s
  {
    s[Place(s, x) + 1..]
  }

  /** The sequence without x. */
  ghost function Minus(s: seq<nat>, x: nat): (r: seq<nat>)
    requires x in s
  {
    Before(s, x) + Behind(s, x)
  }

  lemma PlaceSplits(s: seq<nat>, x: nat)
    requires x in s
    ensures s == Before(s, x) + [x] + Behind(s, x)
  {
  }

  lemma MinusHas(s: seq<nat>, x: nat)
    requires x in s && NoDup(s)
    ensures NoDup(Minus(s, x)) && |Minus(s, x)| == |s| - 1 && x !in Minus(s, x)
    ensures forall i :: i in Minus(s, x) <==> i in s && i != x
  {
    PlaceSplits(s, x);
    NoDupParts(Before(s, x), x, Behind(s, x));
  }

  /** A ring without one of its nodes. */
  lemma RingMinus(next: Links, prev: Links, h: nat, s: seq<nat>, x: nat)
    requires Ring(next, prev, h, s) && x in s
    ensures x < |next| && x < |prev| && next[x] < |prev| && prev[x] < |next|
    ensures Ring(next[prev[x] := next[x]], prev[next[x] := prev[x]], h, Minus(s, x))
    ensures next[x] == h || next[x] in s
    ensures prev[x] == h || prev[x] in s
  {
    var u, v := Before(s, x), Behind(s, x);
    PlaceSplits(s, x);
    Unlink(next, prev, h, u, x, v);
    SegSplit(next, prev, h, u, x, v, h);
    LastIn(next, prev, h, u, x);
    assert forall i :: i in u ==> i in s;
    assert forall i :: i in v ==> i in s;
  }

  /** A ring that a change of links elsewhere leaves alone. */
  lemma RingFrame(next: Links, prev: Links, next': Links, prev': Links, h: nat, s: seq<nat>)
    requires Ring(next, prev, h, s) && |next'| == |next| && |prev'| == |prev|
    requires forall i :: 0 <= i < |next| && (i == h || i in s) ==> next'[i] == next[i]
    requires forall i :: 0 <= i < |prev| && (i == h || i in s) ==> prev'[i] == prev[i]
    ensures Ring(next', prev', h, s)
  {
    SegFrame(next, prev, next', prev', h, s, h);
  }

  lemma InChain(hn: Links, hp: Links, n: nat, chains: seq<seq<nat>>, home: seq<nat>, out: set<nat>, b: nat, i: nat)
    requires Chained(hn, hp, n, chains, home, out) && b < |chains|
    ensures i in chains[b] ==> i < n && i !in out && home[i] == b
  {
    assert AllHome(n, chains[b], home, out, b);
  }

  /** Chain b is none of the business of a change within another chain. */
  lemma OtherChain(hn: Links, hp: Links, n: nat, chains: seq<seq<nat>>, home: seq<nat>, out: set<nat>,
                   b: nat, c: nat, i: nat)
    requires Chained(hn, hp, n, chains, home, out) && b < |chains| && c < |chains| && b != c
    requires i == n + c || i in chains[c]
    ensures i != n + b && i !in chains[b]
  {
    InChain(hn, hp, n, chains, home, out, b, i);
    InChain(hn, hp, n, chains, home, out, c, i);
  }

  /** Who is where when x has left its chain, and when x has joined chain c. */
  lemma HomedMinus(n: nat, chains: seq<seq<nat>>, home: seq<nat>, out: set<nat>, x: nat, s: seq<nat>)
    requires Homed(n, chains, home, out) && x < n && x !in out
    requires forall i :: i in s <==> i in chains[home[x]] && i != x
    ensures Homed(n, chains[home[x] := s], home, out + {x})
  {
    var c := home[x];
    var chains' := chains[c := s];
    forall b | 0 <= b < |chains'| ensures AllHome(n, chains'[b], home, out + {x}, b) {
      assert AllHome(n, chains[b], home, out, b);
    }
    forall i | 0 <= i < n && i !in out + {x} ensures home[i] < |chains'| && i in chains'[home[i]] {
      assert i in chains[home[i]];
    }
  }

  lemma HomedPlus(n: nat, chains: seq<seq<nat>>, home: seq<nat>, out: set<nat>, x: nat, c: nat)
    requires Homed(n, chains, home, out) && x in out && x < n && c < |chains|
    ensures Homed(n, chains[c := [x] + chains[c]], home[x := c], out - {x})
  {
    var chains', home' := chains[c := [x] + chains[c]], home[x := c];
    forall b | 0 <= b < |chains'| ensures AllHome(n, chains'[b], home', out - {x}, b) {
      assert AllHome(n, chains[b], home, out, b);
      forall i | i in chains'[b] ensures i < n && i !in out - {x} && home'[i] == b {
        if i != x { assert i in chains[b]; }
      }
    }
    forall i | 0 <= i < n && i !in out - {x} ensures home'[i] < |chains'| && i in chains'[home'[i]] {
      if i != x { assert i in chains[home[i]]; }
    }
  }

  /** FAT_cache_remove_hash, buf_cache_remove_hash */
  lemma RemoveHash(hn: Links, hp: Links, n: nat, chains: seq<seq<nat>>, home: seq<nat>, out: set<nat>, x: nat)
    requires Chained(hn, hp, n, chains, home, out) && x < n && x !in out
    ensures home[x] < |chains| && x in chains[home[x]] && hn[x] < |hp| && hp[x] < |hn|
    ensures Chained(hn[hp[x] := hn[x]], hp[hn[x] := hp[x]], n,
                    chains[home[x] := Minus(chains[home[x]], x)], home, out + {x})
  {
    var c := home[x];
    RingMinus(hn, hp, n + c, chains[c], x);
    MinusHas(chains[c], x);
    var hn', hp', chains' := hn[hp[x] := hn[x]], hp[hn[x] := hp[x]], chains[c := Minus(chains[c], x)];
    forall b | 0 <= b < |chains'| ensures Ring(hn', hp', n + b, chains'[b]) {
      if b != c {
        OtherChain(hn, hp, n, chains, home, out, b, c, hp[x]);
        OtherChain(hn, hp, n, chains, home, out, b, c, hn[x]);
        RingFrame(hn, hp, hn', hp', n + b, chains[b]);
      }
    }
    HomedMinus(n, chains, home, out, x, Minus(chains[c], x));
  }

  /** FAT_cache_insert_hash, buf_cache_insert_hash */
  lemma InsertHash(hn: Links, hp: Links, n: nat, chains: seq<seq<nat>>, home: seq<nat>, out: set<nat>, x: nat, c: nat)
    requires Chained(hn, hp, n, chains, home, out) && x in out && x < n && c < |chains|
    ensures hn[n + c] < |hp|
    ensures Chained(hn[x := hn[n + c]][n + c := x], hp[x := n + c][hn[n + c] := x], n,
                    chains[c := [x] + chains[c]], home[x := c], out - {x})
  {
    var f := hn[n + c];
    InChain(hn, hp, n, chains, home, out, c, x);
    PushFront(hn, hp, n + c, chains[c], x);
    var hn', hp', chains' := hn[x := f][n + c := x], hp[x := n + c][f := x], chains[c := [x] + chains[c]];
    FirstIn(hn, hp, n + c, chains[c]);
    forall b | 0 <= b < |chains'| ensures Ring(hn', hp', n + b, chains'[b]) {
      if b != c {
        OtherChain(hn, hp, n, chains, home, out, b, c, f);
        OtherChain(hn, hp, n, chains, home, out, b, c, n + c);
        InChain(hn, hp, n, chains, home, out, b, x);
        RingFrame(hn, hp, hn', hp', n + b, chains[b]);
      }
    }
    HomedPlus(n, chains, home, out, x, c);
  }

  lemma FirstIn(next: Links, prev: Links, h: nat, s: seq<nat>)
    requires Ring(next, prev, h, s)
    ensures next[h] == if s == [] then h else s[0]
    ensures prev[h] == if s == [] then h else s[|s| - 1]
  {
    LastIn(next, prev, h, s, h);
  }

  /** The node after the k-th of a ring. */
  lemma NextIn(next: Links, prev: Links, h: nat, s: seq<nat>, k: nat)
    requires Ring(next, prev, h, s) && k < |s|
    ensures s[k] < |next| && s[k] < |prev|
    ensures next[s[k]] == if k + 1 < |s| then s[k + 1] else h
    ensures prev[s[k]] == if k > 0 then s[k - 1] else h
  {
    var u, v := s[..k], s[k + 1..];
    assert s == u + [s[k]] + v;
    SegSplit(next, prev, h, u, s[k], v, h);
    LastIn(next, prev, h, u, s[k]);
  }

  /** In a ring, links back and forth undo each other. */
  lemma RingMutual(next: Links, prev: Links, h: nat, s: seq<nat>, i: nat)
    requires Ring(next, prev, h, s) && (i == h || i in s)
    ensures i < |next| && i < |prev| && next[i] < |prev| && prev[i] < |next|
    ensures prev[next[i]] == i && next[prev[i]] == i
    ensures (next[i] == h || next[i] in s) && (prev[i] == h || prev[i] in s)
  {
    FirstIn(next, prev, h, s);
    if s != [] {
      NextIn(next, prev, h, s, 0);
      NextIn(next, prev, h, s, |s| - 1);
    }
    if i != h {
      var k := Place(s, i);
      NextIn(next, prev, h, s, k);
      if k + 1 < |s| { NextIn(next, prev, h, s, k + 1); }
      if k > 0 { NextIn(next, prev, h, s, k - 1); }
    }
  }

  /** The entries in no chain are entries. */
  ghost predicate Entries(n: nat, out: set<nat>) {
    forall i :: i in out ==> i < n
  }

  /** Every node that is not out is in a ring: its links are mutual and lead to
      nodes that are not out. */
  lemma LinksMutual(hn: Links, hp: Links, n: nat, chains: seq<seq<nat>>, home: seq<nat>, out: set<nat>, i: nat)
    requires Chained(hn, hp, n, chains, home, out) && Entries(n, out) && i < |hn| && i !in out
    ensures hn[i] < |hp| && hp[i] < |hn| && hp[hn[i]] == i && hn[hp[i]] == i
    ensures hn[i] !in out && hp[i] !in out
  {
    var b := if i < n then home[i] else i - n;
    RingMutual(hn, hp, n + b, chains[b], i);
    InChain(hn, hp, n, chains, home, out, b, hn[i]);
    InChain(hn, hp, n, chains, home, out, b, hp[i]);
  }

  /** Taking an entry out of the chains that is in none changes no chain: its old
      neighbours are still neighbours, or neither of them is in a chain. */
  predicate Harmless(hn: Links, hp: Links, out: set<nat>, x: nat)
    requires x < |hn| && x < |hp| && hn[x] < |hp| && hp[x] < |hn|
  {
    if hn[x] in out then hp[x] in out else hp[hn[x]] == hp[x]
  }

  lemma HarmlessKeeps(hn: Links, hp: Links, n: nat, chains: seq<seq<nat>>, home: seq<nat>, out: set<nat>, x: nat)
    requires Chained(hn, hp, n, chains, home, out) && Entries(n, out) && x in out
    requires hn[x] < |hp| && hp[x] < |hn| && Harmless(hn, hp, out, x)
    ensures Chained(hn[hp[x] := hn[x]], hp[hn[x] := hp[x]], n, chains, home, out)
    ensures hn[x] !in out ==> hn[hp[x] := hn[x]] == hn && hp[hn[x] := hp[x]] == hp
  {
    var p, q := hp[x], hn[x];
    var hn', hp' := hn[p := q], hp[q := p];
    if q !in out {
      LinksMutual(hn, hp, n, chains, home, out, q);
      assert hn' == hn && hp' == hp;
    } else {
      forall b | 0 <= b < |chains| ensures Ring(hn', hp', n + b, chains[b]) {
        InChain(hn, hp, n, chains, home, out, b, p);
        InChain(hn, hp, n, chains, home, out, b, q);
        RingFrame(hn, hp, hn', hp', n + b, chains[b]);
      }
    }
  }

  lemma KeepsHarmless(hn: Links, hp: Links, n: nat, chains: seq<seq<nat>>, home: seq<nat>, out: set<nat>, x: nat,
                      chains': seq<seq<nat>>, home': seq<nat>)
    requires Chained(hn, hp, n, chains, home, out) && Entries(n, out) && x in out
    requires hn[x] < |hp| && hp[x] < |hn|
    requires Chained(hn[hp[x] := hn[x]], hp[hn[x] := hp[x]], n, chains', home', out)
    ensures Harmless(hn, hp, out, x)
  {
    var p, q := hp[x], hn[x];
    var hn', hp' := hn[p := q], hp[q := p];
    if q in out {
      if p !in out { LinksMutual(hn', hp', n, chains', home', out, p); }
    } else {
      LinksMutual(hn', hp', n, chains', home', out, q);
      LinksMutual(hn, hp, n, chains, home, out, q);
      if hp[q] != p { LinksMutual(hn', hp', n, chains', home', out, hp[q]); }
    }
  }

  /** The links make chains of all the entries that are not out. */
  ghost predicate Chainable(hn: Links, hp: Links, n: nat, out: set<nat>) {
    exists chains, home :: Chained(hn, hp, n, chains, home, out)
  }

  /** Unhashing an entry that is in no chain once more leaves every other entry in
      a chain exactly when it is harmless. */
  lemma SecondUnhashIff(hn: Links, hp: Links, n: nat, out: set<nat>, x: nat)
    requires Chainable(hn, hp, n, out) && Entries(n, out) && x in out && x < |hn| && x < |hp|
    requires hn[x] < |hp| && hp[x] < |hn|
    ensures Chainable(hn[hp[x] := hn[x]], hp[hn[x] := hp[x]], n, out) <==> Harmless(hn, hp, out, x)
  {
    var chains, home :| Chained(hn, hp, n, chains, home, out);
    var hn', hp' := hn[hp[x] := hn[x]], hp[hn[x] := hp[x]];
    if Harmless(hn, hp, out, x) {
      HarmlessKeeps(hn, hp, n, chains, home, out, x);
      assert Chained(hn', hp', n, chains, home, out);
    }
    if Chainable(hn', hp', n, out) {
      var chains', home' :| Chained(hn', hp', n, chains', home', out);
      KeepsHarmless(hn, hp, n, chains, home, out, x, chains', home');
    }
  }
}

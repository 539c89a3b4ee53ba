/** Doubly linked rings over the elements of an array, as the caches of
    fs/exfat/exfat_cache.c keep them: links are indices. */
module Rings {
  type Links = seq<nat>

  /** The links lead from a over the nodes `s` to b, and back. */
  predicate Seg(next: Links, prev: Links, a: nat, s: seq<nat>, b: nat)
    decreases |s|
  {
    && a < |next| && b < |prev|
    && if s == [] then next[a] == b && prev[b] == a
       else s[0] < |prev| && next[a] == s[0] && prev[s[0]] == a && Seg(next, prev, s[0], s[1..], b)
  }

  predicate NoDup(s: seq<nat>) {
    forall i, j :: 0 <= i < j < |s| ==> s[i] != s[j]
  }

  lemma {:induction false} SegSplit(next: Links, prev: Links, a: nat, u: seq<nat>, x: nat, v: seq<nat>, b: nat)
    ensures Seg(next, prev, a, u + [x] + v, b) <==> Seg(next, prev, a, u, x) && Seg(next, prev, x, v, b)
    decreases |u|
  {
    var s := u + [x] + v;
    if u == [] {
      assert s[0] == x && s[1..] == v;
    } else {
      assert s[0] == u[0] && s[1..] == u[1..] + [x] + v;
      SegSplit(next, prev, u[0], u[1..], x, v, b);
    }
  }

  /** Links elsewhere may change. */
  lemma {:induction false} SegFrame(next: Links, prev: Links, next': Links, prev': Links, a: nat, s: seq<nat>, b: nat)
    requires Seg(next, prev, a, s, b) && |next'| == |next| && |prev'| == |prev|
    requires forall i :: 0 <= i < |next| && (i == a || i in s) ==> next'[i] == next[i]
    requires forall i :: 0 <= i < |prev| && (i == b || i in s) ==> prev'[i] == prev[i]
    ensures Seg(next', prev', a, s, b)
    decreases |s|
  {
    if s != [] {
      assert s[0] in s;
      assert forall i :: i in s[1..] ==> i in s;
      SegFrame(next, prev, next', prev', s[0], s[1..], b);
    }
  }

  /** The last link of a segment is turned to another node. */
  lemma {:induction false} SegRetarget(next: Links, prev: Links, a: nat, u: seq<nat>, x: nat, q: nat)
    requires Seg(next, prev, a, u, x) && q < |prev| && NoDup(u) && a !in u && q !in u
    ensures prev[x] < |next| && Seg(next[prev[x] := q], prev[q := prev[x]], a, u, q)
    decreases |u|
  {
    if u != [] {
      assert forall i :: i in u[1..] ==> i in u;
      assert u[0] in u;
      assert u[0] !in u[1..] by {
        forall k | 0 <= k < |u[1..]| ensures u[1..][k] != u[0] { assert u[1..][k] == u[k + 1]; }
      }
      assert NoDup(u[1..]);
      SegRetarget(next, prev, u[0], u[1..], x, q);
      LastIn(next, prev, u[0], u[1..], x);
    }
  }

  lemma {:induction false} LastIn(next: Links, prev: Links, a: nat, u: seq<nat>, x: nat)
    requires Seg(next, prev, a, u, x)
    ensures prev[x] == if u == [] then a else u[|u| - 1]
    decreases |u|
  {
    if u != [] { LastIn(next, prev, u[0], u[1..], x); }
  }

  /** The ring with head h over the nodes `s`. */
  predicate Ring(next: Links, prev: Links, h: nat, s: seq<nat>) {
    Seg(next, prev, h, s, h) && NoDup(s) && h !in s
  }

  lemma {:induction false} Inside(next: Links, prev: Links, a: nat, s: seq<nat>, b: nat)
    requires Seg(next, prev, a, s, b)
    ensures forall i :: i in s ==> i < |next| && i < |prev|
    decreases |s|
  {
    if s != [] {
      Inside(next, prev, s[0], s[1..], b);
      forall i | i in s ensures i < |next| && i < |prev| {
        if i != s[0] { assert i in s[1..]; }
      }
    }
  }

  lemma NoDupParts(u: seq<nat>, x: nat, v: seq<nat>)
    requires NoDup(u + [x] + v)
    ensures NoDup(u) && NoDup(v) && NoDup(u + v) && x !in u && x !in v
    ensures forall i :: i in u ==> i !in v
    ensures forall i :: i in u + v <==> (i in u + [x] + v && i != x)
  {
    var s := u + [x] + v;
    forall i | 0 <= i < |u| ensures s[i] == u[i] {}
    forall i | 0 <= i < |v| ensures s[|u| + 1 + i] == v[i] {}
    assert s[|u|] == x;
  }

  /** Taking x out of a ring: its neighbours are linked to each other. */
  lemma Unlink(next: Links, prev: Links, h: nat, u: seq<nat>, x: nat, v: seq<nat>)
    requires Ring(next, prev, h, u + [x] + v)
    ensures x < |next| && x < |prev| && next[x] < |prev| && prev[x] < |next|
    ensures Ring(next[prev[x] := next[x]], prev[next[x] := prev[x]], h, u + v)
  {
    SegSplit(next, prev, h, u, x, v, h);
    NoDupParts(u, x, v);
    assert forall i :: i in u ==> i in u + [x] + v;
    assert forall i :: i in v ==> i in u + [x] + v;
    LastIn(next, prev, h, u, x);
    UnlinkSeg(next, prev, h, u, x, v);
    assert h !in u + v;
  }

  lemma UnlinkSeg(next: Links, prev: Links, h: nat, u: seq<nat>, x: nat, v: seq<nat>)
    requires Seg(next, prev, h, u, x) && Seg(next, prev, x, v, h)
    requires NoDup(u) && NoDup(v) && h !in u && h !in v && forall i :: i in u ==> i !in v
    ensures next[x] < |prev| && prev[x] < |next|
    ensures Seg(next[prev[x] := next[x]], prev[next[x] := prev[x]], h, u + v, h)
  {
    var p, q := prev[x], next[x];
    LastIn(next, prev, h, u, x);
    assert v != [] ==> v[0] in v;
    assert q !in u;
    SegRetarget(next, prev, h, u, x, q);
    if v == [] {
      assert u + v == u;
    } else {
      assert forall i :: i in v[1..] ==> i in v;
      assert v[0] !in v[1..] by {
        forall k | 0 <= k < |v[1..]| ensures v[1..][k] != v[0] { assert v[1..][k] == v[k + 1]; }
      }
      SegFrame(next, prev, next[p := q], prev[q := p], q, v[1..], h);
      assert u + [q] + v[1..] == u + v;
      SegSplit(next[p := q], prev[q := p], h, u, q, v[1..], h);
    }
  }

  /** push_to_mru, and insertion at the head of a hash chain. */
  lemma PushFront(next: Links, prev: Links, h: nat, s: seq<nat>, x: nat)
    requires Ring(next, prev, h, s) && x !in s && x != h && x < |next| && x < |prev|
    ensures next[h] < |prev| && Ring(next[x := next[h]][h := x], prev[x := h][next[h] := x], h, [x] + s)
  {
    var f := next[h];
    var next', prev' := next[x := f][h := x], prev[x := h][f := x];
    assert s != [] ==> s[0] in s;
    if s != [] {
      assert forall i :: i in s[1..] ==> i in s;
      assert s[0] !in s[1..] by {
        forall k | 0 <= k < |s[1..]| ensures s[1..][k] != s[0] { assert s[1..][k] == s[k + 1]; }
      }
      SegFrame(next, prev, next', prev', s[0], s[1..], h);
    }
    assert Seg(next', prev', x, s, h);
    assert ([x] + s)[0] == x && ([x] + s)[1..] == s;
  }

  /** push_to_lru */
  lemma PushBack(next: Links, prev: Links, h: nat, s: seq<nat>, x: nat)
    requires Ring(next, prev, h, s) && x !in s && x != h && x < |next| && x < |prev|
    ensures prev[h] < |next| && Ring(next[x := h][prev[h] := x], prev[x := prev[h]][h := x], h, s + [x])
  {
    var l := prev[h];
    LastIn(next, prev, h, s, h);
    assert s != [] ==> s[|s| - 1] in s;
    SegRetarget(next, prev, h, s, h, x);
    var next', prev' := next[x := h][l := x], prev[x := l][h := x];
    SegFrame(next[l := x], prev[x := l], next', prev', h, s, x);
    assert Seg(next', prev', x, [], h);
    assert s + [x] + [] == s + [x];
    SegSplit(next', prev', h, s, x, [], h);
  }
}

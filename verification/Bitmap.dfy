/** The allocation bitmap of fs/exfat-linux/balloc.c: bytes held sector by
    sector, addressed by cluster number. */
module Bitmap {
  import opened Arith
  import opened Bits
  import opened BitTables
  import opened Common
  import opened ExfatTypes
  import opened SectorBytes

  type Amap = Sectors

  /** Bytes needed for the data clusters of a volume of `n` cluster numbers. */
  function MapBytes(n: nat): (b: nat)
    requires n > FIRST_CLUSTER
  {
    (n - FIRST_CLUSTER - 1) / 8 + 1
  }

  /** The sectors hold `bs` bytes each and are just enough for the clusters. */
  ghost predicate Shape(m: Amap, bs: nat, n: nat) {
    && bs > 0 && n > FIRST_CLUSTER
    && (forall i :: 0 <= i < |m| ==> |m[i]| == bs)
    && (|m| - 1) * bs < MapBytes(n) <= |m| * bs
  }

  /** The sector count computed at mount fits: ((bytes - 1) >> bits) + 1. */
  lemma MountShape(m: Amap, bs: nat, n: nat)
    requires bs > 0 && n > FIRST_CLUSTER
    requires |m| == (MapBytes(n) - 1) / bs + 1
    requires forall i :: 0 <= i < |m| ==> |m[i]| == bs
    ensures Shape(m, bs, n)
  {
    var q, r := (MapBytes(n) - 1) / bs, (MapBytes(n) - 1) % bs;
    assert MapBytes(n) - 1 == q * bs + r;
    assert |m| * bs == q * bs + bs;
  }

  /** Byte b of sector i. */
  lemma FlatAt(m: Amap, bs: nat, i: nat, b: nat)
    requires Shaped(m, bs)
    ensures |Flat(m)| == |m| * bs
    ensures i < |m| && b < bs ==> i * bs + b < |Flat(m)| && Flat(m)[i * bs + b] == m[i][b]
  {
    FlatLength(m, bs);
    if i < |m| && b < bs {
      MulGap(i, |m|, bs);
      QuotOf(i, b, bs);
      ByteOf(m, bs, i * bs + b);
    }
  }

  lemma FlatPut(m: Amap, bs: nat, i: nat, b: nat, x: byte)
    requires Shaped(m, bs) && i < |m| && b < bs
    ensures i * bs + b < |Flat(m)|
    ensures Flat(PutByte(m, i, b, x)) == Flat(m)[i * bs + b := x]
  {
    FlatAt(m, bs, i, b);
    QuotOf(i, b, bs);
    ByteOfPut(m, bs, i * bs + b, x);
  }

  /** Whether cluster `clu` is marked in use. */
  ghost predicate IsSet(f: seq<byte>, clu: nat)
    requires clu >= FIRST_CLUSTER && (clu - FIRST_CLUSTER) / 8 < |f|
  {
    Bit(f[(clu - FIRST_CLUSTER) / 8], (clu - FIRST_CLUSTER) % 8)
  }

  /** The clusters marked in use: what the bitmap stands for. */
  ghost function InUse(f: seq<byte>, n: nat): (s: set<nat>)
    requires n > FIRST_CLUSTER && MapBytes(n) <= |f|
  {
    set c: nat | FIRST_CLUSTER <= c < n && IsSet(f, c)
  }

  /** A well-shaped bitmap whose first `hi` bits are exactly those of `s`. */
  ghost predicate Marks(m: Amap, bs: nat, n: nat, hi: nat, s: set<nat>)
    decreases hi
  {
    if hi == 0 then s == {} && Shape(m, bs, n)
    else
      var c := FIRST_CLUSTER + hi - 1;
      hi <= 8 * |Flat(m)| && (c in s <==> IsSet(Flat(m), c)) && Marks(m, bs, n, hi - 1, s - {c})
  }

  lemma {:induction false} MarksMembers(m: Amap, bs: nat, n: nat, hi: nat, s: set<nat>)
    requires hi <= 8 * |Flat(m)|
    ensures Marks(m, bs, n, hi, s) <==>
              && Shape(m, bs, n)
              && forall c: nat :: c in s <==> FIRST_CLUSTER <= c < FIRST_CLUSTER + hi && IsSet(Flat(m), c)
    decreases hi
  {
    if hi > 0 {
      var c := FIRST_CLUSTER + hi - 1;
      MarksMembers(m, bs, n, hi - 1, s - {c});
      if Marks(m, bs, n, hi, s) {
        forall x: nat
          ensures x in s <==> FIRST_CLUSTER <= x < FIRST_CLUSTER + hi && IsSet(Flat(m), x)
        {
          assert x != c ==> (x in s <==> x in s - {c});
        }
      }
    }
  }

  /** The bitmap `m` marks exactly the clusters `s`. */
  ghost predicate Represents(m: Amap, bs: nat, n: nat, s: set<nat>) {
    n > FIRST_CLUSTER && Marks(m, bs, n, n - FIRST_CLUSTER, s)
  }

  lemma {:induction false} MarksShape(m: Amap, bs: nat, n: nat, hi: nat, s: set<nat>)
    requires Marks(m, bs, n, hi, s)
    ensures Shape(m, bs, n)
    decreases hi
  {
    if hi > 0 { MarksShape(m, bs, n, hi - 1, s - {FIRST_CLUSTER + hi - 1}); }
  }

  lemma RepresentsInUse(m: Amap, bs: nat, n: nat, s: set<nat>)
    requires n > FIRST_CLUSTER
    ensures Represents(m, bs, n, s) <==> Shape(m, bs, n) && |Flat(m)| >= MapBytes(n) && s == InUse(Flat(m), n)
  {
    if Represents(m, bs, n, s) { MarksShape(m, bs, n, n - FIRST_CLUSTER, s); }
    if Shape(m, bs, n) {
      FlatAt(m, bs, 0, 0);
      MarksMembers(m, bs, n, n - FIRST_CLUSTER, s);
    }
  }

  /** set_bit_le / clear_bit_le address a cluster by its bit within a sector;
      the scan addresses it by byte and bit. The two agree. */
  lemma BitInSector(ent: nat, bs: nat)
    requires bs > 0
    ensures 8 * bs > 0
    ensures ent % (8 * bs) / 8 == ent / 8 % bs
    ensures ent % (8 * bs) % 8 == ent % 8
  {
    DivDiv(ent, 8, bs);
  }

  /** Where exfat_set_bitmap and exfat_clear_bitmap look for a cluster. */
  lemma Addressed(m: Amap, bs: nat, n: nat, clu: nat)
    requires Shape(m, bs, n) && IsValidCluster(n, clu)
    ensures var ent := clu - FIRST_CLUSTER;
            && 8 * bs > 0
            && ent / 8 / bs < |m|
            && ent % (8 * bs) / 8 < bs
            && ent / 8 / bs * bs + ent % (8 * bs) / 8 == ent / 8
            && ent % (8 * bs) % 8 == ent % 8
  {
    var p := (clu - FIRST_CLUSTER) / 8;
    BitInSector(clu - FIRST_CLUSTER, bs);
    assert p == p / bs * bs + p % bs;
    if p / bs >= |m| { MulGap(|m| - 1, p / bs, bs); }
  }

  lemma OpsBounded8(x: byte, b: nat)
    requires b < 8
    ensures Or(x, Pow2(b)) < 256 && AndNot(x, Pow2(b)) < 256
  {
    assert Pow2(8) == 256;
    Pow2Mono(b, 7);
    OpsBounded(x, Pow2(b), 8);
  }

  /** exfat_set_bitmap */
  function SetBitmap(m: Amap, bs: nat, n: nat, clu: nat): (m': Amap)
    requires Shape(m, bs, n) && IsValidCluster(n, clu)
  {
    Addressed(m, bs, n, clu);
    var ent := clu - FIRST_CLUSTER;
    var i, b := ent / 8 / bs, ent % (8 * bs);
    OpsBounded8(m[i][b / 8], b % 8);
    PutByte(m, i, b / 8, Or(m[i][b / 8], Pow2(b % 8)))
  }

  /** exfat_clear_bitmap */
  function ClearBitmap(m: Amap, bs: nat, n: nat, clu: nat): (m': Amap)
    requires Shape(m, bs, n) && IsValidCluster(n, clu)
  {
    Addressed(m, bs, n, clu);
    var ent := clu - FIRST_CLUSTER;
    var i, b := ent / 8 / bs, ent % (8 * bs);
    OpsBounded8(m[i][b / 8], b % 8);
    PutByte(m, i, b / 8, AndNot(m[i][b / 8], Pow2(b % 8)))
  }

  /** Replacing one byte changes the marks of its eight clusters only. */
  lemma ByteChange(f: seq<byte>, n: nat, p: nat, x: byte, c: nat)
    requires n > FIRST_CLUSTER && MapBytes(n) <= |f| && p < |f| && IsValidCluster(n, c)
    ensures IsSet(f[p := x], c) <==>
            if (c - FIRST_CLUSTER) / 8 == p then Bit(x, (c - FIRST_CLUSTER) % 8) else IsSet(f, c)
  {
  }

  /** Setting a bit adds exactly its cluster. */
  lemma SetBitmapMarks(m: Amap, bs: nat, n: nat, clu: nat)
    requires Shape(m, bs, n) && IsValidCluster(n, clu)
    ensures Shape(SetBitmap(m, bs, n, clu), bs, n)
    ensures |Flat(m)| >= MapBytes(n) && |Flat(SetBitmap(m, bs, n, clu))| >= MapBytes(n)
    ensures InUse(Flat(SetBitmap(m, bs, n, clu)), n) == InUse(Flat(m), n) + {clu}
  {
    var f := Flat(m);
    var p, b := (clu - FIRST_CLUSTER) / 8, (clu - FIRST_CLUSTER) % 8;
    Addressed(m, bs, n, clu);
    var i, k := p / bs, (clu - FIRST_CLUSTER) % (8 * bs) / 8;
    FlatAt(m, bs, i, k);
    var x: byte := f[p];
    OpsBounded8(x, b);
    var y: byte := Or(x, Pow2(b));
    FlatPut(m, bs, i, k, y);
    forall c: nat | IsValidCluster(n, c)
      ensures IsSet(f[p := y], c) <==> c == clu || IsSet(f, c)
    {
      ByteChange(f, n, p, y, c);
      OrBit(x, Pow2(b), (c - FIRST_CLUSTER) % 8);
      Pow2Bit(b, (c - FIRST_CLUSTER) % 8);
    }
  }

  /** Clearing a bit removes exactly its cluster. */
  lemma ClearBitmapUnmarks(m: Amap, bs: nat, n: nat, clu: nat)
    requires Shape(m, bs, n) && IsValidCluster(n, clu)
    ensures Shape(ClearBitmap(m, bs, n, clu), bs, n)
    ensures |Flat(m)| >= MapBytes(n) && |Flat(ClearBitmap(m, bs, n, clu))| >= MapBytes(n)
    ensures InUse(Flat(ClearBitmap(m, bs, n, clu)), n) == InUse(Flat(m), n) - {clu}
  {
    var f := Flat(m);
    var p, b := (clu - FIRST_CLUSTER) / 8, (clu - FIRST_CLUSTER) % 8;
    Addressed(m, bs, n, clu);
    var i, k := p / bs, (clu - FIRST_CLUSTER) % (8 * bs) / 8;
    FlatAt(m, bs, i, k);
    var x: byte := f[p];
    OpsBounded8(x, b);
    var y: byte := AndNot(x, Pow2(b));
    FlatPut(m, bs, i, k, y);
    forall c: nat | IsValidCluster(n, c)
      ensures IsSet(f[p := y], c) <==> c != clu && IsSet(f, c)
    {
      ByteChange(f, n, p, y, c);
      AndNotBit(x, Pow2(b), (c - FIRST_CLUSTER) % 8);
      Pow2Bit(b, (c - FIRST_CLUSTER) % 8);
    }
  }

  /** The first number in [lo, hi) outside `a`, or `hi`. */
  ghost function FirstFree(a: set<nat>, lo: nat, hi: nat): (r: nat)
    requires lo <= hi
    ensures lo <= r <= hi
    decreases hi - lo
  {
    if lo == hi || lo !in a then lo else FirstFree(a, lo + 1, hi)
  }

  lemma {:induction false} FirstFreeIsFirst(a: set<nat>, lo: nat, hi: nat)
    requires lo <= hi
    ensures FirstFree(a, lo, hi) < hi ==> FirstFree(a, lo, hi) !in a
    ensures forall c: nat :: lo <= c < FirstFree(a, lo, hi) ==> c in a
    decreases hi - lo
  {
    if lo < hi && lo in a { FirstFreeIsFirst(a, lo + 1, hi); }
  }

  /** The first cluster that shares a bitmap byte with `clu`. */
  function ByteStart(clu: nat): (c: nat)
    requires clu >= FIRST_CLUSTER
    ensures FIRST_CLUSTER <= c <= clu < c + 8
  {
    FIRST_CLUSTER + (clu - FIRST_CLUSTER) / 8 * 8
  }

  /** Where a search from `clu` ends: the clusters from `clu` up, then those from
      the first cluster up to the byte of `clu`; the clusters below `clu` in its
      own byte are not looked at. */
  ghost function ScanFrom(a: set<nat>, n: nat, clu: nat): (r: nat)
    requires IsValidCluster(n, clu)
  {
    var up := FirstFree(a, clu, n);
    if up < n then up
    else
      var low := FirstFree(a, FIRST_CLUSTER, ByteStart(clu));
      if low < ByteStart(clu) then low else EOF_CLUSTER
  }

  /** The order of the scan spelled out. */
  lemma ScanOrder(a: set<nat>, n: nat, clu: nat)
    requires IsValidCluster(n, clu) && n <= BAD_CLUSTER
    ensures var r := ScanFrom(a, n, clu);
            if r == EOF_CLUSTER then
              && (forall c: nat :: clu <= c < n ==> c in a)
              && (forall c: nat :: FIRST_CLUSTER <= c < ByteStart(clu) ==> c in a)
            else
              && IsValidCluster(n, r) && r !in a
              && (if clu <= r then forall c: nat :: clu <= c < r ==> c in a
                  else
                    && r < ByteStart(clu)
                    && (forall c: nat :: clu <= c < n ==> c in a)
                    && (forall c: nat :: FIRST_CLUSTER <= c < r ==> c in a))
  {
    FirstFreeIsFirst(a, clu, n);
    FirstFreeIsFirst(a, FIRST_CLUSTER, ByteStart(clu));
  }

  /** The bits of one byte, the lowest `j` of them ignored: the first zero bit. */
  lemma MaskedByte(x: byte, j: nat)
    requires j < 8
    ensures Or(x, Pow2(j) - 1) < 256
    ensures Or(x, Pow2(j) - 1) == 255 ==> forall i :: j <= i < 8 ==> Bit(x, i)
    ensures Or(x, Pow2(j) - 1) < 255 ==>
              var t := FreeBit(Or(x, Pow2(j) - 1));
              j <= t < 8 && !Bit(x, t) && forall i :: j <= i < t ==> Bit(x, i)
  {
    var y := Or(x, Pow2(j) - 1);
    assert Pow2(8) == 256;
    Pow2Mono(j, 8);
    OpsBounded(x, Pow2(j) - 1, 8);
    forall i: nat | i < 8
      ensures Bit(y, i) <==> i < j || Bit(x, i)
    {
      OrBit(x, Pow2(j) - 1, i);
      LowMaskBit(j, i);
    }
    if y == 255 {
      forall i: nat | i < 8 ensures Bit(y, i) { LowMaskBit(8, i); }
    } else {
      FreeBitTable(y);
      TrailingOnesFinds(y, 8);
    }
  }

  /** The first zero bit of a byte from bit `j` up, or 8. */
  ghost function NextZero(x: byte, j: nat): (t: nat)
    requires j <= 8
    ensures j <= t <= 8
    decreases 8 - j
  {
    if j == 8 || !Bit(x, j) then j else NextZero(x, j + 1)
  }

  lemma {:induction false} NextZeroIsFirst(x: byte, j: nat)
    requires j <= 8
    ensures NextZero(x, j) < 8 ==> !Bit(x, NextZero(x, j))
    ensures forall i :: j <= i < NextZero(x, j) ==> Bit(x, i)
    decreases 8 - j
  {
    if j < 8 && Bit(x, j) { NextZeroIsFirst(x, j + 1); }
  }

  /** One look-up of the scan, k |= clu_mask; if (k < 0xFF) ... free_bit[k]. */
  method ProbeByte(x: byte, mask: nat, ghost j: nat) returns (t: nat)
    requires j < 8 && mask == Pow2(j) - 1
    ensures t == NextZero(x, j)
  {
    MaskedByte(x, j);
    NextZeroIsFirst(x, j);
    var k := x;
    if mask > 0 {
      k := Or(k, mask);
    } else {
      OrZero(x);
    }
    t := if k < 0xFF then FreeBit(k) else 8;
  }

  /** What one look-up says about the clusters of byte `p`. */
  lemma ProbedClusters(f: seq<byte>, n: nat, p: nat, j: nat)
    requires n > FIRST_CLUSTER && MapBytes(n) <= |f| && p < MapBytes(n) && j <= 8
    ensures var t := NextZero(f[p], j);
            && (t < 8 ==> FIRST_CLUSTER + 8 * p + t !in InUse(f, n))
            && forall c: nat :: FIRST_CLUSTER + 8 * p + j <= c < FIRST_CLUSTER + 8 * p + t && c < n ==> c in InUse(f, n)
  {
    NextZeroIsFirst(f[p], j);
    var base := FIRST_CLUSTER + 8 * p;
    forall c: nat | base <= c < base + 8 && c < n
      ensures c in InUse(f, n) <==> Bit(f[p], c - base)
    {
      assert (c - FIRST_CLUSTER) / 8 == p && (c - FIRST_CLUSTER) % 8 == c - base;
    }
  }

  /** Where sector `i` starts in the stretch of bytes. */
  ghost function Offset(m: Amap, i: nat): (o: nat)
    requires i <= |m|
  {
    if i == 0 then 0 else Offset(m, i - 1) + |m[i - 1]|
  }

  lemma {:induction false} OffsetIsProduct(m: Amap, bs: nat, i: nat)
    requires i <= |m| && forall k :: 0 <= k < |m| ==> |m[k]| == bs
    ensures Offset(m, i) == i * bs
  {
    if i > 0 { OffsetIsProduct(m, bs, i - 1); }
  }

  /** The cursors of the scan start on the byte of `clu`. */
  lemma CursorStart(m: Amap, bs: nat, n: nat, clu: nat)
    requires Shape(m, bs, n) && IsValidCluster(n, clu)
    ensures var p := (clu - FIRST_CLUSTER) / 8;
            p / bs < |m| && Offset(m, p / bs) + p % bs == p
  {
    Addressed(m, bs, n, clu);
    OffsetIsProduct(m, bs, (clu - FIRST_CLUSTER) / 8 / bs);
  }

  /** Byte `b` of sector `i`, and where the cursors go from there. */
  lemma CursorStep(m: Amap, bs: nat, n: nat, i: nat, b: nat)
    requires Shape(m, bs, n) && b < bs && i < |m| && Offset(m, i) + b < MapBytes(n)
    ensures Offset(m, i) + b < |Flat(m)| && Flat(m)[Offset(m, i) + b] == m[i][b]
    ensures Offset(m, i + 1) == Offset(m, i) + bs
    ensures Offset(m, i) + b + 1 == MapBytes(n) ==> i + 1 == |m|
    ensures b + 1 == bs && i + 1 == |m| ==> Offset(m, i) + b + 1 == MapBytes(n)
  {
    FlatAt(m, bs, i, b);
    OffsetIsProduct(m, bs, i);
    assert (i + 1) * bs == i * bs + bs;
    if i + 1 < |m| { MulGap(i, |m| - 1, bs); }
  }

  /** The byte looked at in step `t` of a scan that starts in byte `first`. */
  ghost function BytePos(first: nat, t: nat, nb: nat): (p: int) {
    if first + t < nb then first + t else first + t - nb
  }

  /** The clusters that step `t` looks at are all in use. */
  ghost predicate StepCovered(a: set<nat>, n: nat, clu: nat, t: nat)
    requires IsValidCluster(n, clu)
  {
    var base := FIRST_CLUSTER + 8 * BytePos((clu - FIRST_CLUSTER) / 8, t, MapBytes(n));
    forall c: nat :: base <= c < base + 8 && (t == 0 ==> clu <= c) && c < n ==> c in a
  }

  /** The clusters that the first `t` steps look at are all in use. */
  ghost predicate Covered(a: set<nat>, n: nat, clu: nat, t: nat)
    requires IsValidCluster(n, clu)
    decreases t
  {
    t > 0 ==> Covered(a, n, clu, t - 1) && StepCovered(a, n, clu, t - 1)
  }

  lemma {:induction false} CoveredAll(a: set<nat>, n: nat, clu: nat, t: nat)
    requires IsValidCluster(n, clu) && t <= MapBytes(n) && Covered(a, n, clu, t)
    ensures var first := (clu - FIRST_CLUSTER) / 8;
            && (forall c: nat :: clu <= c < n && c < FIRST_CLUSTER + 8 * (first + t) ==> c in a)
            && (forall c: nat :: FIRST_CLUSTER <= c < FIRST_CLUSTER + 8 * (first + t - MapBytes(n)) ==> c in a)
  {
    if t > 0 { CoveredAll(a, n, clu, t - 1); }
  }

  /** The bits of its byte that step `t` ignores. */
  ghost function Skipped(clu: nat, t: nat): (j: nat)
    requires clu >= FIRST_CLUSTER
    ensures j < 8
  {
    if t == 0 then (clu - FIRST_CLUSTER) % 8 else 0
  }

  /** Step `t` finds the first zero bit of its byte, or none. */
  lemma ScanStep(f: seq<byte>, n: nat, clu: nat, t: nat, p: nat)
    requires IsValidCluster(n, clu) && MapBytes(n) <= |f| && t < MapBytes(n)
    requires Covered(InUse(f, n), n, clu, t)
    requires p == BytePos((clu - FIRST_CLUSTER) / 8, t, MapBytes(n))
    ensures var free := NextZero(f[p], Skipped(clu, t));
            if free < 8 && FIRST_CLUSTER + 8 * p + free < n
            then ScanFrom(InUse(f, n), n, clu) == FIRST_CLUSTER + 8 * p + free
            else Covered(InUse(f, n), n, clu, t + 1)
  {
    var a := InUse(f, n);
    CoveredAll(a, n, clu, t);
    var first, nb := (clu - FIRST_CLUSTER) / 8, MapBytes(n);
    var j := Skipped(clu, t);
    var free := NextZero(f[p], j);
    var base := FIRST_CLUSTER + 8 * p;
    ProbedClusters(f, n, p, j);
    if free < 8 && base + free < n {
      if first + t < nb {
        assert forall x: nat :: clu <= x < base + free ==> x in a;
      }
      ScanFound(a, n, clu, base + free);
    } else {
      assert StepCovered(a, n, clu, t);
    }
  }

  lemma ScanFound(a: set<nat>, n: nat, clu: nat, c: nat)
    requires IsValidCluster(n, clu) && c !in a
    requires (clu <= c < n && forall x: nat :: clu <= x < c ==> x in a)
          || (FIRST_CLUSTER <= c < ByteStart(clu) && (forall x: nat :: clu <= x < n ==> x in a)
              && forall x: nat :: FIRST_CLUSTER <= x < c ==> x in a)
    ensures ScanFrom(a, n, clu) == c
  {
    FirstFreeIsFirst(a, clu, n);
    FirstFreeIsFirst(a, FIRST_CLUSTER, ByteStart(clu));
  }

  lemma ScanExhausted(a: set<nat>, n: nat, clu: nat)
    requires IsValidCluster(n, clu)
    requires Covered(a, n, clu, MapBytes(n))
    ensures ScanFrom(a, n, clu) == EOF_CLUSTER
  {
    CoveredAll(a, n, clu, MapBytes(n));
    FirstFreeIsFirst(a, clu, n);
    FirstFreeIsFirst(a, FIRST_CLUSTER, ByteStart(clu));
  }

  /** The cursors of the scan: sector, byte in sector, first cluster of the byte. */
  datatype Cursor = Cursor(mapI: nat, mapB: nat, cluBase: nat)

  function StartCursor(bs: nat, clu: nat): (c: Cursor)
    requires bs > 0 && clu >= FIRST_CLUSTER
  {
    var p := (clu - FIRST_CLUSTER) / 8;
    Cursor(p / bs, p % bs, FIRST_CLUSTER + p * 8)
  }

  /** One step of the cursors. */
  function NextCursor(sectors: nat, bs: nat, n: nat, c: Cursor): (c': Cursor) {
    if c.mapB + 1 >= bs || c.cluBase + 8 >= n then
      if c.mapI + 1 >= sectors then Cursor(0, 0, FIRST_CLUSTER) else Cursor(c.mapI + 1, 0, c.cluBase + 8)
    else Cursor(c.mapI, c.mapB + 1, c.cluBase + 8)
  }

  ghost function CursorAt(sectors: nat, bs: nat, n: nat, clu: nat, t: nat): (c: Cursor)
    requires bs > 0 && clu >= FIRST_CLUSTER
    decreases t
  {
    if t == 0 then StartCursor(bs, clu) else NextCursor(sectors, bs, n, CursorAt(sectors, bs, n, clu, t - 1))
  }

  /** The cursors point at the byte of step `t`. */
  lemma {:induction false} CursorIs(m: Amap, bs: nat, n: nat, clu: nat, t: nat)
    requires Shape(m, bs, n) && IsValidCluster(n, clu) && t < MapBytes(n)
    ensures var c := CursorAt(|m|, bs, n, clu, t);
            var p := BytePos((clu - FIRST_CLUSTER) / 8, t, MapBytes(n));
            && c.mapI < |m| && c.mapB < bs && Offset(m, c.mapI) + c.mapB == p
            && c.cluBase == FIRST_CLUSTER + 8 * p
    decreases t
  {
    if t == 0 {
      CursorStart(m, bs, n, clu);
    } else {
      CursorIs(m, bs, n, clu, t - 1);
      var c := CursorAt(|m|, bs, n, clu, t - 1);
      CursorStep(m, bs, n, c.mapI, c.mapB);
    }
  }

  /** One turn of the scan. */
  lemma ScanTurn(m: Amap, bs: nat, n: nat, clu: nat, t: nat, a: set<nat>)
    requires Represents(m, bs, n, a) && IsValidCluster(n, clu) && bs > 0
    requires Covered(a, n, clu, t) && FIRST_CLUSTER + 8 * t < n
    ensures var c := CursorAt(|m|, bs, n, clu, t);
            && c.mapI < |m| && c.mapB < |m[c.mapI]|
            && var free := NextZero(m[c.mapI][c.mapB], Skipped(clu, t));
               if free < 8 && c.cluBase + free < n then ScanFrom(a, n, clu) == c.cluBase + free
               else Covered(a, n, clu, t + 1)
  {
    RepresentsInUse(m, bs, n, a);
    CursorIs(m, bs, n, clu, t);
    var c := CursorAt(|m|, bs, n, clu, t);
    CursorStep(m, bs, n, c.mapI, c.mapB);
    ScanStep(Flat(m), n, clu, t, BytePos((clu - FIRST_CLUSTER) / 8, t, MapBytes(n)));
  }

  lemma ScanOver(a: set<nat>, n: nat, clu: nat, t: nat)
    requires IsValidCluster(n, clu) && Covered(a, n, clu, t)
    requires t > 0 && FIRST_CLUSTER + 8 * (t - 1) < n <= FIRST_CLUSTER + 8 * t
    ensures ScanFrom(a, n, clu) == EOF_CLUSTER
  {
    assert t == MapBytes(n);
    ScanExhausted(a, n, clu);
  }

  lemma RepresentsBlockSize(m: Amap, bs: nat, n: nat, a: set<nat>)
    requires Represents(m, bs, n, a)
    ensures bs > 0
  {
    MarksShape(m, bs, n, n - FIRST_CLUSTER, a);
  }

  /** exfat_find_free_bitmap: the byte and sector cursors walk the bitmap once,
      wrapping at its end. */
  method FindFreeBitmap(m: Amap, bs: nat, n: nat, clu: nat, ghost a: set<nat>) returns (r: nat)
    requires Represents(m, bs, n, a) && IsValidCluster(n, clu)
    ensures r == ScanFrom(a, n, clu)
  {
    RepresentsBlockSize(m, bs, n, a);
    var c := StartCursor(bs, clu);
    var cluMask: nat := Pow2((clu - FIRST_CLUSTER) % 8) - 1;
    ghost var t: nat := 0;
    var i := FIRST_CLUSTER;
    while i < n
      invariant i == FIRST_CLUSTER + 8 * t && (t > 0 ==> i < n + 8)
      invariant c == CursorAt(|m|, bs, n, clu, t)
      invariant cluMask == Pow2(Skipped(clu, t)) - 1
      invariant Covered(a, n, clu, t)
    {
      ScanTurn(m, bs, n, clu, t, a);
      var free := ProbeByte(m[c.mapI][c.mapB], cluMask, Skipped(clu, t));
      if free < 8 && c.cluBase + free < n {
        return c.cluBase + free;
      }
      cluMask := 0;
      c := NextCursor(|m|, bs, n, c);
      t := t + 1;
      i := i + 8;
    }
    ScanOver(a, n, clu, t);
    return EOF_CLUSTER;
  }

  /** How many of the first `hi` bits are set. */
  ghost function CountBelow(f: seq<byte>, hi: nat): (k: nat)
    requires hi <= 8 * |f|
  {
    if hi == 0 then 0
    else CountBelow(f, hi - 1) + (if Bit(f[(hi - 1) / 8], (hi - 1) % 8) then 1 else 0)
  }

  lemma {:induction false} CountByte(f: seq<byte>, p: nat, w: nat)
    requires p < |f| && w <= 8
    ensures CountBelow(f, 8 * p + w) == CountBelow(f, 8 * p) + LowPop(f[p], w)
    decreases w
  {
    if w > 0 {
      CountByte(f, p, w - 1);
      LowPopGrows(f[p], w - 1);
      assert (8 * p + w - 1) / 8 == p && (8 * p + w - 1) % 8 == w - 1;
    }
  }

  /** The clusters in use below a bound. */
  ghost function InUseBelow(f: seq<byte>, n: nat, hi: nat): (s: set<nat>)
    requires n > FIRST_CLUSTER && MapBytes(n) <= |f|
  {
    set c | c in InUse(f, n) && c < FIRST_CLUSTER + hi
  }

  lemma InUseStep(f: seq<byte>, n: nat, hi: nat)
    requires n > FIRST_CLUSTER && MapBytes(n) <= |f| && 0 < hi && FIRST_CLUSTER + hi <= n
    ensures (hi - 1) / 8 < |f|
    ensures InUseBelow(f, n, hi) == if Bit(f[(hi - 1) / 8], (hi - 1) % 8)
                                    then InUseBelow(f, n, hi - 1) + {FIRST_CLUSTER + hi - 1}
                                    else InUseBelow(f, n, hi - 1)
  {
    var c := FIRST_CLUSTER + hi - 1;
    assert c in InUse(f, n) <==> Bit(f[(hi - 1) / 8], (hi - 1) % 8);
  }

  lemma {:induction false} CountIsCardinality(f: seq<byte>, n: nat, hi: nat)
    requires n > FIRST_CLUSTER && MapBytes(n) <= |f| && FIRST_CLUSTER + hi <= n
    ensures CountBelow(f, hi) == |InUseBelow(f, n, hi)|
    decreases hi
  {
    if hi == 0 {
      assert InUseBelow(f, n, hi) == {};
    } else {
      CountIsCardinality(f, n, hi - 1);
      InUseStep(f, n, hi);
      assert FIRST_CLUSTER + hi - 1 !in InUseBelow(f, n, hi - 1);
    }
  }

  lemma InUseSize(f: seq<byte>, n: nat)
    requires n > FIRST_CLUSTER && MapBytes(n) <= |f|
    ensures |InUse(f, n)| == CountBelow(f, n - FIRST_CLUSTER)
  {
    CountIsCardinality(f, n, n - FIRST_CLUSTER);
    assert InUse(f, n) == set c | c in InUse(f, n) && c < n;
  }

  /** used_bit[x], and used_bit[x & last_bit_mask[w]] when w < 8: the ones among
      the lowest `w` bits of byte `p`. */
  method CountBits(x: byte, w: nat, ghost f: seq<byte>, ghost p: nat) returns (k: nat)
    requires w <= 8 && p < |f| && f[p] == x
    ensures CountBelow(f, 8 * p + w) == CountBelow(f, 8 * p) + k
  {
    CountByte(f, p, w);
    if w == 8 {
      UsedBitTable(x);
      k := UsedBit(x);
    } else {
      assert Pow2(8) == 256;
      Pow2Mono(w, 8);
      OpsBounded(x, Pow2(w) - 1, 8);
      LowPopMasked(x, w, 8);
      UsedBitTable(And(x, Pow2(w) - 1));
      k := UsedBit(And(x, Pow2(w) - 1));
    }
  }

  /** The cursors of the count after `t` bytes: sector and byte in sector. */
  function NextByte(bs: nat, c: (nat, nat)): (c': (nat, nat)) {
    if c.1 + 1 >= bs then (c.0 + 1, 0) else (c.0, c.1 + 1)
  }

  ghost function ByteCursor(bs: nat, t: nat): (c: (nat, nat)) {
    if t == 0 then (0, 0) else NextByte(bs, ByteCursor(bs, t - 1))
  }

  lemma {:induction false} ByteCursorIs(m: Amap, bs: nat, n: nat, t: nat)
    requires Shape(m, bs, n) && t < MapBytes(n)
    ensures var c := ByteCursor(bs, t); c.0 < |m| && c.1 < bs && Offset(m, c.0) + c.1 == t
  {
    if t > 0 {
      ByteCursorIs(m, bs, n, t - 1);
      var c := ByteCursor(bs, t - 1);
      CursorStep(m, bs, n, c.0, c.1);
    }
  }

  /** The byte under the cursors. */
  lemma CountTurn(m: Amap, bs: nat, n: nat, t: nat, a: set<nat>)
    requires Represents(m, bs, n, a) && FIRST_CLUSTER + 8 * t < n
    ensures var c := ByteCursor(bs, t);
            && c.0 < |m| && c.1 < |m[c.0]|
            && t < |Flat(m)| && Flat(m)[t] == m[c.0][c.1]
  {
    RepresentsInUse(m, bs, n, a);
    ByteCursorIs(m, bs, n, t);
    var c := ByteCursor(bs, t);
    CursorStep(m, bs, n, c.0, c.1);
  }

  lemma CountedAll(m: Amap, bs: nat, n: nat, a: set<nat>)
    requires Represents(m, bs, n, a)
    ensures n - FIRST_CLUSTER <= 8 * |Flat(m)| && CountBelow(Flat(m), n - FIRST_CLUSTER) == |a|
  {
    RepresentsInUse(m, bs, n, a);
    InUseSize(Flat(m), n);
  }

  /** exfat_count_used_clusters: table look-ups over whole bytes, then the last
      byte with the bits past the last cluster masked off. */
  method CountUsedClusters(m: Amap, bs: nat, n: nat, ghost a: set<nat>) returns (count: nat)
    requires Represents(m, bs, n, a)
    ensures count == |a|
  {
    CountedAll(m, bs, n, a);
    ghost var f := Flat(m);
    var lastMask: nat, whole: nat := (n - FIRST_CLUSTER) % 8, (n - FIRST_CLUSTER) / 8;
    count := 0;
    var t: nat, c := 0, (0, 0);
    while t < whole
      invariant t <= whole && 8 * t <= 8 * |f|
      invariant c == ByteCursor(bs, t)
      invariant count == CountBelow(f, 8 * t)
    {
      CountTurn(m, bs, n, t, a);
      var used := CountBits(m[c.0][c.1], 8, f, t);
      count := count + used;
      c := NextByte(bs, c);
      t := t + 1;
    }
    if lastMask > 0 {
      CountTurn(m, bs, n, t, a);
      var used := CountBits(m[c.0][c.1], lastMask, f, t);
      count := count + used;
    }
  }
}

/** Reading and writing FAT entries in sectors: __FAT_read and __FAT_write of
    fs/exfat/exfat_cache.c, for sectors that can be read. */
module FatSectors {
  import opened Arith
  import opened Common
  import opened FatEntry
  import opened SectorBytes

  /** SET16: two bytes, the least significant first. */
  function Set16(f: seq<byte>, p: nat, v: nat): (f': seq<byte>)
    requires p + 2 <= |f| && v < 0x1_0000
    ensures |f'| == |f|
  {
    f[p := v % 0x100][p + 1 := v / 0x100]
  }

  /** A number from its four lowest half bytes and the rest. */
  function Join(d0: nat, d1: nat, d2: nat, d3: nat, rest: nat): (v: nat) {
    d0 + 16 * d1 + 256 * d2 + 4096 * d3 + 0x1_0000 * rest
  }

  lemma DigitCons(d: nat, r: nat, j: nat)
    requires d < 16
    ensures Digit(d + 16 * r, 0) == d && Digit(d + 16 * r, j + 1) == Digit(r, j)
  {
    assert (d + 16 * r) / 16 == r;
  }

  lemma JoinDigits(d0: nat, d1: nat, d2: nat, d3: nat, rest: nat, j: nat)
    requires d0 < 16 && d1 < 16 && d2 < 16 && d3 < 16
    ensures var v := Join(d0, d1, d2, d3, rest);
            && Digit(v, 0) == d0 && Digit(v, 1) == d1 && Digit(v, 2) == d2 && Digit(v, 3) == d3
            && Digit(v, j + 4) == Digit(rest, j)
  {
    var v3 := d3 + 16 * rest;
    var v2 := d2 + 16 * v3;
    var v1 := d1 + 16 * v2;
    DigitCons(d3, rest, j);
    DigitCons(d2, v3, 0);
    DigitCons(d2, v3, j + 1);
    DigitCons(d1, v2, 0);
    DigitCons(d1, v2, 1);
    DigitCons(d1, v2, j + 2);
    DigitCons(d0, v1, 0);
    DigitCons(d0, v1, 1);
    DigitCons(d0, v1, 2);
    DigitCons(d0, v1, j + 3);
    assert Join(d0, d1, d2, d3, rest) == d0 + 16 * v1;
  }

  /** The half bytes of a number below 2^16. */
  lemma Halves16(v: nat) returns (d0: nat, d1: nat, d2: nat, d3: nat)
    requires v < 0x1_0000
    ensures d0 < 16 && d1 < 16 && d2 < 16 && d3 < 16 && v == Join(d0, d1, d2, d3, 0)
  {
    var v1 := v / 16;
    var v2 := v1 / 16;
    d0, d1, d2, d3 := v % 16, v1 % 16, v2 % 16, v2 / 16;
    assert v2 < 256;
  }

  lemma JoinBytes(d0: nat, d1: nat, d2: nat, d3: nat)
    requires d0 < 16 && d1 < 16 && d2 < 16 && d3 < 16
    ensures var v := Join(d0, d1, d2, d3, 0);
            v % 0x100 == d0 + 16 * d1 && v / 0x100 == d2 + 16 * d3
  {
    var lo, hi := d0 + 16 * d1, d2 + 16 * d3;
    SplitAt(lo, hi, 0x100);
  }

  lemma SplitAt(lo: nat, hi: nat, d: nat)
    requires lo < d
    ensures (lo + d * hi) % d == lo && (lo + d * hi) / d == hi
  {
    DivUnique(lo + d * hi, hi, lo, d);
  }

  lemma Set16Nib(f: seq<byte>, p: nat, v: nat, k: nat)
    requires p + 2 <= |f| && v < 0x1_0000 && k < 2 * |f|
    ensures Nib(Set16(f, p, v), k) == if 2 * p <= k < 2 * p + 4 then Digit(v, k - 2 * p) else Nib(f, k)
  {
    var d0, d1, d2, d3 := Halves16(v);
    JoinDigits(d0, d1, d2, d3, 0, 0);
    JoinBytes(d0, d1, d2, d3);
    if 2 * p <= k < 2 * p + 4 {
      var f' := Set16(f, p, v);
      ByteNibs(f', p);
      ByteNibs(f', p + 1);
      SplitAt(d0, d1, 16);
      SplitAt(d2, d3, 16);
    }
  }

  /** The two bytes in terms of half bytes. */
  lemma Le16Join(f: seq<byte>, p: nat)
    requires p + 2 <= |f|
    ensures Le16(f, p) == Join(Nib(f, 2 * p), Nib(f, 2 * p + 1), Nib(f, 2 * p + 2), Nib(f, 2 * p + 3), 0)
  {
    ByteNibs(f, p);
    ByteNibs(f, p + 1);
  }

  lemma Shift12(d0: nat, d1: nat, d2: nat, d3: nat)
    requires d0 < 16 && d1 < 16 && d2 < 16 && d3 < 16
    ensures var v := Join(d0, d1, d2, d3, 0);
            v / 16 % 0x1000 == d1 + 16 * d2 + 256 * d3 && v % 0x1000 == d0 + 16 * d1 + 256 * d2
            && v % 16 == d0 && v / 0x1000 == d3 && v < 0x1_0000
  {
    SplitAt(d0, d1 + 16 * d2 + 256 * d3, 16);
    SplitAt(d0 + 16 * d1 + 256 * d2, d3, 0x1000);
    SplitAt(d1 + 16 * d2 + 256 * d3, 0, 0x1000);
  }

  /** A 12-bit entry is part of two bytes: entries come in pairs of three bytes. */
  lemma ReadEven(f: seq<byte>, m: nat)
    requires 6 * m + 4 <= 2 * |f|
    ensures Digits(f, 6 * m, 3) == Le16(f, 3 * m) % 0x1000
  {
    var k := 6 * m;
    Digits3(f, k);
    Le16Join(f, 3 * m);
    Shift12(Nib(f, k), Nib(f, k + 1), Nib(f, k + 2), Nib(f, k + 3));
  }

  lemma ReadOdd(f: seq<byte>, m: nat)
    requires 6 * m + 6 <= 2 * |f|
    ensures Digits(f, 6 * m + 3, 3) == Le16(f, 3 * m + 1) / 16 % 0x1000
  {
    var k := 6 * m + 2;
    Digits3(f, k + 1);
    Le16Join(f, 3 * m + 1);
    Shift12(Nib(f, k), Nib(f, k + 1), Nib(f, k + 2), Nib(f, k + 3));
  }

  lemma Read12(f: seq<byte>, loc: nat)
    requires Has(f, Fat12, loc)
    ensures loc + loc / 2 + 2 <= |f|
    ensures Raw(f, Fat12, loc)
         == (if loc % 2 == 1 then Le16(f, loc + loc / 2) / 16 else Le16(f, loc + loc / 2)) % 0x1000
  {
    var m := loc / 2;
    if loc % 2 == 1 {
      assert loc == 2 * m + 1;
      ReadOdd(f, m);
    } else {
      assert loc == 2 * m;
      ReadEven(f, m);
    }
  }

  /** What is put into the two bytes to write a 12-bit entry. */
  function Merge12(old16: nat, loc: nat, c: nat): (v: nat) {
    if loc % 2 == 1 then c * 16 + old16 % 16 else c + old16 / 0x1000 * 0x1000
  }

  lemma Merge12Join(o0: nat, o1: nat, o2: nat, o3: nat, loc: nat, c0: nat, c1: nat, c2: nat)
    requires o0 < 16 && o1 < 16 && o2 < 16 && o3 < 16 && c0 < 16 && c1 < 16 && c2 < 16
    ensures Merge12(Join(o0, o1, o2, o3, 0), loc, Join(c0, c1, c2, 0, 0))
         == if loc % 2 == 1 then Join(o0, c0, c1, c2, 0) else Join(c0, c1, c2, o3, 0)
  {
    Shift12(o0, o1, o2, o3);
  }

  /** The half bytes after the two bytes are put. */
  lemma Merge12Digits(f: seq<byte>, p: nat, loc: nat, c: nat)
    requires p + 2 <= |f| && c < 0x1000
    ensures var v := Merge12(Le16(f, p), loc, c);
            && v < 0x1_0000
            && (loc % 2 == 1 ==> Digit(v, 0) == Nib(f, 2 * p) && Digit(v, 1) == Digit(c, 0)
                                 && Digit(v, 2) == Digit(c, 1) && Digit(v, 3) == Digit(c, 2))
            && (loc % 2 == 0 ==> Digit(v, 0) == Digit(c, 0) && Digit(v, 1) == Digit(c, 1)
                                 && Digit(v, 2) == Digit(c, 2) && Digit(v, 3) == Nib(f, 2 * p + 3))
  {
    var o0, o1, o2, o3 := Nib(f, 2 * p), Nib(f, 2 * p + 1), Nib(f, 2 * p + 2), Nib(f, 2 * p + 3);
    var c0, c1, c2, c3 := Halves16(c);
    Le16Join(f, p);
    Merge12Join(o0, o1, o2, o3, loc, c0, c1, c2);
    JoinDigits(c0, c1, c2, c3, 0, 0);
    if loc % 2 == 1 { JoinDigits(o0, c0, c1, c2, 0, 0); } else { JoinDigits(c0, c1, c2, o3, 0, 0); }
  }

  lemma Set16Patched(f: seq<byte>, p: nat, v: nat)
    requires p + 2 <= |f| && v < 0x1_0000
    ensures Patched(f, Set16(f, p, v), 2 * p, 4, v)
  {
    var f' := Set16(f, p, v);
    forall k | 0 <= k < 2 * |f| ensures Nib(f', k) == Wanted(f, 2 * p, 4, v, k) { Set16Nib(f, p, v, k); }
    PatchedAll(f, f', 2 * p, 4, v, 2 * |f|);
  }

  /** Of four half bytes put, the last or the first was as before. */
  lemma KeepLast(f: seq<byte>, f': seq<byte>, k0: nat, v: nat, c: nat)
    requires Patched(f, f', k0, 4, v) && k0 + 4 <= 2 * |f|
    requires Digit(v, 0) == Digit(c, 0) && Digit(v, 1) == Digit(c, 1) && Digit(v, 2) == Digit(c, 2)
    requires Digit(v, 3) == Nib(f, k0 + 3)
    ensures Patched(f, f', k0, 3, c)
  {
    forall k | 0 <= k < 2 * |f| ensures Nib(f', k) == Wanted(f, k0, 3, c, k) {
      PatchedAt(f, f', k0, 4, v, 2 * |f|, k);
      KeepLastAt(f, k0, v, c, k);
    }
    PatchedAll(f, f', k0, 3, c, 2 * |f|);
  }

  lemma KeepLastAt(f: seq<byte>, k0: nat, v: nat, c: nat, k: nat)
    requires k < 2 * |f| && k0 + 4 <= 2 * |f|
    requires Digit(v, 0) == Digit(c, 0) && Digit(v, 1) == Digit(c, 1) && Digit(v, 2) == Digit(c, 2)
    requires Digit(v, 3) == Nib(f, k0 + 3)
    ensures Wanted(f, k0, 4, v, k) == Wanted(f, k0, 3, c, k)
  {
  }

  lemma KeepFirst(f: seq<byte>, f': seq<byte>, k0: nat, v: nat, c: nat)
    requires Patched(f, f', k0, 4, v) && k0 + 4 <= 2 * |f|
    requires Digit(v, 1) == Digit(c, 0) && Digit(v, 2) == Digit(c, 1) && Digit(v, 3) == Digit(c, 2)
    requires Digit(v, 0) == Nib(f, k0)
    ensures Patched(f, f', k0 + 1, 3, c)
  {
    forall k | 0 <= k < 2 * |f| ensures Nib(f', k) == Wanted(f, k0 + 1, 3, c, k) {
      PatchedAt(f, f', k0, 4, v, 2 * |f|, k);
      KeepFirstAt(f, k0, v, c, k);
    }
    PatchedAll(f, f', k0 + 1, 3, c, 2 * |f|);
  }

  lemma KeepFirstAt(f: seq<byte>, k0: nat, v: nat, c: nat, k: nat)
    requires k < 2 * |f| && k0 + 4 <= 2 * |f|
    requires Digit(v, 1) == Digit(c, 0) && Digit(v, 2) == Digit(c, 1) && Digit(v, 3) == Digit(c, 2)
    requires Digit(v, 0) == Nib(f, k0)
    ensures Wanted(f, k0, 4, v, k) == Wanted(f, k0 + 1, 3, c, k)
  {
    if k == k0 + 1 {
    } else if k == k0 + 2 {
    } else if k == k0 + 3 {
    }
  }

  lemma WriteOdd(f: seq<byte>, loc: nat, c: nat, p: nat, v: nat)
    requires Has(f, Fat12, loc) && c < 0x1000 && loc % 2 == 1 && 2 * p + 1 == 3 * loc && p + 2 <= |f|
    requires v == Merge12(Le16(f, p), loc, c) < 0x1_0000
    ensures Written(f, Set16(f, p, v), Fat12, loc, c)
  {
    Merge12Digits(f, p, loc, c);
    Set16Patched(f, p, v);
    KeepFirst(f, Set16(f, p, v), 2 * p, v, c);
  }

  lemma WriteEven(f: seq<byte>, loc: nat, c: nat, p: nat, v: nat)
    requires Has(f, Fat12, loc) && c < 0x1000 && loc % 2 == 0 && 2 * p == 3 * loc && p + 2 <= |f|
    requires v == Merge12(Le16(f, p), loc, c) < 0x1_0000
    ensures Written(f, Set16(f, p, v), Fat12, loc, c)
  {
    Merge12Digits(f, p, loc, c);
    Set16Patched(f, p, v);
    KeepLast(f, Set16(f, p, v), 2 * p, v, c);
  }

  lemma Write12(f: seq<byte>, loc: nat, c: nat)
    requires Has(f, Fat12, loc) && c < 0x1000
    ensures var p := loc + loc / 2;
            && p + 2 <= |f| && Merge12(Le16(f, p), loc, c) < 0x1_0000
            && Written(f, Set16(f, p, Merge12(Le16(f, p), loc, c)), Fat12, loc, c)
  {
    var p := loc + loc / 2;
    Merge12Digits(f, p, loc, c);
    var v := Merge12(Le16(f, p), loc, c);
    if loc % 2 == 1 { WriteOdd(f, loc, c, p, v); } else { WriteEven(f, loc, c, p, v); }
  }

  lemma Write16(f: seq<byte>, loc: nat, c: nat)
    requires Has(f, Fat16, loc) && c < 0x1_0000
    ensures Written(f, Set16(f, 2 * loc, c), Fat16, loc, c)
  {
    Set16Patched(f, 2 * loc, c);
  }

  /** SET32 */
  function Set32(f: seq<byte>, p: nat, v: nat): (f': seq<byte>)
    requires p + 4 <= |f| && v < 0x1_0000_0000
    ensures |f'| == |f|
  {
    Set16(Set16(f, p, v % 0x1_0000), p + 2, v / 0x1_0000)
  }

  lemma JoinHalves(lo: nat, hi: nat, j: nat)
    requires lo < 0x1_0000
    ensures j < 4 ==> Digit(lo + 0x1_0000 * hi, j) == Digit(lo, j)
    ensures Digit(lo + 0x1_0000 * hi, j + 4) == Digit(hi, j)
  {
    var d0, d1, d2, d3 := Halves16(lo);
    JoinDigits(d0, d1, d2, d3, hi, j);
    JoinDigits(d0, d1, d2, d3, 0, j);
    if j == 0 {
    } else if j == 1 {
    } else if j == 2 {
    }
  }

  lemma DigitHalves(v: nat, j: nat)
    ensures j < 4 ==> Digit(v, j) == Digit(v % 0x1_0000, j)
    ensures Digit(v, j + 4) == Digit(v / 0x1_0000, j)
  {
    JoinHalves(v % 0x1_0000, v / 0x1_0000, j);
  }

  lemma Set32Nib(f: seq<byte>, p: nat, v: nat, k: nat)
    requires p + 4 <= |f| && v < 0x1_0000_0000 && k < 2 * |f|
    ensures Nib(Set32(f, p, v), k) == if 2 * p <= k < 2 * p + 8 then Digit(v, k - 2 * p) else Nib(f, k)
  {
    var g := Set16(f, p, v % 0x1_0000);
    Set16Nib(f, p, v % 0x1_0000, k);
    Set16Nib(g, p + 2, v / 0x1_0000, k);
    if 2 * p <= k < 2 * p + 4 {
      DigitHalves(v, k - 2 * p);
    } else if 2 * p + 4 <= k < 2 * p + 8 {
      DigitHalves(v, k - 2 * p - 4);
    }
  }

  lemma Set32Patched(f: seq<byte>, p: nat, v: nat)
    requires p + 4 <= |f| && v < 0x1_0000_0000
    ensures Patched(f, Set32(f, p, v), 2 * p, 8, v)
  {
    var f' := Set32(f, p, v);
    forall k | 0 <= k < 2 * |f| ensures Nib(f', k) == Wanted(f, 2 * p, 8, v, k) { Set32Nib(f, p, v, k); }
    PatchedAll(f, f', 2 * p, 8, v, 2 * |f|);
  }

  lemma WriteExfat(f: seq<byte>, loc: nat, c: nat)
    requires Has(f, Exfat, loc) && c < 0x1_0000_0000
    ensures Written(f, Set32(f, 4 * loc, c), Exfat, loc, c)
  {
    Set32Patched(f, 4 * loc, c);
  }

  /** Of eight half bytes put, the last was as before. */
  lemma KeepTop(f: seq<byte>, f': seq<byte>, k0: nat, c: nat, top: nat)
    requires Patched(f, f', k0, 8, c + top * 0x1000_0000) && k0 + 8 <= 2 * |f|
    requires c < 0x1000_0000 && top == Nib(f, k0 + 7)
    ensures Patched(f, f', k0, 7, c)
  {
    var v := c + top * 0x1000_0000;
    forall k | 0 <= k < 2 * |f| ensures Nib(f', k) == Wanted(f, k0, 7, c, k) {
      PatchedAt(f, f', k0, 8, v, 2 * |f|, k);
      if k0 <= k < k0 + 8 { TopDigits(c, top, k - k0); }
    }
    PatchedAll(f, f', k0, 7, c, 2 * |f|);
  }

  lemma Write32(f: seq<byte>, loc: nat, c: nat)
    requires 4 * loc + 4 <= |f| && c < 0x1000_0000
    ensures var v := c + Le32(f, 4 * loc) / 0x1000_0000 * 0x1000_0000;
            v < 0x1_0000_0000 && Written(f, Set32(f, 4 * loc, v), Fat32, loc, c)
  {
    var top := Le32(f, 4 * loc) / 0x1000_0000;
    Digits7(f, 4 * loc);
    var v := c + top * 0x1000_0000;
    Set32Patched(f, 4 * loc, v);
    KeepTop(f, Set32(f, 4 * loc, v), 2 * (4 * loc), c, top);
  }

  lemma TopDigits(c: nat, top: nat, j: nat)
    requires c < 0x1000_0000 && top < 16 && j < 8
    ensures Digit(c + top * 0x1000_0000, j) == if j < 7 then Digit(c, j) else top
  {
    var lo, hi := c % 0x1_0000, c / 0x1_0000;
    var v := c + top * 0x1000_0000;
    SplitAt(lo, hi + 0x1000 * top, 0x1_0000);
    assert v == lo + 0x1_0000 * (hi + 0x1000 * top);
    if j < 4 {
      DigitHalves(v, j);
      DigitHalves(c, j);
    } else {
      DigitHalves(v, j - 4);
      DigitHalves(c, j - 4);
      var d0, d1, d2, d3 := Halves16(hi);
      JoinDigits(d0, d1, d2, d3, 0, 0);
      JoinDigits(d0, d1, d2, top, 0, 0);
    }
  }

  /** loc >> (bits - 1) and (loc << 1) & mask are the place of byte 2 * loc, and
      loc >> (bits - 2) and (loc << 2) & mask that of byte 4 * loc. */
  lemma {:induction false} PlaceOf(loc: nat, d: nat, h: nat)
    requires d > 0 && h > 0
    ensures d * h > 0 && Quot(d * loc, d * h) == Quot(loc, h) && Rem(d * loc, d * h) == d * Rem(loc, h)
    decreases loc
  {
    assert d * h > 0 by { MulUp(1, h, d); }
    if loc < h {
      MulUp(loc + 1, h, d);
      assert d * (loc + 1) == d * loc + d;
    } else {
      MulUp(h, loc, d);
      assert d * (loc - h) == d * loc - d * h;
      PlaceOf(loc - h, d, h);
    }
  }

  lemma MulUp(a: nat, b: nat, d: nat)
    requires a <= b
    ensures d * a <= d * b
  {
  }

  lemma Raw32(f: seq<byte>, loc: nat)
    requires 4 * loc + 4 <= |f|
    ensures Raw(f, Exfat, loc) == Le32(f, 4 * loc)
    ensures Raw(f, Fat32, loc) == Le32(f, 4 * loc) % 0x1000_0000
  {
    var p := 4 * loc;
    Digits8(f, p);
    Digits7(f, p);
    assert 2 * p == 8 * loc;
  }

  /** The two bytes from p on after a 12-bit entry was put; only the parity of `loc`
      matters. */
  ghost function Put12(f: seq<byte>, p: nat, loc: nat, c: nat): (f': seq<byte>)
    requires p + 2 <= |f| && c < 0x1000
  {
    Merge12Digits(f, p, loc, c);
    Set16(f, p, Merge12(Le16(f, p), loc, c))
  }

  lemma OddParts(lo: byte, hi: byte, c: nat)
    requires c < 0x1000
    ensures var v := c * 16 + (lo + 0x100 * hi) % 16;
            v < 0x1_0000 && v % 0x100 == c * 16 % 0x100 + lo % 16 && v / 0x100 == c * 16 / 0x100
  {
    var l0, l1, c0, c1 := lo % 16, lo / 16, c % 16, c / 16;
    SplitAt(l0, l1 + 16 * hi, 16);
    SplitAt(16 * c0, c1, 0x100);
    SplitAt(l0 + 16 * c0, c1, 0x100);
  }

  lemma OddBytes(f: seq<byte>, p: nat, c: nat)
    requires p + 2 <= |f| && c < 0x1000
    ensures c * 16 % 0x100 + f[p] % 16 < 0x100 && c * 16 / 0x100 < 0x100 && c * 16 + Le16(f, p) % 16 < 0x1_0000
    ensures Put12(f, p, 1, c) == f[p := c * 16 % 0x100 + f[p] % 16][p + 1 := c * 16 / 0x100]
    ensures Put12(f, p, 1, c) == Set16(f, p, c * 16 + Le16(f, p) % 16)
  {
    OddParts(f[p], f[p + 1], c);
  }

  lemma EvenParts(lo: byte, hi: byte, c: nat)
    requires c < 0x1000
    ensures var v := c + (lo + 0x100 * hi) / 0x1000 * 0x1000;
            v < 0x1_0000 && v % 0x100 == c % 0x100 && v / 0x100 == hi / 16 * 16 + c / 0x100
  {
    var h0, h1, c0, c1 := hi % 16, hi / 16, c % 0x100, c / 0x100;
    SplitAt(lo + 0x100 * h0, h1, 0x1000);
    SplitAt(c0, c1 + 16 * h1, 0x100);
  }

  lemma EvenBytes(f: seq<byte>, p: nat, c: nat)
    requires p + 2 <= |f| && c < 0x1000
    ensures f[p + 1] / 16 * 16 + c / 0x100 < 0x100 && c + Le16(f, p) / 0x1000 * 0x1000 < 0x1_0000
    ensures Put12(f, p, 0, c) == f[p := c % 0x100][p + 1 := f[p + 1] / 16 * 16 + c / 0x100]
  {
    EvenParts(f[p], f[p + 1], c);
  }

  /** Writing the first byte before the two bytes are read changes nothing. */
  lemma EvenTwice(f: seq<byte>, p: nat, c: nat)
    requires p + 2 <= |f| && c < 0x1000
    ensures var g: seq<byte> := f[p := c % 0x100];
            && c + Le16(g, p) / 0x1000 * 0x1000 < 0x1_0000
            && Set16(g, p, c + Le16(g, p) / 0x1000 * 0x1000) == Put12(f, p, 0, c)
  {
    var g: seq<byte> := f[p := c % 0x100];
    EvenBytes(f, p, c);
    EvenBytes(g, p, c);
    assert Put12(g, p, 0, c) == Put12(f, p, 0, c);
  }

  class Fat {
    const kind: Kind
    const ss: nat
    var sectors: Sectors

    ghost predicate Valid()
      reads this
    {
      ss > 0 && ss % 4 == 0 && Shaped(sectors, ss)
    }

    constructor (kind: Kind, ss: nat, sectors: Sectors)
      requires ss > 0 && ss % 4 == 0 && Shaped(sectors, ss)
      ensures Valid() && this.kind == kind && this.ss == ss && this.sectors == sectors
    {
      this.kind, this.ss, this.sectors := kind, ss, sectors;
    }

    /** Two bytes from byte p on, which are in one sector or in two. */
    method Get16(p: nat) returns (v: nat)
      requires Valid() && p + 2 <= |Flat(sectors)|
      ensures v == Le16(Flat(sectors), p)
    {
      ByteOf(sectors, ss, p);
      NextByte(sectors, ss, p);
      var sec, off := Quot(p, ss), Rem(p, ss);
      var lo: nat, hi: nat := sectors[sec][off], 0;
      if off == ss - 1 {
        hi := sectors[sec + 1][0];
      } else {
        hi := sectors[sec][off + 1];
      }
      v := lo + 0x100 * hi;
    }

    /** Byte `off` of sector `sec`, which is byte p of the FAT. */
    method StoreByte(sec: nat, off: nat, b: byte, ghost p: nat)
      requires Valid() && p < |Flat(sectors)| && sec == Quot(p, ss) && off == Rem(p, ss)
      modifies this
      ensures Valid() && Flat(sectors) == old(Flat(sectors))[p := b]
    {
      ByteOfPut(sectors, ss, p, b);
      sectors := PutByte(sectors, sec, off, b);
    }

    method LoadByte(sec: nat, off: nat, ghost p: nat) returns (b: byte)
      requires Valid() && p < |Flat(sectors)| && sec == Quot(p, ss) && off == Rem(p, ss)
      ensures b == Flat(sectors)[p]
    {
      ByteOf(sectors, ss, p);
      b := sectors[sec][off];
    }

    /** Two bytes within a sector. */
    method Get16In(sec: nat, off: nat, ghost p: nat) returns (v: nat)
      requires Valid() && p + 2 <= |Flat(sectors)| && sec == Quot(p, ss) && off == Rem(p, ss) && off + 1 < ss
      ensures v == Le16(Flat(sectors), p)
    {
      ByteOf(sectors, ss, p);
      NextByte(sectors, ss, p);
      var lo: nat, hi: nat := sectors[sec][off], sectors[sec][off + 1];
      v := lo + 0x100 * hi;
    }

    method Put16In(sec: nat, off: nat, v: nat, ghost p: nat)
      requires Valid() && p + 2 <= |Flat(sectors)| && v < 0x1_0000
      requires sec == Quot(p, ss) && off == Rem(p, ss) && off + 1 < ss
      modifies this
      ensures Valid() && Flat(sectors) == Set16(old(Flat(sectors)), p, v)
    {
      StepIn(p, ss, 1);
      ByteOfPut(sectors, ss, p, v % 0x100);
      sectors := PutByte(sectors, sec, off, v % 0x100);
      ByteOfPut(sectors, ss, p + 1, v / 0x100);
      sectors := PutByte(sectors, sec, off + 1, v / 0x100);
    }

    /** Four bytes within a sector. */
    method Get32In(sec: nat, off: nat, ghost p: nat) returns (v: nat)
      requires Valid() && p + 4 <= |Flat(sectors)| && sec == Quot(p, ss) && off == Rem(p, ss) && off + 3 < ss
      ensures v == Le32(Flat(sectors), p) < 0x1_0000_0000
    {
      StepIn(p, ss, 2);
      var lo := Get16In(sec, off, p);
      var hi := Get16In(sec, off + 2, p + 2);
      v := lo + 0x1_0000 * hi;
    }

    method Put32In(sec: nat, off: nat, v: nat, ghost p: nat)
      requires Valid() && p + 4 <= |Flat(sectors)| && v < 0x1_0000_0000
      requires sec == Quot(p, ss) && off == Rem(p, ss) && off + 3 < ss
      modifies this
      ensures Valid() && Flat(sectors) == Set32(old(Flat(sectors)), p, v)
    {
      StepIn(p, ss, 2);
      Put16In(sec, off, v % 0x1_0000, p);
      Put16In(sec, off + 2, v / 0x1_0000, p + 2);
    }

    method Read12Entry(loc: nat) returns (v: nat)
      requires Valid() && Has(Flat(sectors), Fat12, loc)
      ensures v == Raw(Flat(sectors), Fat12, loc)
    {
      Read12(Flat(sectors), loc);
      v := Get16(loc + loc / 2);
      v := (if loc % 2 == 1 then v / 16 else v) % 0x1000;
    }

    method Read32Entry(loc: nat) returns (v: nat)
      requires Valid() && 4 * loc + 4 <= |Flat(sectors)|
      ensures v == Raw(Flat(sectors), Exfat, loc)
      ensures v % 0x1000_0000 == Raw(Flat(sectors), Fat32, loc)
    {
      InSector(loc, 4, ss);
      Raw32(Flat(sectors), loc);
      v := Get32In(Quot(loc, ss / 4), Rem(4 * loc, ss), 4 * loc);
    }

    /** The stored value of entry `loc`, as __FAT_read gets it. */
    method ReadRaw(loc: nat) returns (v: nat)
      requires Valid() && Has(Flat(sectors), kind, loc) && (kind == Fat32 ==> Has(Flat(sectors), Exfat, loc))
      ensures v == Raw(Flat(sectors), kind, loc)
    {
      match kind {
        case Fat12 => v := Read12Entry(loc);
        case Fat16 =>
          InSector(loc, 2, ss);
          Digits4(Flat(sectors), 2 * loc, 4 * loc);
          v := Get16In(Quot(loc, ss / 2), Rem(2 * loc, ss), 2 * loc);
        case Fat32 =>
          v := Read32Entry(loc);
          v := v % 0x1000_0000;
        case Exfat => v := Read32Entry(loc);
      }
    }

    /** __FAT_read */
    method Read(loc: nat) returns (content: nat)
      requires Valid() && Has(Flat(sectors), kind, loc) && (kind == Fat32 ==> Has(Flat(sectors), Exfat, loc))
      ensures content == Remap(kind, Raw(Flat(sectors), kind, loc))
      ensures var v := Raw(Flat(sectors), kind, loc);
              var end := match kind
                         case Fat12 => 0xFF8
                         case Fat16 => 0xFFF8
                         case Fat32 => 0x0FFF_FFF8
                         case Exfat => 0xFFFF_FFF8;
              content == if v >= end then 0xFFFF_FFFF else v
    {
      content := ReadRaw(loc);
      if content >= EndMark(kind) { content := END; }
    }

    /** An odd 12-bit entry whose two bytes are in two sectors. */
    method WriteOddAcross(sec: nat, off: nat, c: nat, ghost p: nat)
      requires Valid() && p + 2 <= |Flat(sectors)| && sec == Quot(p, ss) && off == Rem(p, ss) == ss - 1 && c < 0x1000
      modifies this
      ensures Valid() && Flat(sectors) == Put12(old(Flat(sectors)), p, 1, c)
    {
      var wide := c * 16;
      OddBytes(Flat(sectors), p, c);
      QuotStep(p, ss);
      var b := LoadByte(sec, off, p);
      StoreByte(sec, off, wide % 0x100 + b % 16, p);
      StoreByte(sec + 1, 0, wide / 0x100, p + 1);
    }

    /** An odd 12-bit entry in one sector. */
    method WriteOddIn(sec: nat, off: nat, c: nat, ghost p: nat)
      requires Valid() && p + 2 <= |Flat(sectors)| && sec == Quot(p, ss) && off == Rem(p, ss) < ss - 1 && c < 0x1000
      modifies this
      ensures Valid() && Flat(sectors) == Put12(old(Flat(sectors)), p, 1, c)
    {
      var wide := c * 16;
      var was := Get16In(sec, off, p);
      OddBytes(Flat(sectors), p, c);
      Put16In(sec, off, wide + was % 16, p);
    }

    /** An even 12-bit entry whose two bytes are in two sectors: the first byte is
        written twice. */
    method WriteEvenAcross(sec: nat, off: nat, c: nat, ghost p: nat)
      requires Valid() && p + 2 <= |Flat(sectors)| && sec == Quot(p, ss) && off == Rem(p, ss) == ss - 1 && c < 0x1000
      modifies this
      ensures Valid() && Flat(sectors) == Put12(old(Flat(sectors)), p, 0, c)
    {
      EvenBytes(Flat(sectors), p, c);
      QuotStep(p, ss);
      StoreByte(sec, off, c % 0x100, p);
      StoreByte(sec, off, c % 0x100, p);
      var b := LoadByte(sec + 1, 0, p + 1);
      StoreByte(sec + 1, 0, b / 16 * 16 + c / 0x100, p + 1);
    }

    /** An even 12-bit entry in one sector: its first byte is written twice. */
    method WriteEvenIn(sec: nat, off: nat, c: nat, ghost p: nat)
      requires Valid() && p + 2 <= |Flat(sectors)| && sec == Quot(p, ss) && off == Rem(p, ss) < ss - 1 && c < 0x1000
      modifies this
      ensures Valid() && Flat(sectors) == Put12(old(Flat(sectors)), p, 0, c)
    {
      ghost var f := Flat(sectors);
      EvenBytes(f, p, c);
      StoreByte(sec, off, c % 0x100, p);
      EvenTwice(f, p, c);
      var was := Get16In(sec, off, p);
      Put16In(sec, off, c + was / 0x1000 * 0x1000, p);
    }

    /** The FAT12 branches of __FAT_write. */
    method Write12Entry(loc: nat, c: nat)
      requires Valid() && Has(Flat(sectors), Fat12, loc) && c < 0x1000
      modifies this
      ensures Valid() && Written(old(Flat(sectors)), Flat(sectors), Fat12, loc, c)
    {
      Write12(Flat(sectors), loc, c);
      var p := loc + loc / 2;
      var sec, off := Quot(p, ss), Rem(p, ss);
      if loc % 2 == 1 {
        if off == ss - 1 { WriteOddAcross(sec, off, c, p); } else { WriteOddIn(sec, off, c, p); }
      } else {
        if off == ss - 1 { WriteEvenAcross(sec, off, c, p); } else { WriteEvenIn(sec, off, c, p); }
      }
    }

    method Write32Entry(loc: nat, c: nat)
      requires Valid() && 4 * loc + 4 <= |Flat(sectors)| && c < 0x1000_0000
      modifies this
      ensures Valid() && Written(old(Flat(sectors)), Flat(sectors), Fat32, loc, c)
    {
      Write32(Flat(sectors), loc, c);
      InSector(loc, 4, ss);
      var was := Get32In(Quot(loc, ss / 4), Rem(4 * loc, ss), 4 * loc);
      Put32In(Quot(loc, ss / 4), Rem(4 * loc, ss), c + was / 0x1000_0000 * 0x1000_0000, 4 * loc);
    }

    /** __FAT_write: the entry is the content up to its width, and no half byte of
        any other entry is changed. */
    method WriteEntry(loc: nat, content: nat)
      requires Valid() && Has(Flat(sectors), kind, loc) && (kind == Fat32 ==> Has(Flat(sectors), Exfat, loc))
      requires content <= END
      modifies this
      ensures Valid() && Written(old(Flat(sectors)), Flat(sectors), kind, loc, Masked(kind, content))
    {
      var c := Masked(kind, content);
      match kind {
        case Fat12 => Write12Entry(loc, c);
        case Fat16 =>
          Write16(Flat(sectors), loc, c);
          InSector(loc, 2, ss);
          Put16In(Quot(loc, ss / 2), Rem(2 * loc, ss), c, 2 * loc);
        case Fat32 => Write32Entry(loc, c);
        case Exfat =>
          WriteExfat(Flat(sectors), loc, c);
          InSector(loc, 4, ss);
          Put32In(Quot(loc, ss / 4), Rem(4 * loc, ss), c, 4 * loc);
      }
    }
  }

  lemma {:induction false} StepIn(p: nat, ss: nat, k: nat)
    requires ss > 0 && Rem(p, ss) + k < ss
    ensures Quot(p + k, ss) == Quot(p, ss) && Rem(p + k, ss) == Rem(p, ss) + k
    decreases p
  {
    if p >= ss { StepIn(p - ss, ss, k); }
  }

  /** An entry of whole bytes does not straddle. */
  lemma InSector(loc: nat, d: nat, ss: nat)
    requires (d == 2 || d == 4) && ss > 0 && ss % 4 == 0
    ensures ss / d > 0 && Quot(loc, ss / d) == Quot(d * loc, ss) && Rem(d * loc, ss) + d <= ss
  {
    if d == 2 { InParts(loc, 2, ss / 2); } else { InParts(loc, 4, ss / 4); }
  }

  lemma InParts(loc: nat, d: nat, h: nat)
    requires d > 0 && h > 0
    ensures d * h > 0 && Quot(loc, h) == Quot(d * loc, d * h) && Rem(d * loc, d * h) + d <= d * h
  {
    PlaceOf(loc, d, h);
    MulUp(Rem(loc, h) + 1, h, d);
  }

  /** The bits of the content that an entry has. */
  function Masked(kind: Kind, content: nat): (c: nat) {
    match kind
    case Fat12 => content % 0x1000
    case Fat16 => content % 0x1_0000
    case Fat32 => content % 0x1000_0000
    case Exfat => content
  }

  lemma WidthOf(kind: Kind)
    ensures Sixteen(Width(kind))
         == match kind
            case Fat12 => 0x1000
            case Fat16 => 0x1_0000
            case Fat32 => 0x1000_0000
            case Exfat => 0x1_0000_0000
  {
    assert Sixteen(3) == 16 * Sixteen(2) && Sixteen(2) == 16 * Sixteen(1) && Sixteen(1) == 16;
    assert Sixteen(4) == 0x1_0000;
    assert Sixteen(6) == 16 * Sixteen(5) && Sixteen(5) == 16 * Sixteen(4);
    assert Sixteen(7) == 16 * Sixteen(6) && Sixteen(8) == 16 * Sixteen(7);
  }

  lemma MaskedIs(kind: Kind, content: nat)
    requires content <= END
    ensures Masked(kind, content) % Sixteen(Width(kind)) == Masked(kind, content)
    ensures content < EndMark(kind) ==> Masked(kind, content) == content
    ensures content == END ==> Masked(kind, content) >= EndMark(kind)
  {
    WidthOf(kind);
    SmallMod(Masked(kind, content), Sixteen(Width(kind)));
  }

  lemma SmallMod(x: nat, m: nat)
    requires x < m
    ensures x % m == x
  {
  }

  /** What is written is read: every cluster number below the end marks, and the
      end of a chain, whatever the kind of FAT; and no other entry is changed. */
  lemma WrittenIsRead(f: seq<byte>, f': seq<byte>, kind: Kind, loc: nat, content: nat, other: nat)
    requires Written(f, f', kind, loc, Masked(kind, content)) && Has(f, kind, loc) && content <= END
    requires Has(f, kind, other)
    ensures Remap(kind, Raw(f', kind, loc)) == Remap(kind, Masked(kind, content))
    ensures var end := match kind
                       case Fat12 => 0xFF8
                       case Fat16 => 0xFFF8
                       case Fat32 => 0x0FFF_FFF8
                       case Exfat => 0xFFFF_FFF8;
            content < end ==> Remap(kind, Raw(f', kind, loc)) == content
    ensures content == 0xFFFF_FFFF ==> Remap(kind, Raw(f', kind, loc)) == 0xFFFF_FFFF
    ensures other != loc ==> Raw(f', kind, other) == Raw(f, kind, other)
  {
    MaskedIs(kind, content);
    WriteRead(f, f', kind, loc, Masked(kind, content));
    if other != loc { WriteElsewhere(f, f', kind, loc, Masked(kind, content), other); }
  }
}

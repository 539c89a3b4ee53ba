/** The FAT entry codec of fs/exfat/exfat_cache.c, seen as a stream of half
    bytes: where the entries of 12, 16, 28 and 32 bits are, and what writing one
    of them changes. */
module FatEntry {
  import opened Arith
  import opened Common

  datatype Kind = Fat12 | Fat16 | Fat32 | Exfat

  const END: nat := 0xFFFF_FFFF

  /** Half byte k of a FAT, the low half of a byte first. */
  function Nib(f: seq<byte>, k: nat): (v: nat)
    requires k / 2 < |f|
    ensures v < 16
  {
    if k % 2 == 0 then f[k / 2] % 16 else f[k / 2] / 16
  }

  /** How many half bytes apart entries are, and how many they use. */
  function Stride(kind: Kind): (n: nat) {
    match kind case Fat12 => 3 case Fat16 => 4 case Fat32 => 8 case Exfat => 8
  }

  function Width(kind: Kind): (n: nat) {
    match kind case Fat12 => 3 case Fat16 => 4 case Fat32 => 7 case Exfat => 8
  }

  /** The first value that marks the end of a chain. */
  function EndMark(kind: Kind): (n: nat) {
    match kind case Fat12 => 0xFF8 case Fat16 => 0xFFF8 case Fat32 => 0x0FFF_FFF8 case Exfat => 0xFFFF_FFF8
  }

  function Sixteen(w: nat): (n: nat)
    ensures n > 0
  {
    if w == 0 then 1 else 16 * Sixteen(w - 1)
  }

  /** The number in the w half bytes from k on. */
  function Digits(f: seq<byte>, k: nat, w: nat): (v: nat)
    requires k + w <= 2 * |f|
    decreases w
  {
    if w == 0 then 0 else Nib(f, k) + 16 * Digits(f, k + 1, w - 1)
  }

  /** The FAT has an entry `loc`. */
  predicate Has(f: seq<byte>, kind: Kind, loc: nat) {
    Stride(kind) * loc + Width(kind) <= 2 * |f|
  }

  /** The entry `loc` as it is stored. */
  function Raw(f: seq<byte>, kind: Kind, loc: nat): (v: nat)
    requires Has(f, kind, loc)
  {
    Digits(f, Stride(kind) * loc, Width(kind))
  }

  /** What __FAT_read gives for a stored value. */
  function Remap(kind: Kind, v: nat): (r: nat) {
    if v >= EndMark(kind) then END else v
  }

  /** Half byte j of a number. */
  function Digit(c: nat, j: nat): (d: nat)
    ensures d < 16
    decreases j
  {
    if j == 0 then c % 16 else Digit(c / 16, j - 1)
  }

  /** The n half bytes from k0 on are those of `c`, all others are as they were:
      for the half bytes below hi. */
  ghost predicate PatchedTo(f: seq<byte>, f': seq<byte>, k0: nat, n: nat, c: nat, hi: nat)
    requires |f'| == |f| && hi <= 2 * |f|
    decreases hi
  {
    hi == 0 || (PatchedTo(f, f', k0, n, c, hi - 1) && Nib(f', hi - 1) == Wanted(f, k0, n, c, hi - 1))
  }

  function Wanted(f: seq<byte>, k0: nat, n: nat, c: nat, k: nat): (v: nat)
    requires k < 2 * |f|
  {
    if k0 <= k < k0 + n then Digit(c, k - k0) else Nib(f, k)
  }

  ghost predicate Patched(f: seq<byte>, f': seq<byte>, k0: nat, n: nat, c: nat) {
    |f'| == |f| && PatchedTo(f, f', k0, n, c, 2 * |f|)
  }

  lemma {:induction false} PatchedAt(f: seq<byte>, f': seq<byte>, k0: nat, n: nat, c: nat, hi: nat, k: nat)
    requires |f'| == |f| && k < hi <= 2 * |f| && PatchedTo(f, f', k0, n, c, hi)
    ensures Nib(f', k) == Wanted(f, k0, n, c, k)
    decreases hi
  {
    if k < hi - 1 { PatchedAt(f, f', k0, n, c, hi - 1, k); }
  }

  lemma {:induction false} PatchedAll(f: seq<byte>, f': seq<byte>, k0: nat, n: nat, c: nat, hi: nat)
    requires |f'| == |f| && hi <= 2 * |f| && forall k :: 0 <= k < hi ==> Nib(f', k) == Wanted(f, k0, n, c, k)
    ensures PatchedTo(f, f', k0, n, c, hi)
    decreases hi
  {
    if hi > 0 { PatchedAll(f, f', k0, n, c, hi - 1); }
  }

  /** Entry `loc` was written, and nothing else. */
  ghost predicate Written(f: seq<byte>, f': seq<byte>, kind: Kind, loc: nat, c: nat) {
    Patched(f, f', Stride(kind) * loc, Width(kind), c)
  }

  lemma {:induction false} DigitsOf(f: seq<byte>, k: nat, w: nat, c: nat)
    requires k + w <= 2 * |f| && forall i :: k <= i < k + w ==> Nib(f, i) == Digit(c, i - k)
    ensures Digits(f, k, w) == c % Sixteen(w)
    decreases w
  {
    if w > 0 {
      assert Nib(f, k) == Digit(c, 0);
      forall i | k + 1 <= i < k + w ensures Nib(f, i) == Digit(c / 16, i - (k + 1)) {
        assert Nib(f, i) == Digit(c, i - k);
      }
      DigitsOf(f, k + 1, w - 1, c / 16);
      ModDigits(c, Sixteen(w - 1));
    }
  }

  lemma ModDigits(c: nat, m: nat)
    requires m > 0
    ensures c % (16 * m) == c % 16 + 16 * (c / 16 % m)
  {
    var q, r := c / 16 / m, c / 16 % m;
    assert c / 16 == q * m + r;
    assert c == q * (16 * m) + (16 * r + c % 16) by { assert q * (16 * m) == 16 * (q * m); }
    DivUnique(c, q, 16 * r + c % 16, 16 * m);
  }

  lemma {:induction false} DigitsSame(f: seq<byte>, f': seq<byte>, k: nat, w: nat)
    requires |f'| == |f| && k + w <= 2 * |f| && forall i :: k <= i < k + w ==> Nib(f', i) == Nib(f, i)
    ensures Digits(f', k, w) == Digits(f, k, w)
    decreases w
  {
    if w > 0 { DigitsSame(f, f', k + 1, w - 1); }
  }

  /** Reading an entry back gives what was written, up to its width. */
  lemma WriteRead(f: seq<byte>, f': seq<byte>, kind: Kind, loc: nat, c: nat)
    requires Written(f, f', kind, loc, c) && Has(f, kind, loc)
    ensures Raw(f', kind, loc) == c % Sixteen(Width(kind))
  {
    var k0, n := Stride(kind) * loc, Width(kind);
    forall i | k0 <= i < k0 + n ensures Nib(f', i) == Digit(c, i - k0) { PatchedAt(f, f', k0, n, c, 2 * |f|, i); }
    DigitsOf(f', Stride(kind) * loc, Width(kind), c);
  }

  /** Writing an entry changes no other one. */
  lemma WriteElsewhere(f: seq<byte>, f': seq<byte>, kind: Kind, loc: nat, c: nat, other: nat)
    requires Written(f, f', kind, loc, c) && Has(f, kind, other) && other != loc
    ensures Raw(f', kind, other) == Raw(f, kind, other)
  {
    var k0, n, k1 := Stride(kind) * loc, Width(kind), Stride(kind) * other;
    assert k1 + n <= k0 || k0 + n <= k1;
    forall i | k1 <= i < k1 + n ensures Nib(f', i) == Nib(f, i) { PatchedAt(f, f', k0, n, c, 2 * |f|, i); }
    DigitsSame(f, f', Stride(kind) * other, Width(kind));
  }

  /** The four bytes at p. */
  function Le32(f: seq<byte>, p: nat): (v: nat)
    requires p + 4 <= |f|
  {
    Le16(f, p) + 0x1_0000 * Le16(f, p + 2)
  }

  /** The two half bytes of byte p. */
  lemma ByteNibs(f: seq<byte>, p: nat)
    requires p < |f|
    ensures Nib(f, 2 * p) == f[p] % 16 && Nib(f, 2 * p + 1) == f[p] / 16
    ensures f[p] == Nib(f, 2 * p) + 16 * Nib(f, 2 * p + 1)
  {
  }

  lemma Digits3(f: seq<byte>, k: nat)
    requires k + 3 <= 2 * |f|
    ensures Digits(f, k, 3) == Nib(f, k) + 16 * Nib(f, k + 1) + 256 * Nib(f, k + 2)
  {
    assert Digits(f, k + 1, 2) == Nib(f, k + 1) + 16 * Digits(f, k + 2, 1);
    assert Digits(f, k + 2, 1) == Nib(f, k + 2) + 16 * Digits(f, k + 3, 0);
  }

  lemma Digits4(f: seq<byte>, p: nat, k: nat)
    requires p + 2 <= |f| && k == 2 * p
    ensures Digits(f, k, 4) == Le16(f, p)
  {
    Digits3(f, k + 1);
    ByteNibs(f, p);
    ByteNibs(f, p + 1);
  }

  lemma Step(f: seq<byte>, k: nat, w: nat)
    requires 0 < w && k + w <= 2 * |f|
    ensures Digits(f, k, w) == Nib(f, k) + 16 * Digits(f, k + 1, w - 1)
  {
  }

  /** The first four half bytes, and the rest. */
  lemma FourAndMore(f: seq<byte>, k: nat, w: nat)
    requires 4 <= w && k + w <= 2 * |f|
    ensures Digits(f, k, w) == Digits(f, k, 4) + 0x1_0000 * Digits(f, k + 4, w - 4)
  {
    Step(f, k, w);
    Step(f, k + 1, w - 1);
    Step(f, k + 2, w - 2);
    Step(f, k + 3, w - 3);
    Step(f, k, 4);
    Digits3(f, k + 1);
  }

  lemma Digits8(f: seq<byte>, p: nat)
    requires p + 4 <= |f|
    ensures Digits(f, 2 * p, 8) == Le32(f, p)
  {
    var k := 2 * p;
    Digits4(f, p, k);
    Digits4(f, p + 2, k + 4);
    FourAndMore(f, k, 8);
  }

  lemma ThreeAndTop(f: seq<byte>, k: nat)
    requires k + 4 <= 2 * |f|
    ensures Digits(f, k, 4) == Digits(f, k, 3) + 0x1000 * Nib(f, k + 3) && Digits(f, k, 3) < 0x1000
  {
    Step(f, k, 4);
    Digits3(f, k + 1);
    Digits3(f, k);
  }

  lemma SevenAndTop(f: seq<byte>, k: nat)
    requires k + 8 <= 2 * |f|
    ensures Digits(f, k, 8) == Digits(f, k, 7) + 0x1000_0000 * Nib(f, k + 7) && Digits(f, k, 7) < 0x1000_0000
  {
    FourAndMore(f, k, 8);
    FourAndMore(f, k, 7);
    ThreeAndTop(f, k + 4);
    ThreeAndTop(f, k);
  }

  /** A 28-bit entry and the four bits above it. */
  lemma Digits7(f: seq<byte>, p: nat)
    requires p + 4 <= |f|
    ensures Digits(f, 2 * p, 7) == Le32(f, p) % 0x1000_0000
    ensures Nib(f, 2 * p + 7) == Le32(f, p) / 0x1000_0000
  {
    var k := 2 * p;
    Digits8(f, p);
    SevenAndTop(f, k);
    SplitTop(Digits(f, k, 8), Digits(f, k, 7), Nib(f, k + 7));
  }

  lemma SplitTop(v: nat, low: nat, high: nat)
    requires low < 0x1000_0000 && v == low + 0x1000_0000 * high
    ensures v % 0x1000_0000 == low && v / 0x1000_0000 == high
  {
  }
}

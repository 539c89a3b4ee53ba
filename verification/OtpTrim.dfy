/** Unpacking the trim fields of the one-time-programmable memory:
    cs40l2x_otp_unpack of drivers/misc/cs40l2x.c. */
module OtpTrim {
  import opened Bits

  /** struct cs40l2x_trim */
  datatype Trim = Trim(reg: nat, shift: nat, size: nat)

  /** regmap_update_bits(reg, mask, value) */
  datatype Write = Write(reg: nat, mask: nat, value: nat)

  function Shr(x: nat, c: nat): (y: nat)
    decreases c
  {
    if c == 0 then x else Shr(x / 2, c - 1)
  }

  function Shl(x: nat, c: nat): (y: nat)
    decreases c
  {
    if c == 0 then x else 2 * Shl(x, c - 1)
  }

  /** A value kept in 32 bits. */
  function Word(x: nat): (y: nat) {
    And(x, Pow2(32) - 1)
  }

  /** GENMASK(high, low) */
  function GenMask(high: nat, low: nat): (m: nat)
    requires low <= high
  {
    Shl(Pow2(high - low + 1) - 1, low)
  }

  lemma {:induction false} ShrBit(x: nat, c: nat, j: nat)
    ensures Bit(Shr(x, c), j) <==> Bit(x, j + c)
    decreases c
  {
    if c > 0 { ShrBit(x / 2, c - 1, j); }
  }

  lemma {:induction false} ShlBit(x: nat, c: nat, j: nat)
    ensures Bit(Shl(x, c), j) <==> j >= c && Bit(x, j - c)
    decreases c
  {
    if c > 0 && j > 0 { ShlBit(x, c - 1, j - 1); }
  }

  lemma GenMaskBit(high: nat, low: nat, j: nat)
    requires low <= high
    ensures Bit(GenMask(high, low), j) <==> low <= j <= high
  {
    ShlBit(Pow2(high - low + 1) - 1, low, j);
    if j >= low { LowMaskBit(high - low + 1, j - low); }
  }

  lemma WordBit32(x: nat, j: nat)
    ensures Bit(Word(x), j) <==> Bit(x, j) && j < 32
  {
    AndBit(x, Pow2(32) - 1, j);
    LowMaskBit(32, j);
  }

  /** Bit p of the stream of 32-bit words. */
  predicate StreamBit(words: seq<nat>, p: nat)
    requires p / 32 < |words|
  {
    Bit(words[p / 32], p % 32)
  }

  /** The number in the `size` bits of the stream from bit `pos` on. */
  function Slice(words: seq<nat>, pos: nat, size: nat): (v: nat)
    requires pos + size <= 32 * |words|
    decreases size
  {
    if size == 0 then 0
    else (if StreamBit(words, pos) then 1 else 0) + 2 * Slice(words, pos + 1, size - 1)
  }

  lemma {:induction false} SliceBit(words: seq<nat>, pos: nat, size: nat, j: nat)
    requires pos + size <= 32 * |words|
    ensures Bit(Slice(words, pos, size), j) <==> j < size && StreamBit(words, pos + j)
    decreases size
  {
    if size == 0 {
      ZeroHasNoBits(j);
    } else if j > 0 {
      SliceBit(words, pos + 1, size - 1, j - 1);
    }
  }

  /** Numbers with the same bits are the same. */
  lemma {:induction false} SameBits(x: nat, y: nat)
    requires forall j: nat :: Bit(x, j) <==> Bit(y, j)
    ensures x == y
    decreases x + y
  {
    if x + y > 0 {
      assert Bit(x, 0) <==> Bit(y, 0);
      forall j: nat ensures Bit(x / 2, j) <==> Bit(y / 2, j) {
        assert Bit(x, j + 1) <==> Bit(y, j + 1);
      }
      SameBits(x / 2, y / 2);
    }
  }

  /** The value of one field at column `col` of word `row`. */
  function Field(words: seq<nat>, row: nat, col: nat, size: nat): (v: nat)
    requires col < 32 && 0 < size <= 32 && 32 * row + col + size <= 32 * |words|
  {
    if col + size - 1 > 31 then
      Or(Shr(And(words[row], GenMask(31, col)), col),
         Word(Shl(And(words[row + 1], GenMask(col + size - 33, 0)), 32 - col)))
    else
      Shr(And(words[row], GenMask(col + size - 1, col)), col)
  }

  lemma InWord(row: nat, col: nat)
    requires col < 32
    ensures (32 * row + col) / 32 == row && (32 * row + col) % 32 == col
  {
  }

  lemma LowPartBit(w: nat, col: nat, high: nat, j: nat)
    requires col <= high
    ensures Bit(Shr(And(w, GenMask(high, col)), col), j) <==> j + col <= high && Bit(w, j + col)
  {
    ShrBit(And(w, GenMask(high, col)), col, j);
    AndBit(w, GenMask(high, col), j + col);
    GenMaskBit(high, col, j + col);
  }

  lemma HighPartBit(w: nat, up: nat, high: nat, j: nat)
    ensures Bit(Word(Shl(And(w, GenMask(high, 0)), up)), j) <==> j < 32 && j >= up && j - up <= high && Bit(w, j - up)
  {
    WordBit32(Shl(And(w, GenMask(high, 0)), up), j);
    ShlBit(And(w, GenMask(high, 0)), up, j);
    if j >= up {
      AndBit(w, GenMask(high, 0), j - up);
      GenMaskBit(high, 0, j - up);
    }
  }

  lemma StraddleBit(words: seq<nat>, row: nat, col: nat, size: nat, j: nat)
    requires col < 32 && size <= 32 < col + size && 32 * row + col + size <= 32 * |words|
    ensures Bit(Field(words, row, col, size), j) <==> j < size && StreamBit(words, 32 * row + col + j)
  {
    if col + j < 32 { InWord(row, col + j); } else if j < size { InWord(row + 1, col + j - 32); }
    OrBit(Shr(And(words[row], GenMask(31, col)), col),
          Word(Shl(And(words[row + 1], GenMask(col + size - 33, 0)), 32 - col)), j);
    LowPartBit(words[row], col, 31, j);
    HighPartBit(words[row + 1], 32 - col, col + size - 33, j);
  }

  lemma OneWordBit(words: seq<nat>, row: nat, col: nat, size: nat, j: nat)
    requires 0 < size && col + size <= 32 && 32 * row + col + size <= 32 * |words|
    ensures Bit(Field(words, row, col, size), j) <==> j < size && StreamBit(words, 32 * row + col + j)
  {
    if j < size { InWord(row, col + j); }
    LowPartBit(words[row], col, col + size - 1, j);
  }

  lemma FieldBit(words: seq<nat>, row: nat, col: nat, size: nat, j: nat)
    requires col < 32 && 0 < size <= 32 && 32 * row + col + size <= 32 * |words|
    ensures Bit(Field(words, row, col, size), j) <==> Bit(Slice(words, 32 * row + col, size), j)
  {
    if col + size > 32 { StraddleBit(words, row, col, size, j); } else { OneWordBit(words, row, col, size, j); }
    SliceBit(words, 32 * row + col, size, j);
  }

  /** A field is the slice of the stream at its place, whether it lies in one
      word or straddles two. */
  lemma FieldIsSlice(words: seq<nat>, row: nat, col: nat, size: nat)
    requires col < 32 && 0 < size <= 32 && 32 * row + col + size <= 32 * |words|
    ensures Field(words, row, col, size) == Slice(words, 32 * row + col, size)
  {
    var f, s := Field(words, row, col, size), Slice(words, 32 * row + col, size);
    forall j: nat ensures Bit(f, j) <==> Bit(s, j) {
      FieldBit(words, row, col, size, j);
    }
    SameBits(f, s);
  }

  function SumSizes(trims: seq<Trim>): (n: nat) {
    if trims == [] then 0 else SumSizes(trims[..|trims| - 1]) + trims[|trims| - 1].size
  }

  lemma {:induction false} SumSizesPrefix(trims: seq<Trim>, i: nat)
    requires i < |trims|
    ensures SumSizes(trims[..i]) + trims[i].size == SumSizes(trims[..i + 1]) <= SumSizes(trims)
    decreases |trims| - i
  {
    assert trims[..i + 1][..i] == trims[..i];
    if i + 1 < |trims| { SumSizesPrefix(trims, i + 1); } else { assert trims[..i + 1] == trims; }
  }

  /** The fields of a trim table that starts at bit `start` of the stream: each
      begins where the one before ends. */
  function Fields(words: seq<nat>, trims: seq<Trim>, start: nat): (vals: seq<nat>)
    requires start + SumSizes(trims) <= 32 * |words|
    ensures |vals| == |trims|
  {
    if trims == [] then []
    else
      var before, t := trims[..|trims| - 1], trims[|trims| - 1];
      Fields(words, before, start) + [Slice(words, start + SumSizes(before), t.size)]
  }

  lemma FieldsLast(words: seq<nat>, trims: seq<Trim>, start: nat)
    requires trims != [] && start + SumSizes(trims) <= 32 * |words|
    ensures var before, t := trims[..|trims| - 1], trims[|trims| - 1];
            && start + SumSizes(before) + t.size <= 32 * |words|
            && Fields(words, trims, start)
               == Fields(words, before, start) + [Slice(words, start + SumSizes(before), t.size)]
  {
  }

  /** Field i is the slice after the sizes of the fields before it. */
  lemma {:induction false} FieldsAt(words: seq<nat>, trims: seq<Trim>, start: nat, i: nat)
    requires start + SumSizes(trims) <= 32 * |words| && i < |trims|
    ensures start + SumSizes(trims[..i]) + trims[i].size <= 32 * |words|
    ensures Fields(words, trims, start)[i] == Slice(words, start + SumSizes(trims[..i]), trims[i].size)
    decreases |trims|
  {
    FieldsLast(words, trims, start);
    if i < |trims| - 1 {
      var before := trims[..|trims| - 1];
      assert before[..i] == trims[..i];
      FieldsAt(words, before, start, i);
    }
  }

  lemma SlicesSnoc(words: seq<nat>, trims: seq<Trim>, start: nat, i: nat)
    requires start + SumSizes(trims) <= 32 * |words| && i < |trims|
    ensures SumSizes(trims[..i + 1]) == SumSizes(trims[..i]) + trims[i].size
    ensures start + SumSizes(trims[..i + 1]) <= 32 * |words|
    ensures Fields(words, trims[..i + 1], start)
         == Fields(words, trims[..i], start) + [Slice(words, start + SumSizes(trims[..i]), trims[i].size)]
  {
    SumSizesPrefix(trims, i);
    assert trims[..i + 1][..i] == trims[..i];
    FieldsLast(words, trims[..i + 1], start);
  }

  /** The two ways to read a field. */
  method ReadField(words: seq<nat>, row: nat, col: nat, size: nat) returns (val: nat)
    requires col < 32 && 0 < size <= 32 && 32 * row + col + size <= 32 * |words|
    ensures val == Slice(words, 32 * row + col, size)
  {
    FieldIsSlice(words, row, col, size);
    val := Field(words, row, col, size);
  }

  /** Field i, at the place where the one before ends. */
  method NextField(words: seq<nat>, trims: seq<Trim>, ghost start: nat, i: nat, row: nat, col: nat)
    returns (val: nat)
    requires start + SumSizes(trims) <= 32 * |words| && i < |trims| && 0 < trims[i].size <= 32
    requires col < 32 && 32 * row + col == start + SumSizes(trims[..i])
    ensures SumSizes(trims[..i + 1]) == SumSizes(trims[..i]) + trims[i].size
    ensures start + SumSizes(trims[..i + 1]) <= 32 * |words|
    ensures Fields(words, trims[..i + 1], start) == Fields(words, trims[..i], start) + [val]
  {
    SlicesSnoc(words, trims, start, i);
    val := ReadField(words, row, col, trims[i].size);
  }

  /** The register write for a field. */
  function WriteOf(t: Trim, val: nat): (w: Write)
    requires t.size > 0
  {
    Write(t.reg, GenMask(t.shift + t.size - 1, t.shift), Word(Shl(val, t.shift)))
  }

  /** The register writes for the fields `vals`: blank trims are skipped. */
  function Writes(trims: seq<Trim>, vals: seq<nat>): (ws: seq<Write>)
    requires |trims| == |vals| && forall i :: 0 <= i < |trims| ==> trims[i].size > 0
  {
    if trims == [] then []
    else
      var n := |trims| - 1;
      Writes(trims[..n], vals[..n]) + if trims[n].reg == 0 then [] else [WriteOf(trims[n], vals[n])]
  }

  lemma WritesSnoc(trims: seq<Trim>, i: nat, vals: seq<nat>, val: nat)
    requires i < |trims| && |vals| == i && forall k :: 0 <= k < |trims| ==> trims[k].size > 0
    ensures Writes(trims[..i + 1], vals + [val])
         == Writes(trims[..i], vals) + if trims[i].reg == 0 then [] else [WriteOf(trims[i], val)]
  {
    assert trims[..i + 1][..i] == trims[..i] && (vals + [val])[..i] == vals;
  }

  /** The loop of cs40l2x_otp_unpack over a trim table that fits the words. */
  method Unpack(words: seq<nat>, trims: seq<Trim>, rowStart: nat, colStart: nat)
    returns (vals: seq<nat>, writes: seq<Write>)
    requires colStart < 32 && 32 * rowStart + colStart + SumSizes(trims) <= 32 * |words|
    requires forall i :: 0 <= i < |trims| ==> 0 < trims[i].size <= 32
    ensures vals == Fields(words, trims, 32 * rowStart + colStart)
    ensures writes == Writes(trims, vals)
  {
    ghost var start := 32 * rowStart + colStart;
    var row, col := rowStart, colStart;
    vals, writes := [], [];
    for i := 0 to |trims|
      invariant 0 <= col < 32 && 0 <= row && 32 * row + col == start + SumSizes(trims[..i]) <= 32 * |words|
      invariant vals == Fields(words, trims[..i], start)
      invariant writes == Writes(trims[..i], vals)
    {
      var trim := trims[i];
      var val := NextField(words, trims, start, i, row, col);
      col := col + trim.size;
      if col > 31 {
        col := col - 32;
        row := row + 1;
      }
      WritesSnoc(trims, i, vals, val);
      vals := vals + [val];
      if trim.reg != 0 {
        writes := writes + [WriteOf(trim, val)];
      }
    }
    assert trims[..|trims|] == trims;
  }

  /** regmap_update_bits */
  function UpdateBits(reg: nat, mask: nat, value: nat): (r: nat) {
    Or(AndNot(reg, mask), And(value, mask))
  }

  /** What the write of a field does to its register: the field holds the value, the
      other bits are as before. */
  lemma FieldWritten(t: Trim, reg: nat, val: nat, j: nat)
    requires 0 < t.size && t.shift + t.size <= 32
    ensures WriteOf(t, val).reg == t.reg
    ensures var r := UpdateBits(reg, WriteOf(t, val).mask, WriteOf(t, val).value);
            Bit(r, j) <==> if t.shift <= j < t.shift + t.size then Bit(val, j - t.shift) else Bit(reg, j)
  {
    var mask, v := GenMask(t.shift + t.size - 1, t.shift), Word(Shl(val, t.shift));
    OrBit(AndNot(reg, mask), And(v, mask), j);
    AndNotBit(reg, mask, j);
    AndBit(v, mask, j);
    GenMaskBit(t.shift + t.size - 1, t.shift, j);
    WordBit32(Shl(val, t.shift), j);
    ShlBit(val, t.shift, j);
  }
}

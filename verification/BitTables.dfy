/** The two lookup tables of fs/exfat-linux/balloc.c, written in rows of
    sixteen, and what they compute. */
module BitTables {
  import opened Bits

  /** One row of sixteen entries of the table free_bit. */
  function FreeBitRow(r: nat): (row: seq<nat>)
    requires r < 16
    ensures |row| == if r < 15 then 16 else 15
  {
    match r
    case 0 => [0, 1, 0, 2, 0, 1, 0, 3, 0, 1, 0, 2, 0, 1, 0, 4]
    case 1 => [0, 1, 0, 2, 0, 1, 0, 3, 0, 1, 0, 2, 0, 1, 0, 5]
    case 2 => [0, 1, 0, 2, 0, 1, 0, 3, 0, 1, 0, 2, 0, 1, 0, 4]
    case 3 => [0, 1, 0, 2, 0, 1, 0, 3, 0, 1, 0, 2, 0, 1, 0, 6]
    case 4 => [0, 1, 0, 2, 0, 1, 0, 3, 0, 1, 0, 2, 0, 1, 0, 4]
    case 5 => [0, 1, 0, 2, 0, 1, 0, 3, 0, 1, 0, 2, 0, 1, 0, 5]
    case 6 => [0, 1, 0, 2, 0, 1, 0, 3, 0, 1, 0, 2, 0, 1, 0, 4]
    case 7 => [0, 1, 0, 2, 0, 1, 0, 3, 0, 1, 0, 2, 0, 1, 0, 7]
    case 8 => [0, 1, 0, 2, 0, 1, 0, 3, 0, 1, 0, 2, 0, 1, 0, 4]
    case 9 => [0, 1, 0, 2, 0, 1, 0, 3, 0, 1, 0, 2, 0, 1, 0, 5]
    case 10 => [0, 1, 0, 2, 0, 1, 0, 3, 0, 1, 0, 2, 0, 1, 0, 4]
    case 11 => [0, 1, 0, 2, 0, 1, 0, 3, 0, 1, 0, 2, 0, 1, 0, 6]
    case 12 => [0, 1, 0, 2, 0, 1, 0, 3, 0, 1, 0, 2, 0, 1, 0, 4]
    case 13 => [0, 1, 0, 2, 0, 1, 0, 3, 0, 1, 0, 2, 0, 1, 0, 5]
    case 14 => [0, 1, 0, 2, 0, 1, 0, 3, 0, 1, 0, 2, 0, 1, 0, 4]
    case _ => [0, 1, 0, 2, 0, 1, 0, 3, 0, 1, 0, 2, 0, 1, 0]
  }

  /** One row of sixteen entries of the table used_bit. */
  function UsedBitRow(r: nat): (row: seq<nat>)
    requires r < 16
    ensures |row| == 16
  {
    match r
    case 0 => [0, 1, 1, 2, 1, 2, 2, 3, 1, 2, 2, 3, 2, 3, 3, 4]
    case 1 => [1, 2, 2, 3, 2, 3, 3, 4, 2, 3, 3, 4, 3, 4, 4, 5]
    case 2 => [1, 2, 2, 3, 2, 3, 3, 4, 2, 3, 3, 4, 3, 4, 4, 5]
    case 3 => [2, 3, 3, 4, 3, 4, 4, 5, 3, 4, 4, 5, 4, 5, 5, 6]
    case 4 => [1, 2, 2, 3, 2, 3, 3, 4, 2, 3, 3, 4, 3, 4, 4, 5]
    case 5 => [2, 3, 3, 4, 3, 4, 4, 5, 3, 4, 4, 5, 4, 5, 5, 6]
    case 6 => [2, 3, 3, 4, 3, 4, 4, 5, 3, 4, 4, 5, 4, 5, 5, 6]
    case 7 => [3, 4, 4, 5, 4, 5, 5, 6, 4, 5, 5, 6, 5, 6, 6, 7]
    case 8 => [1, 2, 2, 3, 2, 3, 3, 4, 2, 3, 3, 4, 3, 4, 4, 5]
    case 9 => [2, 3, 3, 4, 3, 4, 4, 5, 3, 4, 4, 5, 4, 5, 5, 6]
    case 10 => [2, 3, 3, 4, 3, 4, 4, 5, 3, 4, 4, 5, 4, 5, 5, 6]
    case 11 => [3, 4, 4, 5, 4, 5, 5, 6, 4, 5, 5, 6, 5, 6, 6, 7]
    case 12 => [2, 3, 3, 4, 3, 4, 4, 5, 3, 4, 4, 5, 4, 5, 5, 6]
    case 13 => [3, 4, 4, 5, 4, 5, 5, 6, 4, 5, 5, 6, 5, 6, 6, 7]
    case 14 => [3, 4, 4, 5, 4, 5, 5, 6, 4, 5, 5, 6, 5, 6, 6, 7]
    case _ => [4, 5, 5, 6, 5, 6, 6, 7, 5, 6, 6, 7, 6, 7, 7, 8]
  }

  function FreeBit(k: nat): (b: nat)
    requires k < 255
  {
    FreeBitRow(k / 16)[k % 16]
  }

  function UsedBit(k: nat): (n: nat)
    requires k < 256
  {
    UsedBitRow(k / 16)[k % 16]
  }

  /** The values of TrailingOnes and PopCount on a low nibble. */
  const NIBBLE_FREE: seq<nat> := [0, 1, 0, 2, 0, 1, 0, 3, 0, 1, 0, 2, 0, 1, 0]
  const NIBBLE_USED: seq<nat> := [0, 1, 1, 2, 1, 2, 2, 3, 1, 2, 2, 3, 2, 3, 3, 4]

  lemma LowPopNibble(r: nat, b3: nat, b2: nat, b1: nat, b0: nat, w: nat)
    requires b3 < 2 && b2 < 2 && b1 < 2 && b0 < 2
    ensures LowPop(16 * r + 8 * b3 + 4 * b2 + 2 * b1 + b0, w + 4) == LowPop(r, w) + b3 + b2 + b1 + b0
  {
    LowPopStep(r, b3, w);
    LowPopStep(2 * r + b3, b2, w + 1);
    LowPopStep(4 * r + 2 * b3 + b2, b1, w + 2);
    LowPopStep(8 * r + 4 * b3 + 2 * b2 + b1, b0, w + 3);
  }

  lemma TrailingOnesNibble(r: nat, b3: nat, b2: nat, b1: nat, b0: nat)
    requires b3 < 2 && b2 < 2 && b1 < 2 && b0 < 2
    ensures TrailingOnes(16 * r + 8 * b3 + 4 * b2 + 2 * b1 + b0) ==
            if b0 == 0 then 0 else if b1 == 0 then 1 else if b2 == 0 then 2 else if b3 == 0 then 3
            else 4 + TrailingOnes(r)
  {
    TrailingOnesStep(8 * r + 4 * b3 + 2 * b2 + b1, b0);
    TrailingOnesStep(4 * r + 2 * b3 + b2, b1);
    TrailingOnesStep(2 * r + b3, b2);
    TrailingOnesStep(r, b3);
  }

  lemma NibblePop(r: nat, c: nat, w: nat)
    requires c < 16
    ensures LowPop(16 * r + c, w + 4) == LowPop(r, w) + NIBBLE_USED[c]
  {
    LowPopNibble(r, c / 8, c / 4 % 2, c / 2 % 2, c % 2, w);
    assert c == 0 || c == 1 || c == 2 || c == 3 || c == 4 || c == 5 || c == 6 || c == 7
        || c == 8 || c == 9 || c == 10 || c == 11 || c == 12 || c == 13 || c == 14 || c == 15;
  }

  lemma NibbleTrailingOnes(r: nat, c: nat)
    requires c < 16
    ensures TrailingOnes(16 * r + c) == if c < 15 then NIBBLE_FREE[c] else 4 + TrailingOnes(r)
  {
    TrailingOnesNibble(r, c / 8, c / 4 % 2, c / 2 % 2, c % 2);
    assert c == 0 || c == 1 || c == 2 || c == 3 || c == 4 || c == 5 || c == 6 || c == 7
        || c == 8 || c == 9 || c == 10 || c == 11 || c == 12 || c == 13 || c == 14 || c == 15;
  }

  lemma FreeBitRowRight(r: nat)
    requires r < 16
    ensures FreeBitRow(r)[..15] == NIBBLE_FREE
    ensures r < 15 ==> FreeBitRow(r)[15] == 4 + NIBBLE_FREE[r]
  {
  }

  lemma UsedBitRowRight(r: nat, c: nat)
    requires r < 16 && c < 16
    ensures UsedBitRow(r)[c] == NIBBLE_USED[r] + NIBBLE_USED[c]
  {
    assert c == 0 || c == 1 || c == 2 || c == 3 || c == 4 || c == 5 || c == 6 || c == 7
        || c == 8 || c == 9 || c == 10 || c == 11 || c == 12 || c == 13 || c == 14 || c == 15;
  }

  lemma FreeBitTable(k: nat)
    requires k < 255
    ensures FreeBit(k) == TrailingOnes(k)
  {
    var r, c := k / 16, k % 16;
    assert k == 16 * r + c;
    FreeBitAt(r, c);
  }

  lemma FreeBitAt(r: nat, c: nat)
    requires r < 16 && c < 16 && (r < 15 || c < 15)
    ensures FreeBitRow(r)[c] == TrailingOnes(16 * r + c)
  {
    NibbleTrailingOnes(r, c);
    FreeBitRowRight(r);
    if c < 15 { assert FreeBitRow(r)[..15][c] == FreeBitRow(r)[c]; } else { NibbleTrailingOnes(0, r); }
  }

  lemma UsedBitSum(k: nat)
    requires k < 256
    ensures UsedBit(k) == NIBBLE_USED[k / 16] + NIBBLE_USED[k % 16]
  {
    UsedBitRowRight(k / 16, k % 16);
  }

  lemma BytePop(r: nat, c: nat, w: nat)
    requires r < 16 && c < 16
    ensures LowPop(16 * r + c, w + 8) == NIBBLE_USED[r] + NIBBLE_USED[c]
  {
    NibblePop(r, c, w + 4);
    NibblePop(0, r, w);
    LowPopZero(w);
  }

  lemma UsedBitTable(k: nat)
    requires k < 256
    ensures UsedBit(k) == LowPop(k, 8)
  {
    UsedBitSum(k);
    BytePop(k / 16, k % 16, 0);
  }
}

/** Bytes held sector by sector, and the one stretch of bytes that they are. */
module SectorBytes {
  import opened Arith
  import opened Common

  /** All sectors have ss bytes. */
  ghost predicate Shaped(s: Sectors, ss: nat) {
    forall i :: 0 <= i < |s| ==> |s[i]| == ss
  }

  lemma {:induction false} FlatLength(s: Sectors, ss: nat)
    requires Shaped(s, ss)
    ensures |Flat(s)| == |s| * ss
  {
    if s != [] {
      FlatLength(s[1..], ss);
      OneMore(|s|, ss);
    }
  }

  lemma OneMore(k: nat, d: nat)
    requires k > 0
    ensures k * d == d + (k - 1) * d
  {
  }

  /** Byte p in its sector. */
  lemma {:induction false} ByteOf(s: Sectors, ss: nat, p: nat)
    requires ss > 0 && Shaped(s, ss) && p < |Flat(s)|
    ensures Quot(p, ss) < |s| && s[Quot(p, ss)][Rem(p, ss)] == Flat(s)[p]
    decreases |s|
  {
    if p >= ss { ByteOf(s[1..], ss, p - ss); }
  }

  /** The byte after it, in the same sector or the next. */
  lemma {:induction false} NextByte(s: Sectors, ss: nat, p: nat)
    requires ss > 0 && Shaped(s, ss) && p + 1 < |Flat(s)|
    ensures Rem(p, ss) == ss - 1 ==> Quot(p, ss) + 1 < |s| && s[Quot(p, ss) + 1][0] == Flat(s)[p + 1]
    ensures Rem(p, ss) != ss - 1 ==> Quot(p, ss) < |s| && s[Quot(p, ss)][Rem(p, ss) + 1] == Flat(s)[p + 1]
    decreases |s|
  {
    if p >= ss {
      NextByte(s[1..], ss, p - ss);
    } else if p == ss - 1 {
      assert s[1..] != [];
      assert s[1] == s[1..][0];
    }
  }

  /** A byte is changed where it is. */
  lemma {:induction false} ByteOfPut(s: Sectors, ss: nat, p: nat, b: byte)
    requires ss > 0 && Shaped(s, ss) && p < |Flat(s)|
    ensures Quot(p, ss) < |s| && Shaped(PutByte(s, Quot(p, ss), Rem(p, ss), b), ss)
    ensures Flat(PutByte(s, Quot(p, ss), Rem(p, ss), b)) == Flat(s)[p := b]
    decreases |s|
  {
    ByteOf(s, ss, p);
    var s' := PutByte(s, Quot(p, ss), Rem(p, ss), b);
    if p >= ss {
      ByteOfPut(s[1..], ss, p - ss, b);
      assert s'[1..] == PutByte(s[1..], Quot(p - ss, ss), Rem(p - ss, ss), b);
    } else {
      assert s'[1..] == s[1..];
    }
  }
}

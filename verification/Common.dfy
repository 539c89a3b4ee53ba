/** What several modules use. */
module Common {
  datatype Option<T> = None | Some(value: T)

  type byte = x: nat | x < 0x100
  type u16 = x: nat | x < 0x1_0000

  /** The two bytes at i, least significant first. */
  function Le16(d: seq<byte>, i: nat): (v: u16)
    requires i + 2 <= |d|
  {
    var lo: nat, hi: nat := d[i], d[i + 1];
    lo + 0x100 * hi
  }

  type Sectors = seq<seq<byte>>

  /** Sectors as one stretch of bytes. */
  function Flat(s: Sectors): (f: seq<byte>) {
    if s == [] then [] else s[0] + Flat(s[1..])
  }

  /** One byte of a sector is changed. */
  function PutByte(s: Sectors, sec: nat, off: nat, v: byte): (s': Sectors)
    requires sec < |s| && off < |s[sec]|
    ensures |s'| == |s|
  {
    var sector: seq<byte> := s[sec][off := v];
    s[sec := sector]
  }
}

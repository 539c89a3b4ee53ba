/** Framing on the MuC UART link: the packet format of
    drivers/mmi_muc_uart/muc_uart.c and what a receiver makes of a stream of
    bytes. The CRC is a parameter. */
module UartFrame {
  import opened Common

  type Crc = seq<byte> -> u16

  const MAGIC: nat := 0xA1A1
  const MAGIC_BYTE: byte := 0xA1
  const HEADER: nat := 6
  const META: nat := 8
  const MAX_MSG: nat := 2048
  const MAX_PAYLOAD: nat := 2040

  datatype Msg = Msg(cmd: u16, payload: seq<byte>)

  /** What muc_uart_rx_cb made of a buffer: the bytes it took off the front and
      the message it handed on, if any. */
  datatype Taken = Taken(size: nat, msg: Option<Msg>)

  function Le16Bytes(v: u16): (d: seq<byte>)
    ensures |d| == 2
  {
    [v % 0x100, v / 0x100]
  }

  lemma Le16RoundTrip(v: u16, d: seq<byte>, i: nat)
    requires i + 2 <= |d|
    ensures Le16(Le16Bytes(v), 0) == v
    ensures d[i..i + 2] == Le16Bytes(v) <==> Le16(d, i) == v
  {
    assert d[i..i + 2] == [d[i], d[i + 1]];
  }

  /** The packet that muc_uart_send builds. */
  function Content(m: Msg): (d: seq<byte>)
    requires |m.payload| <= MAX_PAYLOAD
    ensures |d| == HEADER + |m.payload|
  {
    Le16Bytes(MAGIC) + Le16Bytes(m.cmd) + Le16Bytes(|m.payload|) + m.payload
  }

  function Encode(crc: Crc, m: Msg): (d: seq<byte>)
    requires |m.payload| <= MAX_PAYLOAD
    ensures |d| == META + |m.payload|
  {
    Content(m) + Le16Bytes(crc(Content(m)))
  }

  predicate MagicAt(d: seq<byte>, i: nat)
    requires i + 2 <= |d|
  {
    Le16(d, i) == MAGIC
  }

  /** The first place from i on with a magic number, or the last byte. */
  function FindMagic(d: seq<byte>, i: nat): (k: nat)
    requires 1 <= i < |d|
    ensures i <= k < |d|
    ensures k + 1 < |d| ==> MagicAt(d, k)
    decreases |d| - i
  {
    if i + 1 < |d| && !MagicAt(d, i) then FindMagic(d, i + 1) else i
  }

  /** muc_uart_rx_cb as a function of the bytes received. */
  function Take(crc: Crc, d: seq<byte>): (t: Taken)
    ensures t.size <= |d|
  {
    if |d| < HEADER then Taken(0, None)
    else if !MagicAt(d, 0) then Taken(FindMagic(d, 1), None)
    else
      var len := Le16(d, 4);
      if len > MAX_PAYLOAD then Taken(HEADER, None)
      else if |d| < META + len then Taken(0, None)
      else if Le16(d, HEADER + len) != crc(d[..HEADER + len]) then Taken(META + len, None)
      else Taken(META + len, Some(Msg(Le16(d, 2), d[HEADER..HEADER + len])))
  }

  /** Taking segments until none is complete: the messages, and what is left. */
  function Drain(crc: Crc, d: seq<byte>): (r: (seq<Msg>, seq<byte>))
    decreases |d|
  {
    var t := Take(crc, d);
    if t.size == 0 then ([], d)
    else
      var (ms, rest) := Drain(crc, d[t.size..]);
      ((if t.msg.Some? then [t.msg.value] else []) + ms, rest)
  }

  /** A packet at the front is taken as a whole and handed on. */
  lemma TakesPacket(crc: Crc, m: Msg, rest: seq<byte>)
    requires |m.payload| <= MAX_PAYLOAD
    ensures Take(crc, Encode(crc, m) + rest) == Taken(|Encode(crc, m)|, Some(m))
  {
    var d, n := Encode(crc, m) + rest, |m.payload|;
    PacketFields(crc, m, rest);
    assert d[..HEADER + n] == Content(m);
    assert d[HEADER..HEADER + n] == m.payload;
  }

  lemma PacketFields(crc: Crc, m: Msg, rest: seq<byte>)
    requires |m.payload| <= MAX_PAYLOAD
    ensures var d, n := Encode(crc, m) + rest, |m.payload|;
            && MagicAt(d, 0) && Le16(d, 2) == m.cmd && Le16(d, 4) == n
            && Le16(d, HEADER + n) == crc(Content(m))
  {
    var d, n := Encode(crc, m) + rest, |m.payload|;
    assert d[0..2] == Le16Bytes(MAGIC);
    assert d[2..4] == Le16Bytes(m.cmd);
    assert d[4..6] == Le16Bytes(n);
    assert d[HEADER + n..HEADER + n + 2] == Le16Bytes(crc(Content(m)));
    Le16RoundTrip(MAGIC, d, 0);
    Le16RoundTrip(m.cmd, d, 2);
    Le16RoundTrip(n, d, 4);
    Le16RoundTrip(crc(Content(m)), d, HEADER + n);
  }

  /** The packet byte by byte: magic number, command and length, least significant
      byte first, the payload, and the check sum of all that. */
  lemma PacketLayout(crc: Crc, m: Msg)
    requires |m.payload| <= 2040
    ensures var d, n := Encode(crc, m), |m.payload|;
            && |d| == n + 8 && d[0] == 0xA1 && d[1] == 0xA1
            && d[2] as nat + 0x100 * d[3] as nat == m.cmd && d[4] as nat + 0x100 * d[5] as nat == n
            && d[6..6 + n] == m.payload
            && d[6 + n] as nat + 0x100 * d[7 + n] as nat == crc(d[..6 + n])
  {
    var d, n := Encode(crc, m), |m.payload|;
    assert d + [] == d;
    PacketFields(crc, m, []);
    assert d[..HEADER + n] == Content(m) && d[HEADER..HEADER + n] == m.payload;
  }

  /** A header with a length that no message has is taken off alone. */
  lemma BadLength(crc: Crc, d: seq<byte>)
    requires |d| >= 6 && d[0] == 0xA1 && d[1] == 0xA1 && d[4] as nat + 0x100 * d[5] as nat > 2040
    ensures Take(crc, d) == Taken(6, None)
  {
  }

  /** Nothing is handed on but packets: a message is delivered exactly when the
      buffer starts with its packet. */
  lemma DeliversIff(crc: Crc, d: seq<byte>, m: Msg)
    ensures Take(crc, d).msg == Some(m) <==> |m.payload| <= MAX_PAYLOAD && Encode(crc, m) <= d
  {
    if |m.payload| <= MAX_PAYLOAD && Encode(crc, m) <= d {
      assert d == Encode(crc, m) + d[|Encode(crc, m)|..];
      TakesPacket(crc, m, d[|Encode(crc, m)|..]);
    }
    if Take(crc, d).msg == Some(m) { DeliveredIsPacket(crc, d, m); }
  }

  lemma DeliveredIsPacket(crc: Crc, d: seq<byte>, m: Msg)
    requires Take(crc, d).msg == Some(m)
    ensures |m.payload| <= MAX_PAYLOAD && Encode(crc, m) <= d
  {
    var n := |m.payload|;
    Le16RoundTrip(MAGIC, d, 0);
    Le16RoundTrip(m.cmd, d, 2);
    Le16RoundTrip(n, d, 4);
    assert d[..HEADER + n] == d[0..2] + d[2..4] + d[4..6] + d[HEADER..HEADER + n];
    assert d[..HEADER + n] == Content(m);
    Le16RoundTrip(crc(Content(m)), d, HEADER + n);
    assert d[..META + n] == d[..HEADER + n] + d[HEADER + n..HEADER + n + 2];
  }

  /** An incomplete packet waits for the rest. */
  lemma WaitsForRest(crc: Crc, m: Msg, p: seq<byte>)
    requires |m.payload| <= MAX_PAYLOAD && p <= Encode(crc, m) && |p| < |Encode(crc, m)|
    ensures Take(crc, p) == Taken(0, None)
  {
    if |p| >= HEADER {
      PacketFields(crc, m, []);
      var d := Encode(crc, m) + [];
      assert p[0] == d[0] && p[1] == d[1] && p[4] == d[4] && p[5] == d[5];
    }
  }

  predicate Sendable(ms: seq<Msg>) {
    forall i :: 0 <= i < |ms| ==> |ms[i].payload| <= MAX_PAYLOAD
  }

  /** Messages sent back to back. */
  function Stream(crc: Crc, ms: seq<Msg>): (d: seq<byte>)
    requires Sendable(ms)
  {
    if ms == [] then [] else Encode(crc, ms[0]) + Stream(crc, ms[1..])
  }

  /** Bytes in which no magic number starts, not even one that ends in the
      first byte after them. */
  predicate Garbage(g: seq<byte>) {
    forall i :: 0 <= i < |g| ==> !MagicAt(g + [MAGIC_BYTE], i)
  }

  lemma GarbageSuffix(g: seq<byte>, k: nat)
    requires Garbage(g) && k <= |g|
    ensures Garbage(g[k..])
  {
    var h := g[k..];
    forall i | 0 <= i < |h| ensures !MagicAt(h + [MAGIC_BYTE], i) {
      assert !MagicAt(g + [MAGIC_BYTE], k + i);
      assert (h + [MAGIC_BYTE])[i] == (g + [MAGIC_BYTE])[k + i];
      assert (h + [MAGIC_BYTE])[i + 1] == (g + [MAGIC_BYTE])[k + i + 1];
    }
  }

  lemma {:induction false} FindMagicFirst(d: seq<byte>, i: nat, k: nat)
    requires 1 <= i <= k < |d| && (k + 1 < |d| ==> MagicAt(d, k))
    requires forall j :: i <= j < k ==> !MagicAt(d, j)
    ensures FindMagic(d, i) == k
    decreases k - i
  {
    if i < k { FindMagicFirst(d, i + 1, k); }
  }

  /** What a stream starts with, seen through its first bytes. */
  lemma StreamStarts(crc: Crc, ms: seq<Msg>)
    requires Sendable(ms) && ms != []
    ensures |Stream(crc, ms)| >= META && Stream(crc, ms)[0] == MAGIC_BYTE && Stream(crc, ms)[1] == MAGIC_BYTE
  {
  }

  /** At most one byte of the stream after the garbage is there: all but the
      last byte is thrown out. */
  lemma GarbageAlone(crc: Crc, g: seq<byte>, x: seq<byte>)
    requires Garbage(g) && g != [] && HEADER <= |x| <= |g| + 1 && x <= g + [MAGIC_BYTE]
    ensures Take(crc, x) == Taken(|x| - 1, None)
  {
    forall i | 0 <= i < |x| - 1 ensures !MagicAt(x, i) {
      assert !MagicAt(g + [MAGIC_BYTE], i);
    }
    FindMagicFirst(x, 1, |x| - 1);
  }

  /** The magic number after the garbage is there: the garbage is thrown out. */
  lemma GarbageBefore(crc: Crc, g: seq<byte>, x: seq<byte>)
    requires Garbage(g) && g != [] && |x| >= |g| + 2 && |x| >= HEADER
    requires x[..|g|] == g && x[|g|] == MAGIC_BYTE && x[|g| + 1] == MAGIC_BYTE
    ensures Take(crc, x) == Taken(|g|, None)
  {
    forall i | 0 <= i < |g| ensures !MagicAt(x, i) {
      assert !MagicAt(g + [MAGIC_BYTE], i);
      assert x[i] == (g + [MAGIC_BYTE])[i] && x[i + 1] == (g + [MAGIC_BYTE])[i + 1];
    }
    assert MagicAt(x, |g|);
    FindMagicFirst(x, 1, |g|);
  }
}

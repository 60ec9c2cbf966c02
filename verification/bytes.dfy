/** Byte-level vocabulary shared by the HCI engine, the L2CAP encoders and the
    transport: octets, 16-bit fields, Bluetooth device addresses and the
    engine's fixed 2048-byte scratch buffers. */
module Bytes {

  newtype byte = x: int | 0 <= x < 256

  /** An unsigned 16-bit C value (`uint16_t`). */
  type u16 = x: int | 0 <= x < 0x10000

  /** Size of the engine's general purpose HCI and L2CAP buffers and of the
      transport's send buffer (BULK_MAXPKTSIZE). */
  const BUFFER_SIZE: nat := 2048

  /** A 6-octet Bluetooth device address, least significant octet first. */
  type BdAddr = s: seq<byte> | |s| == 6 witness [0, 0, 0, 0, 0, 0]

  /** One of the engine's fixed-size scratch buffers. */
  type Buffer = s: seq<byte> | |s| == BUFFER_SIZE witness Zeros(BUFFER_SIZE)

  function Zeros(n: nat): (r: seq<byte>)
    ensures |r| == n
    ensures forall i :: 0 <= i < n ==> r[i] == 0
  {
    seq(n, i => 0)
  }

  const ZERO_ADDR: BdAddr := [0, 0, 0, 0, 0, 0]

  /** `memcpy(buf, p, |p|)`: the first |p| bytes are replaced, the rest keep
      whatever an earlier packet or command left there. */
  function Overlay(buf: Buffer, p: seq<byte>): (r: Buffer)
    requires |p| <= BUFFER_SIZE
    ensures r[..|p|] == p
    ensures forall i :: 0 <= i < |p| ==> r[i] == p[i]
    ensures forall i :: |p| <= i < BUFFER_SIZE ==> r[i] == buf[i]
  {
    p + buf[|p|..]
  }

  /** Low octet and high octet of a 16-bit field, the order the Bluetooth Core
      Specification uses for every multi-octet parameter. */
  function Le16(v: u16): (r: seq<byte>)
    ensures |r| == 2
    ensures FromLe16(r[0], r[1]) == v
  {
    [(v % 256) as byte, (v / 256) as byte]
  }

  function FromLe16(lo: byte, hi: byte): u16 {
    lo as int + 256 * hi as int
  }

  /** An 8-bit C field assigned from a wider count keeps the count modulo 256. */
  function Octet(n: nat): (b: byte)
    ensures b as int == n % 256
  {
    (n % 256) as byte
  }

  /** 2 to the k, for the bit masks of the C source. */
  function Pow2(k: nat): (p: nat)
    ensures p >= 1
  {
    if k == 0 then 1 else 2 * Pow2(k - 1)
  }

  /** `(x & (1 << k)) != 0` on a non-negative integer. */
  predicate Bit(x: int, k: nat)
    requires x >= 0
  {
    (x / Pow2(k)) % 2 == 1
  }

  /** The octets of an ASCII literal, as the C source's string constants are
      laid out in memory (without the terminator). */
  function Ascii(s: string): (r: seq<byte>)
    requires forall i :: 0 <= i < |s| ==> s[i] as int < 256
    ensures |r| == |s|
    ensures forall i :: 0 <= i < |s| ==> r[i] as int == s[i] as int
  {
    seq(|s|, i requires 0 <= i < |s| => s[i] as int as byte)
  }

  /** A C string's contents: no octet before the terminator is zero. */
  predicate NoNul(s: seq<byte>) {
    forall i :: 0 <= i < |s| ==> s[i] != 0
  }
}

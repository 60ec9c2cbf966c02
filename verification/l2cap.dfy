/** L2CAP signalling PDUs wrapped in HCI ACL data packets (`L2CAP_Command`
    and the seven `l2cap_*` builders of BTD). The ACL header follows section
    5.4.2 of Vol 4 Part E of the Bluetooth Core Specification, the basic
    L2CAP header section 3.1 of Vol 3 Part A, and the signalling commands
    section 4 of Vol 3 Part A. */
module L2cap {
  import opened Bytes
  import opened Wrappers

  /** A two-octet channel identifier, low octet first. */
  type Cid = s: seq<byte> | |s| == 2 witness [0, 0]

  /** Packet-boundary flag 0b10 (first automatically flushable packet), no
      broadcast: bit 0x20 of the second header octet. */
  const PB_FIRST_FLUSHABLE: byte := 0x20

  /** The signalling channel of an ACL-U link, used when the caller gives no
      channel. */
  const SIGNALLING_CID_LO: byte := 0x01
  const SIGNALLING_CID_HI: byte := 0x00

  const CONNECTION_REQUEST: byte := 0x02
  const CONNECTION_RESPONSE: byte := 0x03
  const CONFIG_REQUEST: byte := 0x04
  const CONFIG_RESPONSE: byte := 0x05
  const DISCONNECT_REQUEST: byte := 0x06
  const DISCONNECT_RESPONSE: byte := 0x07
  const INFORMATION_RESPONSE: byte := 0x0B

  /** Connection Response results: send PENDING first, then SUCCESSFUL. */
  const PENDING: byte := 0x01
  const SUCCESSFUL: byte := 0x00

  /** `L2CAP_Command(handle, data, nbytes, channelLow, channelHigh)`: ACL
      header (12-bit handle with the PB flag, total length 4 + n), basic L2CAP
      header (length n, channel id), then the payload. `nbytes` is an 8-bit
      parameter, so a payload holds at most 255 octets. */
  function Command(handle: u16, data: seq<byte>, chLo: byte, chHi: byte): (r: seq<byte>)
    requires |data| <= 255
    ensures |r| == 8 + |data|
    ensures r[0] as int == handle % 256
    ensures r[1] as int == (handle / 256) % 16 + PB_FIRST_FLUSHABLE as int
    ensures FromLe16(r[2], r[3]) == 4 + |data|
    ensures FromLe16(r[4], r[5]) == |data|
    ensures r[6] == chLo && r[7] == chHi
    ensures r[8..] == data
  {
    [(handle % 256) as byte, ((handle / 256) % 16) as byte + PB_FIRST_FLUSHABLE]
      + Le16(4 + |data|) + Le16(|data|) + [chLo, chHi] + data
  }

  /** The call with the channel arguments omitted: the signalling channel. */
  function SignalCommand(handle: u16, data: seq<byte>): (r: seq<byte>)
    requires |data| <= 255
    ensures r == Command(handle, data, SIGNALLING_CID_LO, SIGNALLING_CID_HI)
    ensures r[6] == 0x01 && r[7] == 0x00
  {
    Command(handle, data, SIGNALLING_CID_LO, SIGNALLING_CID_HI)
  }

  /** The seven signalling PDUs the engine can build. */
  datatype Signal =
    | ConnectionRequest(id: byte, scid: Cid, psm: u16)
    | ConnectionResponse(id: byte, dcid: Cid, scid: Cid, result: byte)
    | ConfigRequest(id: byte, dcid: Cid)
    | ConfigResponse(id: byte, scid: Cid)
    | DisconnectionRequest(id: byte, dcid: Cid, scid: Cid)
    | DisconnectionResponse(id: byte, dcid: Cid, scid: Cid)
    | InformationResponse(id: byte, infoLo: byte, infoHi: byte)

  /** Command code of each PDU (section 4 of Vol 3 Part A). */
  function Code(s: Signal): byte {
    match s
    case ConnectionRequest(_, _, _) => CONNECTION_REQUEST
    case ConnectionResponse(_, _, _, _) => CONNECTION_RESPONSE
    case ConfigRequest(_, _) => CONFIG_REQUEST
    case ConfigResponse(_, _) => CONFIG_RESPONSE
    case DisconnectionRequest(_, _, _) => DISCONNECT_REQUEST
    case DisconnectionResponse(_, _, _) => DISCONNECT_RESPONSE
    case InformationResponse(_, _, _) => INFORMATION_RESPONSE
  }

  /** The data field after code, identifier and length. */
  function Data(s: Signal): seq<byte> {
    match s
    case ConnectionRequest(_, scid, psm) => Le16(psm) + scid
    case ConnectionResponse(_, dcid, scid, result) => dcid + scid + [result, 0x00, 0x00, 0x00]
    // flags 0, then an MTU option (type 1, length 2) advertising 0xFFFF
    case ConfigRequest(_, dcid) => dcid + [0x00, 0x00, 0x01, 0x02, 0xFF, 0xFF]
    // flags 0, result success, then an MTU option accepting 0x02A0
    case ConfigResponse(_, scid) => scid + [0x00, 0x00, 0x00, 0x00, 0x01, 0x02, 0xA0, 0x02]
    case DisconnectionRequest(_, dcid, scid) => dcid + scid
    case DisconnectionResponse(_, dcid, scid) => dcid + scid
    case InformationResponse(_, lo, hi) => [lo, hi, 0x00, 0x00, 0x00, 0x00, 0x00, 0x00]
  }

  /** The length octets each builder writes literally. */
  function LengthField(s: Signal): seq<byte> {
    match s
    case ConnectionRequest(_, _, _) => [0x04, 0x00]
    case ConnectionResponse(_, _, _, _) => [0x08, 0x00]
    case ConfigRequest(_, _) => [0x08, 0x00]
    case ConfigResponse(_, _) => [0x0A, 0x00]
    case DisconnectionRequest(_, _, _) => [0x04, 0x00]
    case DisconnectionResponse(_, _, _) => [0x04, 0x00]
    case InformationResponse(_, _, _) => [0x08, 0x00]
  }

  /** The C-frame payload a builder puts in `l2capoutbuf`. */
  function Payload(s: Signal): (r: seq<byte>)
    ensures |r| >= 4 && r[0] == Code(s) && r[1] == s.id
  {
    [Code(s), s.id] + LengthField(s) + Data(s)
  }

  /** The ACL packet a builder hands to the send path. */
  function Build(handle: u16, s: Signal): seq<byte> {
    PayloadBounded(s);
    SignalCommand(handle, Payload(s))
  }

  lemma PayloadBounded(s: Signal)
    ensures |Payload(s)| <= 14
  {
  }

  /** Every builder's literal length field equals the number of data octets
      that follow it, so the signalling header is self-consistent. */
  lemma LengthFieldIsExact(s: Signal)
    ensures |Payload(s)| == 4 + FromLe16(LengthField(s)[0], LengthField(s)[1]) as int
    ensures Payload(s)[2..4] == LengthField(s)
  {
  }

  /** The Connection Request payload is code 0x02, the identifier, length 4,
      the PSM little-endian and the source channel id. */
  lemma ConnectionRequestLayout(handle: u16, id: byte, scid: Cid, psm: u16)
    ensures Payload(ConnectionRequest(id, scid, psm))
         == [0x02, id, 0x04, 0x00, (psm % 256) as byte, (psm / 256) as byte, scid[0], scid[1]]
    ensures |Build(handle, ConnectionRequest(id, scid, psm))| == 16
  {
  }

  /** The example PDU: connection request for source channel 0x0040 and the
      HID control PSM 0x0011 over handle 0x0001. */
  lemma HidControlConnectionRequest()
    ensures Build(0x0001, ConnectionRequest(0x05, [0x40, 0x00], 0x0011))
         == [0x01, 0x20, 0x0C, 0x00, 0x08, 0x00, 0x01, 0x00,
             0x02, 0x05, 0x04, 0x00, 0x11, 0x00, 0x40, 0x00]
  {
    var p := Payload(ConnectionRequest(0x05, [0x40, 0x00], 0x0011));
    ConnectionRequestPayload();
    HandleOneHeader(p);
  }

  /** The signalling PDU asking for the HID control channel. */
  lemma ConnectionRequestPayload()
    ensures Payload(ConnectionRequest(0x05, [0x40, 0x00], 0x0011))
         == [0x02, 0x05, 0x04, 0x00, 0x11, 0x00, 0x40, 0x00]
  {
    assert Le16(0x0011) == [0x11, 0x00];
  }

  /** The header of an eight-octet signalling payload sent on handle 1. */
  lemma HandleOneHeader(p: seq<byte>)
    requires |p| == 8
    ensures SignalCommand(1, p) == [0x01, 0x20, 0x0C, 0x00, 0x08, 0x00, 0x01, 0x00] + p
  {
    assert Le16(12) == [0x0C, 0x00] && Le16(8) == [0x08, 0x00];
  }

  /** `x | 0x20` for an octet. */
  function OrPb(x: int): int
    requires 0 <= x < 256
  {
    if Bit(x, 5) then x else x + 0x20
  }

  /** `BluetoothService::checkHciHandle`: the first two octets of an incoming
      ACL packet are `handle & 0xFF` and `(handle >> 8) | 0x20`. */
  function CheckHciHandle(buf: seq<byte>, handle: u16): (ok: bool)
    requires |buf| >= 2
    ensures ok ==> buf[0] as int == handle % 256 && Bit(buf[1] as int, 5)
  {
    buf[0] as int == handle % 256 && buf[1] as int == OrPb(handle / 256)
  }

  /** A 12-bit handle is its low octet plus 256 times a high nibble. */
  lemma SplitHandle(h: u16)
    requires h < 0x1000
    ensures h == 256 * (h / 256) + h % 256 && h / 256 < 16 && (h / 256) % 16 == h / 256
  {
  }

  /** The first two octets `L2CAP_Command` writes for a 12-bit handle. */
  lemma CommandHandleOctets(h: u16, data: seq<byte>, lo: byte, hi: byte)
    requires h < 0x1000 && |data| <= 255
    ensures Command(h, data, lo, hi)[0] as int == h % 256
    ensures Command(h, data, lo, hi)[1] as int == h / 256 + 32
  {
    SplitHandle(h);
  }

  /** `OrPb` on a high nibble adds the flag bit. */
  lemma OrPbNibble(y: int)
    requires 0 <= y < 16
    ensures OrPb(y) == y + 32
  {
    assert Pow2(5) == 32;
    assert y / 32 == 0;
  }

  /** For 12-bit handles the check accepts a packet built for handle h exactly
      when it is asked about h. */
  lemma CheckHciHandleMatchesCommand(h: u16, h': u16, data: seq<byte>, lo: byte, hi: byte)
    requires h < 0x1000 && h' < 0x1000 && |data| <= 255
    ensures CheckHciHandle(Command(h, data, lo, hi), h') <==> h == h'
  {
    CommandHandleOctets(h, data, lo, hi);
    SplitHandle(h);
    SplitHandle(h');
    OrPbNibble(h' / 256);
  }

  /** For a 12-bit handle the check accepts exactly the packets whose
      12-bit handle field decodes to it and whose flag nibble is 0x2 (first
      automatically flushable fragment). */
  lemma CheckHciHandleDecodes(buf: seq<byte>, h: u16)
    requires |buf| >= 2 && h < 0x1000
    ensures CheckHciHandle(buf, h) <==>
      buf[0] as int + 256 * (buf[1] as int % 16) == h && buf[1] as int / 16 == 2
  {
    SplitHandle(h);
    OrPbNibble(h / 256);
  }

  /** What a receiver reads back from an ACL packet carrying one complete
      L2CAP frame. */
  datatype AclFrame = AclFrame(handle: u16, cid: u16, payload: seq<byte>)

  /** Reads the header back; fails unless both length fields agree with the
      packet size and the PB flag is the one the builders use. */
  function Parse(p: seq<byte>): (r: Option<AclFrame>)
    ensures r.Some? ==> |r.value.payload| + 8 == |p| && r.value.handle < 0x1000
  {
    if |p| < 8 then None
    else if p[1] / 16 != PB_FIRST_FLUSHABLE / 16 then None
    else if FromLe16(p[2], p[3]) != |p| - 4 then None
    else if FromLe16(p[4], p[5]) != |p| - 8 then None
    else Some(AclFrame(p[0] as int + 256 * (p[1] as int % 16), FromLe16(p[6], p[7]), p[8..]))
  }

  /** Parsing what `L2CAP_Command` built gives back the handle, the channel
      and the payload, for every 12-bit handle. */
  lemma ParseCommand(h: u16, data: seq<byte>, lo: byte, hi: byte)
    requires h < 0x1000 && |data| <= 255
    ensures Parse(Command(h, data, lo, hi)) == Some(AclFrame(h, FromLe16(lo, hi), data))
  {
    var p := Command(h, data, lo, hi);
    CommandHandleOctets(h, data, lo, hi);
    SplitHandle(h);
    var y := h / 256;
    assert p[1] as int == y + 32;
    assert (y + 32) / 16 == 2 && (y + 32) % 16 == y;
    assert p[0] as int + 256 * (p[1] as int % 16) == h;
  }
}

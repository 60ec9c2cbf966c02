/** The HCI command packets the engine sends (the `hci_*` builders of BTD).
    Layout per section 5.4.1 of the Bluetooth Core Specification, Vol 4 Part E:
    opcode (OCF in the low 10 bits, OGF in the high 6) little-endian, one
    parameter-length octet, then the parameters. */
module HciCommands {
  import opened Bytes
  import opened HciFlags

  /** Opcode group fields (section 7 of Vol 4 Part E). */
  const OGF_LINK_CONTROL: byte := 0x01
  const OGF_CONTROLLER_BASEBAND: byte := 0x03
  const OGF_INFORMATIONAL: byte := 0x04

  /** General/Unlimited Inquiry Access Code 0x9E8B33. */
  const GIAC: seq<byte> := [0x33, 0x8B, 0x9E]

  /** A PIN code as the PIN Code Request Reply carries it: at most 16 octets. */
  type Pin = s: seq<byte> | |s| <= 16

  /** A local device name as `btdName` holds it: a C string whose length fits
      the builder's 8-bit loop counter. */
  type LocalName = s: seq<byte> | |s| <= 255 && NoNul(s)

  /** One constructor per builder; the arguments are the values each builder
      reads from the engine (the peer address `disc_bdaddr`, the handle, ...). */
  datatype HciCmd =
    | Reset
    | WriteScanEnable(inquiryScan: bool)
    | WriteScanDisable
    | ReadBdAddr
    | ReadLocalVersion
    | ReadLocalExtendedFeatures(page: byte)
    | AcceptConnection(addr: BdAddr)
    | RemoteNameRequest(addr: BdAddr)
    | WriteLocalName(name: LocalName)
    | SetEventMask
    | WriteSimplePairingMode(enable: bool)
    | Inquiry
    | InquiryCancel
    | CreateConnection(addr: BdAddr)
    | PinCodeReply(addr: BdAddr, pin: Pin)
    | PinCodeNegativeReply(addr: BdAddr)
    | LinkKeyNegativeReply(addr: BdAddr)
    | IoCapabilityReply(addr: BdAddr)
    | UserConfirmationReply(addr: BdAddr)
    | AuthenticationRequested(handle: u16)
    | Disconnect(handle: u16)
    | WriteClassOfDevice

  /** Opcode group of each command, as section 7.1 (link control), 7.3
      (controller and baseband) and 7.4 (informational) assign them. */
  function Ogf(c: HciCmd): byte {
    match c
    case Reset | WriteScanEnable(_) | WriteScanDisable | WriteLocalName(_)
      | SetEventMask | WriteSimplePairingMode(_) | WriteClassOfDevice => OGF_CONTROLLER_BASEBAND
    case ReadBdAddr | ReadLocalVersion | ReadLocalExtendedFeatures(_) => OGF_INFORMATIONAL
    case _ => OGF_LINK_CONTROL
  }

  /** Opcode command field of each command. */
  function Ocf(c: HciCmd): byte {
    match c
    case Reset => 0x03
    case WriteScanEnable(_) => 0x1A
    case WriteScanDisable => 0x1A
    case ReadBdAddr => 0x09
    case ReadLocalVersion => 0x01
    case ReadLocalExtendedFeatures(_) => 0x04
    case AcceptConnection(_) => 0x09
    case RemoteNameRequest(_) => 0x19
    case WriteLocalName(_) => 0x13
    case SetEventMask => 0x01
    case WriteSimplePairingMode(_) => 0x56
    case Inquiry => 0x01
    case InquiryCancel => 0x02
    case CreateConnection(_) => 0x05
    case PinCodeReply(_, _) => 0x0D
    case PinCodeNegativeReply(_) => 0x0E
    case LinkKeyNegativeReply(_) => 0x0C
    case IoCapabilityReply(_) => 0x2B
    case UserConfirmationReply(_) => 0x2C
    case AuthenticationRequested(_) => 0x11
    case Disconnect(_) => 0x06
    case WriteClassOfDevice => 0x24
  }

  /** Connection handle as the builders put it on the wire: `h & 0xFF`, then
      `(h >> 8) & 0x0F`, the upper four bits of the 12-bit handle. */
  function HandleLo(h: u16): byte { (h % 256) as byte }
  function HandleHi(h: u16): (b: byte)
    ensures b < 16
  {
    ((h / 256) % 16) as byte
  }

  /** Connection handle as the Connect Complete branch of the event parser
      reads it back: `lo | (hi & 0x0F) << 8`. */
  function DecodeHandle(lo: byte, hi: byte): (h: u16)
    ensures h < 0x1000
    ensures h % 256 == lo as int && h / 256 == hi as int % 16
  {
    lo as int + 256 * (hi as int % 16)
  }

  /** Encoding then decoding a handle gives it back for every 12-bit handle,
      and only for those: the top four bits are dropped by the encoders. */
  lemma HandleRoundTrip(h: u16)
    ensures DecodeHandle(HandleLo(h), HandleHi(h)) == h <==> h < 0x1000
  {
  }

  /** PIN field: the PIN octets followed by zeros up to 16. */
  function PinField(pin: Pin): (r: seq<byte>)
    ensures |r| == 16
    ensures r[..|pin|] == pin
    ensures forall i :: |pin| <= i < 16 ==> r[i] == 0
  {
    pin + Zeros(16 - |pin|)
  }

  /** The parameter octets of each command (everything after the 3-octet header). */
  function Params(c: HciCmd): seq<byte> {
    match c
    case Reset => []
    case WriteScanEnable(inq) => [if inq then 0x03 else 0x02]
    case WriteScanDisable => [0x00]
    case ReadBdAddr => []
    case ReadLocalVersion => []
    case ReadLocalExtendedFeatures(page) => [page]
    case AcceptConnection(a) => a + [0x00]
    case RemoteNameRequest(a) => a + [0x01, 0x00, 0x00, 0x00]
    case WriteLocalName(name) => name + [0x00]
    case SetEventMask => [0xFF, 0xFF, 0xFF, 0xFF, 0xFF, 0x1F, 0xFF, 0x00]
    case WriteSimplePairingMode(en) => [if en then 1 else 0]
    case Inquiry => GIAC + [0x30, 0x0A]
    case InquiryCancel => []
    case CreateConnection(a) => a + [0x18, 0xCC, 0x01, 0x00, 0x00, 0x00, 0x00]
    case PinCodeReply(a, pin) => a + [|pin| as byte] + PinField(pin)
    case PinCodeNegativeReply(a) => a
    case LinkKeyNegativeReply(a) => a
    case IoCapabilityReply(a) => a + [0x03, 0x00, 0x00]
    case UserConfirmationReply(a) => a
    case AuthenticationRequested(h) => [HandleLo(h), HandleHi(h)]
    case Disconnect(h) => [HandleLo(h), HandleHi(h), 0x13]
    case WriteClassOfDevice => [0x04, 0x08, 0x00]
  }

  /** The full command packet as the builder leaves it in `hcibuf` and passes
      to `HCI_Command`. The parameter-length octet is an 8-bit field, so the
      name command's `strlen(name) + 1` wraps for a 255-octet name. */
  function Encode(c: HciCmd): (r: seq<byte>)
    ensures |r| == 3 + |Params(c)|
    ensures r[3..] == Params(c)
    ensures r[0] == Ocf(c) && r[1] == Ogf(c) * 4
  {
    [Ocf(c), Ogf(c) * 4, Octet(|Params(c)|)] + Params(c)
  }

  /** Total octets handed to `HCI_Command`. */
  function Size(c: HciCmd): nat {
    match c
    case Reset | ReadBdAddr | ReadLocalVersion | InquiryCancel => 3
    case WriteScanEnable(_) | WriteScanDisable | ReadLocalExtendedFeatures(_)
      | WriteSimplePairingMode(_) => 4
    case AuthenticationRequested(_) => 5
    case Disconnect(_) | WriteClassOfDevice => 6
    case Inquiry => 8
    case PinCodeNegativeReply(_) | LinkKeyNegativeReply(_) | UserConfirmationReply(_) => 9
    case AcceptConnection(_) => 10
    case SetEventMask => 11
    case IoCapabilityReply(_) => 12
    case RemoteNameRequest(_) => 13
    case CreateConnection(_) => 16
    case PinCodeReply(_, _) => 26
    case WriteLocalName(name) => 4 + |name|
  }

  /** The flag each builder clears before sending, so that the state machine
      waits for a fresh event. `HCI_Command` itself clears CMD_COMPLETE on
      top of this, and the reset builder clears the whole word. */
  function Consumes(c: HciCmd): FlagWord {
    match c
    case Reset => 0xFFFF
    case WriteScanEnable(_) => INCOMING_REQUEST
    case ReadBdAddr => READ_BDADDR
    case ReadLocalVersion => READ_VERSION
    case ReadLocalExtendedFeatures(_) => LOCAL_EXTENDED_FEATURES
    case AcceptConnection(_) => CONNECT_COMPLETE
    case RemoteNameRequest(_) => REMOTE_NAME_COMPLETE
    case Inquiry => DEVICE_FOUND
    case CreateConnection(_) => CONNECT_COMPLETE | CONNECT_EVENT
    case Disconnect(_) => DISCONNECT_COMPLETE
    case _ => 0
  }

  /** Flag word after a command that consumes `m` is issued: the builder's
      own clear, then `HCI_Command`'s clear of CMD_COMPLETE. */
  function FlagsAfterIssue(w: FlagWord, m: FlagWord): (r: FlagWord)
    ensures !Check(r, CMD_COMPLETE)
    ensures !Check(r, m)
    ensures r & !(m | CMD_COMPLETE) == w & !(m | CMD_COMPLETE)
  {
    ClearThenClear(w, m);
    Clear(Clear(w, m), CMD_COMPLETE)
  }

  lemma ClearThenClear(w: FlagWord, m: FlagWord)
    ensures Clear(Clear(w, m), CMD_COMPLETE) & CMD_COMPLETE == 0
    ensures Clear(Clear(w, m), CMD_COMPLETE) & m == 0
    ensures Clear(Clear(w, m), CMD_COMPLETE) & !(m | CMD_COMPLETE) == w & !(m | CMD_COMPLETE)
  {
    var a := Clear(w, m);
    var r := Clear(a, CMD_COMPLETE);
    assert r == (w & !m) & !CMD_COMPLETE;
  }

  /** `hci_reset` zeroes the whole flag word. */
  lemma ResetClearsAllFlags(w: FlagWord)
    ensures FlagsAfterIssue(w, Consumes(Reset)) == 0
  {
  }

  lemma ClearTwice(w: FlagWord, m: FlagWord, n: FlagWord)
    ensures Clear(Clear(w, m), n) & m == 0
    ensures Clear(Clear(w, m), n) & n == 0
    ensures Clear(Clear(w, m), n) & !(m | n) == w & !(m | n)
  {
  }

  /** Every builder writes the low opcode octet, OGF << 2 (OGF * 4), and a length octet
      equal to the number of octets after the header; the packet has the
      size the builder hands to `HCI_Command`. The one exception is a local
      name of 255 octets, whose length octet wraps to zero. */
  lemma {:induction false} HeaderLaw(c: HciCmd)
    ensures |Encode(c)| == Size(c)
    ensures Encode(c)[1] == Ogf(c) * 4
    ensures Encode(c)[0] == Ocf(c)
    ensures !(c.WriteLocalName? && |c.name| == 255) ==> Encode(c)[2] as int == Size(c) - 3
    ensures c.WriteLocalName? && |c.name| == 255 ==> Encode(c)[2] == 0
  {
    assert |Params(c)| + 3 == Size(c) by { ParamsSize(c); }
  }

  lemma ParamsSize(c: HciCmd)
    ensures |Params(c)| + 3 == Size(c)
  {
  }

  /** The literal encodings of reset, inquiry and write class of device. */
  lemma ResetEncoding()
    ensures Encode(Reset) == [0x03, 0x0C, 0x00]
  {
    assert Octet(0) == 0;
  }

  lemma InquiryEncoding()
    ensures Encode(Inquiry) == [0x01, 0x04, 0x05, 0x33, 0x8B, 0x9E, 0x30, 0x0A]
  {
    assert Octet(5) == 5;
  }

  lemma WriteClassOfDeviceEncoding()
    ensures Encode(WriteClassOfDevice) == [0x24, 0x0C, 0x03, 0x04, 0x08, 0x00]
  {
    assert Octet(3) == 3;
  }

  /** The handle carried by the authentication and disconnect commands reads
      back, with the event parser's decoder, as the handle they were built
      for, for every 12-bit handle. */
  lemma CommandHandleRoundTrip(h: u16)
    requires h < 0x1000
    ensures DecodeHandle(Encode(AuthenticationRequested(h))[3], Encode(AuthenticationRequested(h))[4]) == h
    ensures DecodeHandle(Encode(Disconnect(h))[3], Encode(Disconnect(h))[4]) == h
  {
    HandleRoundTrip(h);
  }
}

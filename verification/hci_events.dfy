/** `HCI_event_task`: one event packet from the controller is copied into
    `hcibuf` and dispatched on its event code (section 7.7 of Vol 4 Part E of
    the Bluetooth Core Specification). Fields are read from `hcibuf`, so a
    short event sees whatever an earlier packet or command left beyond it. */
module HciEvents {
  import opened Bytes
  import opened Wrappers
  import opened HciFlags
  import opened HciCommands
  import opened BtdEngine
  import Vhci

  const EV_INQUIRY_COMPLETE: byte := 0x01
  const EV_INQUIRY_RESULT: byte := 0x02
  const EV_CONNECT_COMPLETE: byte := 0x03
  const EV_INCOMING_CONNECT: byte := 0x04
  const EV_DISCONNECT_COMPLETE: byte := 0x05
  const EV_AUTHENTICATION_COMPLETE: byte := 0x06
  const EV_REMOTE_NAME_COMPLETE: byte := 0x07
  const EV_COMMAND_COMPLETE: byte := 0x0E
  const EV_COMMAND_STATUS: byte := 0x0F
  const EV_PIN_CODE_REQUEST: byte := 0x16
  const EV_LINK_KEY_REQUEST: byte := 0x17
  const EV_EXTENDED_INQUIRY_RESULT: byte := 0x2F
  const EV_IO_CAPABILITY_REQUEST: byte := 0x31
  const EV_IO_CAPABILITY_RESPONSE: byte := 0x32
  const EV_USER_CONFIRMATION_REQUEST: byte := 0x33
  const EV_SIMPLE_PAIRING_COMPLETE: byte := 0x36

  // ---------------------------------------------------------------------
  // Class of device tests

  /** A Wiimote-like class: major service class octet zero, major device
      class peripheral (low nibble of octet 1 is 5), and a joystick or
      gamepad minor class (`cod[0] & 0x0C`). */
  predicate IsWiiClass(cod: ClassOfDevice) {
    cod[2] == 0 && cod[1] % 16 == 5 && (cod[0] / 4) % 4 != 0
  }

  /** A HID peripheral: major class peripheral and a keyboard, pointing
      device or gamepad minor class (`cod[0] & 0xC8`: bit 3, 6 or 7). */
  predicate IsHidClass(cod: ClassOfDevice) {
    cod[1] % 16 == 5 && ((cod[0] / 8) % 2 == 1 || cod[0] >= 64)
  }

  /** A discovered device the engine wants: a Wii controller while pairing
      with one, or a HID device while pairing with one. */
  predicate Qualifies(p: Pairing, cod: ClassOfDevice) {
    (p.pairWithWii && IsWiiClass(cod)) || (p.pairWithHid && IsHidClass(cod))
  }

  // ---------------------------------------------------------------------
  // Command Complete

  /** The flag a successful Command Complete for the opcode `lo hi` raises
      beside CMD_COMPLETE, if any. */
  function CompleteFlag(lo: byte, hi: byte): (f: FlagWord)
    ensures f in {0, READ_VERSION, LOCAL_EXTENDED_FEATURES, READ_BDADDR}
  {
    if lo == 0x01 && hi == 0x10 then READ_VERSION
    else if lo == 0x04 && hi == 0x10 then LOCAL_EXTENDED_FEATURES
    else if lo == 0x09 && hi == 0x10 then READ_BDADDR
    else 0
  }

  /** The return parameters a successful Command Complete records: the HCI
      version, the simple-pairing bit (bit 51, page 0; only while the
      features were not yet known) or the local address. */
  function CompleteHost(h: Host, featuresKnown: bool, b: Buffer): (r: Host)
    ensures b[3] == 0x01 && b[4] == 0x10 ==> r == h.(hciVersion := b[6])
    ensures b[3] == 0x04 && b[4] == 0x10 ==>
      r == h.(simplePairingSupported :=
                if !featuresKnown && b[6] == 0 then (b[14] / 8) % 2 == 1 else h.simplePairingSupported)
    ensures b[3] == 0x09 && b[4] == 0x10 ==> r == h.(myBdaddr := b[6..12])
    ensures b[4] != 0x10 || b[3] !in {0x01, 0x04, 0x09} ==> r == h
  {
    if b[3] == 0x01 && b[4] == 0x10 then h.(hciVersion := b[6])
    else if b[3] == 0x04 && b[4] == 0x10 then
      if !featuresKnown && b[6] == 0 then h.(simplePairingSupported := (b[14] / 8) % 2 == 1) else h
    else if b[3] == 0x09 && b[4] == 0x10 then h.(myBdaddr := b[6..12])
    else h
  }

  /** The flag word after a successful Command Complete: CMD_COMPLETE and
      the opcode's own flag are set. */
  lemma CompleteFlags(w: FlagWord, f: FlagWord)
    requires f in {0, READ_VERSION, LOCAL_EXTENDED_FEATURES, READ_BDADDR}
    ensures Check(Set(Set(w, CMD_COMPLETE), f), CMD_COMPLETE)
    ensures f != 0 ==> Check(Set(Set(w, CMD_COMPLETE), f), f)
    ensures Check(Set(w, CMD_COMPLETE), LOCAL_EXTENDED_FEATURES) == Check(w, LOCAL_EXTENDED_FEATURES)
  {
    SetThenCheck(w, CMD_COMPLETE);
    SetKeeps(Set(w, CMD_COMPLETE), f, CMD_COMPLETE);
    if f != 0 {
      SetThenCheck(Set(w, CMD_COMPLETE), f);
    }
    SetOther(w, CMD_COMPLETE, LOCAL_EXTENDED_FEATURES);
  }

  /** A successful Command Complete sets CMD_COMPLETE and, for three
      informational commands, records their return parameters:
      the HCI version (Read Local Version Information, opcode 0x1001), the
      simple-pairing feature bit 51 of page 0 (Read Local Extended
      Features, opcode 0x1004; only while LOCAL_EXTENDED_FEATURES is still
      clear), and the local address (Read BD_ADDR, opcode 0x1009). A
      failed command changes nothing. */
  function CommandComplete(e: Btd): (r: Btd)
    ensures e.hcibuf[5] != 0 ==> r == e
    ensures e.hcibuf[5] == 0 ==> Check(r.flags, CMD_COMPLETE)
    ensures e.hcibuf[5] == 0 && e.hcibuf[3] == 0x01 && e.hcibuf[4] == 0x10 ==>
              r.host.hciVersion == e.hcibuf[6] && Check(r.flags, READ_VERSION)
    ensures e.hcibuf[5] == 0 && e.hcibuf[3] == 0x04 && e.hcibuf[4] == 0x10 ==>
              && Check(r.flags, LOCAL_EXTENDED_FEATURES)
              && r.host.simplePairingSupported ==
                   (if !Check(e.flags, LOCAL_EXTENDED_FEATURES) && e.hcibuf[6] == 0
                    then (e.hcibuf[14] / 8) % 2 == 1 else e.host.simplePairingSupported)
    ensures e.hcibuf[5] == 0 && e.hcibuf[3] == 0x09 && e.hcibuf[4] == 0x10 ==>
              r.host.myBdaddr == e.hcibuf[6..12] && Check(r.flags, READ_BDADDR)
    ensures e.hcibuf[5] == 0 ==>
      && r.flags == Set(Set(e.flags, CMD_COMPLETE), CompleteFlag(e.hcibuf[3], e.hcibuf[4]))
      && r.host == CompleteHost(e.host, Check(e.flags, LOCAL_EXTENDED_FEATURES), e.hcibuf)
    ensures r == e.(flags := r.flags, host := r.host)
    ensures r.host.name == e.host.name && r.host.pin == e.host.pin
  {
    var b := e.hcibuf;
    if b[5] != 0 then e
    else
      var w := Set(e.flags, CMD_COMPLETE);
      var f := CompleteFlag(b[3], b[4]);
      CompleteFlags(e.flags, f);
      e.(flags := Set(w, f), host := CompleteHost(e.host, Check(e.flags, LOCAL_EXTENDED_FEATURES), b))
  }

  // ---------------------------------------------------------------------
  // Inquiry Complete

  /** After five or more inquiries without a pairing, the pairing attempt is
      abandoned: all Wii/HID intents are dropped and the engine returns to
      scanning. The inquiry count is an 8-bit counter that always advances. */
  function InquiryComplete(e: Btd): (r: Btd)
    ensures var giveUp := e.inquiryCounter >= 5 && (e.pairing.pairWithWii || e.pairing.pairWithHid);
      && (giveUp ==> r.inquiryCounter == 1 && r.state == ScanningState
                     && !r.pairing.pairWithWii && !r.pairing.pairWithHid
                     && !r.pairing.connectToWii && !r.pairing.connectToHid)
      && (!giveUp ==> r == e.(inquiryCounter := r.inquiryCounter)
                      && r.inquiryCounter as int == (e.inquiryCounter as int + 1) % 256)
    ensures r.flags == e.flags && r.peer == e.peer
    ensures r == e.(inquiryCounter := r.inquiryCounter, state := r.state, pairing := r.pairing)
  {
    var e1 := if e.inquiryCounter >= 5 && (e.pairing.pairWithWii || e.pairing.pairWithHid)
              then e.(inquiryCounter := 0, state := ScanningState,
                      pairing := e.pairing.(connectToWii := false, pairWithWii := false,
                                            connectToHid := false, pairWithHid := false))
              else e;
    e1.(inquiryCounter := Octet(e1.inquiryCounter as int + 1))
  }

  // ---------------------------------------------------------------------
  // Inquiry Result / Extended Inquiry Result

  /** Offset of the class-of-device array: N responses' addresses plus
      page-scan mode and reserved octets (9N for a plain result, 8N for an
      extended one), computed in an 8-bit variable. */
  function CodOffset(extended: bool, n: nat): (off: nat)
    ensures off < 256
  {
    if extended then (8 * n) % 256 else (9 * n) % 256
  }

  /** A real Inquiry Result carries at most 18 responses (its parameters fit
      255 octets at 14 per response), so the 8-bit offset never wraps. */
  lemma CodOffsetExact(extended: bool, n: nat)
    requires 14 * n + 1 <= 255
    ensures CodOffset(extended, n) == (if extended then 8 * n else 9 * n)
  {
  }

  /** Response i's class of device, 3 + offset + 3i. */
  function CodAt(b: Buffer, extended: bool, n: nat, i: nat): ClassOfDevice
    requires i < n <= 255
  {
    var p := 3 + CodOffset(extended, n) + 3 * i;
    b[p..p + 3]
  }

  /** Response i's device address, 3 + 6i. */
  function AddrAt(b: Buffer, i: nat): BdAddr
    requires i < 255
  {
    b[3 + 6 * i..3 + 6 * i + 6]
  }

  /** The loop over responses i, i+1, ..., n-1. Each response's class is
      stored in `classOfDevice` before it is tested; the first qualifying
      response becomes the discovered device and ends the loop. */
  function Scan(e: Btd, extended: bool, n: nat, i: nat): (r: Btd)
    requires i <= n <= 255
    ensures r.hcibuf == e.hcibuf && r.state == e.state
    ensures r.pairing == e.pairing.(checkRemoteName := r.pairing.checkRemoteName)
    ensures r.peer == e.peer.(discBdaddr := r.peer.discBdaddr, classOfDevice := r.peer.classOfDevice)
    ensures r == e.(flags := r.flags, peer := r.peer, pairing := r.pairing)
    ensures r.flags == e.flags || r.flags == Set(e.flags, DEVICE_FOUND)
    decreases n - i
  {
    if i == n then e
    else
      var cod := CodAt(e.hcibuf, extended, n, i);
      var e1 := e.(peer := e.peer.(classOfDevice := cod));
      if Qualifies(e.pairing, cod) then
        e1.(pairing := e1.pairing.(checkRemoteName := true),
            peer := e1.peer.(discBdaddr := AddrAt(e.hcibuf, i)),
            flags := Set(e1.flags, DEVICE_FOUND))
      else Scan(e1, extended, n, i + 1)
  }

  /** The scan picks the first qualifying response k: its address and class
      are recorded, DEVICE_FOUND is set and the name is to be checked. */
  lemma {:induction false} ScanFindsFirst(e: Btd, extended: bool, n: nat, i: nat, k: nat)
    requires i <= k < n <= 255
    requires Qualifies(e.pairing, CodAt(e.hcibuf, extended, n, k))
    requires forall j :: i <= j < k ==> !Qualifies(e.pairing, CodAt(e.hcibuf, extended, n, j))
    ensures Scan(e, extended, n, i).peer.discBdaddr == AddrAt(e.hcibuf, k)
    ensures Scan(e, extended, n, i).peer.classOfDevice == CodAt(e.hcibuf, extended, n, k)
    ensures Scan(e, extended, n, i).flags == Set(e.flags, DEVICE_FOUND)
    ensures Scan(e, extended, n, i).pairing.checkRemoteName
    decreases n - i
  {
    if i < k {
      var cod := CodAt(e.hcibuf, extended, n, i);
      assert !Qualifies(e.pairing, cod);
      var e1 := e.(peer := e.peer.(classOfDevice := cod));
      ScanFindsFirst(e1, extended, n, i + 1, k);
    }
  }

  /** When no response qualifies, no flag, address or intent changes, and
      the class left behind is the last response's. */
  lemma {:induction false} ScanFindsNone(e: Btd, extended: bool, n: nat, i: nat)
    requires i <= n <= 255
    requires forall j :: i <= j < n ==> !Qualifies(e.pairing, CodAt(e.hcibuf, extended, n, j))
    ensures Scan(e, extended, n, i).flags == e.flags
    ensures Scan(e, extended, n, i).peer.discBdaddr == e.peer.discBdaddr
    ensures Scan(e, extended, n, i).pairing == e.pairing
    ensures i < n ==> Scan(e, extended, n, i).peer.classOfDevice == CodAt(e.hcibuf, extended, n, n - 1)
    decreases n - i
  {
    if i < n {
      var cod := CodAt(e.hcibuf, extended, n, i);
      assert !Qualifies(e.pairing, cod);
      var e1 := e.(peer := e.peer.(classOfDevice := cod));
      ScanFindsNone(e1, extended, n, i + 1);
    }
  }

  /** DEVICE_FOUND ends up set exactly when it already was or some response
      qualifies. */
  lemma ScanSetsFoundIff(e: Btd, extended: bool, n: nat)
    requires n <= 255
    ensures Check(Scan(e, extended, n, 0).flags, DEVICE_FOUND) <==>
      (Check(e.flags, DEVICE_FOUND) || exists k :: 0 <= k < n && Qualifies(e.pairing, CodAt(e.hcibuf, extended, n, k)))
  {
    if exists k :: 0 <= k < n && Qualifies(e.pairing, CodAt(e.hcibuf, extended, n, k)) {
      var k := FirstQualifying(e.pairing, e.hcibuf, extended, n);
      ScanFindsFirst(e, extended, n, 0, k);
      SetThenCheck(e.flags, DEVICE_FOUND);
    } else {
      ScanFindsNone(e, extended, n, 0);
    }
  }

  /** The least index whose response qualifies, when one does. */
  lemma FirstQualifying(p: Pairing, b: Buffer, extended: bool, n: nat) returns (k: nat)
    requires n <= 255
    requires exists k :: 0 <= k < n && Qualifies(p, CodAt(b, extended, n, k))
    ensures k < n && Qualifies(p, CodAt(b, extended, n, k))
    ensures forall j :: 0 <= j < k ==> !Qualifies(p, CodAt(b, extended, n, j))
  {
    var w :| 0 <= w < n && Qualifies(p, CodAt(b, extended, n, w));
    k := 0;
    while !Qualifies(p, CodAt(b, extended, n, k))
      invariant k <= w
      invariant forall j :: 0 <= j < k ==> !Qualifies(p, CodAt(b, extended, n, j))
      decreases w - k
    {
      k := k + 1;
    }
  }

  /** Both inquiry result events: a response count of zero does nothing. */
  function InquiryResult(e: Btd): (r: Btd)
    ensures e.hcibuf[2] == 0 ==> r == e
    ensures r == e.(flags := r.flags, peer := r.peer, pairing := r.pairing)
  {
    var n := e.hcibuf[2] as nat;
    if n == 0 then e
    else Scan(e, e.hcibuf[0] == EV_EXTENDED_INQUIRY_RESULT, n, 0)
  }

  // ---------------------------------------------------------------------
  // Connect Complete / Disconnection Complete

  /** CONNECT_EVENT is always set; on success the 12-bit handle is stored
      and CONNECT_COMPLETE set, on failure the engine goes back to the
      device check. */
  function ConnectComplete(e: Btd): (r: Btd)
    ensures Check(r.flags, CONNECT_EVENT)
    ensures e.hcibuf[2] == 0 ==>
      && r.peer.hciHandle == DecodeHandle(e.hcibuf[3], e.hcibuf[4])
      && Check(r.flags, CONNECT_COMPLETE) && r.state == e.state
      && r == e.(flags := Set(Set(e.flags, CONNECT_EVENT), CONNECT_COMPLETE),
                 peer := e.peer.(hciHandle := r.peer.hciHandle))
    ensures e.hcibuf[2] != 0 ==>
      && r.peer == e.peer && r.state == CheckDeviceService
      && r.flags == Set(e.flags, CONNECT_EVENT)
      && r == e.(flags := r.flags, state := CheckDeviceService)
  {
    var e1 := e.(flags := Set(e.flags, CONNECT_EVENT));
    SetThenCheck(e.flags, CONNECT_EVENT);
    if e.hcibuf[2] == 0 then
      ConnectFlags(e.flags);
      e1.(peer := e1.peer.(hciHandle := DecodeHandle(e.hcibuf[3], e.hcibuf[4])),
          flags := Set(e1.flags, CONNECT_COMPLETE))
    else e1.(state := CheckDeviceService)
  }

  lemma ConnectFlags(w: FlagWord)
    ensures Check(Set(Set(w, CONNECT_EVENT), CONNECT_COMPLETE), CONNECT_EVENT)
    ensures Check(Set(Set(w, CONNECT_EVENT), CONNECT_COMPLETE), CONNECT_COMPLETE)
  {
  }

  /** A successful disconnection sets DISCONNECT_COMPLETE and clears
      CONNECT_COMPLETE; a failed one changes nothing. */
  function DisconnectComplete(e: Btd): (r: Btd)
    ensures e.hcibuf[2] != 0 ==> r == e
    ensures e.hcibuf[2] == 0 ==>
      && Check(r.flags, DISCONNECT_COMPLETE) && !Check(r.flags, CONNECT_COMPLETE)
      && r.flags == Clear(Set(e.flags, DISCONNECT_COMPLETE), CONNECT_COMPLETE)
    ensures r == e.(flags := r.flags)
  {
    if e.hcibuf[2] == 0 then
      DisconnectFlags(e.flags);
      e.(flags := Clear(Set(e.flags, DISCONNECT_COMPLETE), CONNECT_COMPLETE))
    else e
  }

  lemma DisconnectFlags(w: FlagWord)
    ensures Check(Clear(Set(w, DISCONNECT_COMPLETE), CONNECT_COMPLETE), DISCONNECT_COMPLETE)
    ensures !Check(Clear(Set(w, DISCONNECT_COMPLETE), CONNECT_COMPLETE), CONNECT_COMPLETE)
  {
  }

  // ---------------------------------------------------------------------
  // Remote Name Request Complete

  /** Octet j of the name in the event (offset 9). */
  function NameOctet(b: Buffer, j: nat): byte
    requires j < REMOTE_NAME_SIZE
  {
    b[9 + j]
  }

  /** The copy loop from position i: an octet is copied, and the loop stops
      after copying a zero or after 30 octets. */
  function CopyName(name: RemoteName, b: Buffer, i: nat): (r: RemoteName)
    requires i <= REMOTE_NAME_SIZE
    ensures forall j :: 0 <= j < i ==> r[j] == name[j]
    ensures forall j :: i <= j < REMOTE_NAME_SIZE && r[j] != name[j] ==> r[j] == NameOctet(b, j)
    decreases REMOTE_NAME_SIZE - i
  {
    if i == REMOTE_NAME_SIZE then name
    else
      var n1 := name[i := NameOctet(b, i)];
      if NameOctet(b, i) == 0 then n1 else CopyName(n1, b, i + 1)
  }

  /** What the copy does: positions before i are untouched; every octet up
      to and including the first zero is copied; everything after that zero
      keeps the old name's contents. */
  lemma {:induction false} CopyNameSpec(name: RemoteName, b: Buffer, i: nat)
    requires i <= REMOTE_NAME_SIZE
    ensures var r := CopyName(name, b, i);
      && r[..i] == name[..i]
      && (forall j :: i <= j < REMOTE_NAME_SIZE && (forall m :: i <= m < j ==> NameOctet(b, m) != 0) ==>
            r[j] == NameOctet(b, j))
      && (forall j :: i <= j < REMOTE_NAME_SIZE && (exists m :: i <= m < j && NameOctet(b, m) == 0) ==>
            r[j] == name[j])
    decreases REMOTE_NAME_SIZE - i
  {
    if i < REMOTE_NAME_SIZE {
      var n1 := name[i := NameOctet(b, i)];
      if NameOctet(b, i) != 0 {
        CopyNameSpec(n1, b, i + 1);
        var r := CopyName(name, b, i);
        assert r == CopyName(n1, b, i + 1);
        assert r[..i] == name[..i] by {
          assert r[..i] == r[..i + 1][..i];
          assert n1[..i + 1][..i] == name[..i];
        }
        forall j | i <= j < REMOTE_NAME_SIZE && (exists m :: i <= m < j && NameOctet(b, m) == 0)
          ensures r[j] == name[j]
        {
          var m :| i <= m < j && NameOctet(b, m) == 0;
          assert m != i;
        }
      }
    }
  }

  /** A name of 30 non-zero octets fills the buffer with no terminator. */
  lemma FullNameUnterminated(name: RemoteName, b: Buffer)
    requires forall m :: 0 <= m < REMOTE_NAME_SIZE ==> NameOctet(b, m) != 0
    ensures CopyName(name, b, 0) == b[9..9 + REMOTE_NAME_SIZE]
    ensures NoNul(CopyName(name, b, 0))
  {
    CopyNameSpec(name, b, 0);
    var r := CopyName(name, b, 0);
    forall j | 0 <= j < REMOTE_NAME_SIZE
      ensures r[j] == b[9 + j]
    {
      assert forall m :: 0 <= m < j ==> NameOctet(b, m) != 0;
      assert r[j] == NameOctet(b, j);
    }
    assert r == b[9..9 + REMOTE_NAME_SIZE];
    assert forall j :: 0 <= j < REMOTE_NAME_SIZE ==> r[j] == NameOctet(b, j);
  }

  /** On success the name is copied and REMOTE_NAME_COMPLETE set; a
      non-zero status sets no flag and changes nothing. */
  function RemoteNameComplete(e: Btd): (r: Btd)
    ensures e.hcibuf[2] != 0 ==> r == e
    ensures e.hcibuf[2] == 0 ==>
      && r.peer.remoteName == CopyName(e.peer.remoteName, e.hcibuf, 0)
      && Check(r.flags, REMOTE_NAME_COMPLETE)
      && r.flags == Set(e.flags, REMOTE_NAME_COMPLETE)
    ensures r == e.(flags := r.flags, peer := r.peer)
    ensures r.peer == e.peer.(remoteName := r.peer.remoteName)
  {
    if e.hcibuf[2] == 0 then
      SetThenCheck(e.flags, REMOTE_NAME_COMPLETE);
      e.(peer := e.peer.(remoteName := CopyName(e.peer.remoteName, e.hcibuf, 0)),
         flags := Set(e.flags, REMOTE_NAME_COMPLETE))
    else e
  }

  // ---------------------------------------------------------------------
  // Connection Request

  /** An incoming connection records the peer's address (offset 2) and
      class (offset 8), marks a HID peripheral as an incoming HID device
      and sets INCOMING_REQUEST. */
  function IncomingConnect(e: Btd): (r: Btd)
    ensures r.peer.discBdaddr == e.hcibuf[2..8] && r.peer.classOfDevice == e.hcibuf[8..11]
    ensures r.pairing.incomingHid == (e.pairing.incomingHid || IsHidClass(e.hcibuf[8..11]))
    ensures Check(r.flags, INCOMING_REQUEST) && r.flags == Set(e.flags, INCOMING_REQUEST)
    ensures r == e.(flags := r.flags, peer := r.peer, pairing := r.pairing)
    ensures r.peer == e.peer.(discBdaddr := r.peer.discBdaddr, classOfDevice := r.peer.classOfDevice)
    ensures r.pairing == e.pairing.(incomingHid := r.pairing.incomingHid)
  {
    var b := e.hcibuf;
    var cod: ClassOfDevice := b[8..11];
    var p := if IsHidClass(cod) then e.pairing.(incomingHid := true) else e.pairing;
    SetThenCheck(e.flags, INCOMING_REQUEST);
    e.(peer := e.peer.(discBdaddr := b[2..8], classOfDevice := cod),
       pairing := p,
       flags := Set(e.flags, INCOMING_REQUEST))
  }

  // ---------------------------------------------------------------------
  // Pairing requests

  /** The PIN the host answers with. A Wii controller's PIN is a Bluetooth
      address: the host's own after a SYNC-button pairing, otherwise the
      controller's. Other devices get the configured PIN; with none
      configured the request is refused. */
  function PinReply(e: Btd): (c: HciCmd)
    ensures c.PinCodeReply? || c.PinCodeNegativeReply?
    ensures c.addr == e.peer.discBdaddr
    ensures c.PinCodeReply? <==> e.pairing.pairWithWii || e.host.pin.Some?
    ensures c.PinCodeReply? && e.pairing.pairWithWii ==>
      c.pin == (if e.pairing.pairWiiUsingSync then e.host.myBdaddr else e.peer.discBdaddr)
    ensures c.PinCodeReply? && !e.pairing.pairWithWii ==> c.pin == e.host.pin.value
  {
    if e.pairing.pairWithWii then
      PinCodeReply(e.peer.discBdaddr,
                   if e.pairing.pairWiiUsingSync then e.host.myBdaddr else e.peer.discBdaddr)
    else if e.host.pin.Some? then PinCodeReply(e.peer.discBdaddr, e.host.pin.value)
    else PinCodeNegativeReply(e.peer.discBdaddr)
  }

  /** On the wire a Wii PIN reply carries length 6, the six address octets
      and ten zero octets. */
  lemma WiiPinOnWire(e: Btd)
    requires e.pairing.pairWithWii
    ensures var bytes := Encode(PinReply(e));
      && |bytes| == 26 && bytes[..3] == [0x0D, 0x04, 0x17]
      && bytes[3..9] == e.peer.discBdaddr && bytes[9] == 6
      && bytes[10..16] == (if e.pairing.pairWiiUsingSync then e.host.myBdaddr else e.peer.discBdaddr)
      && (forall i :: 16 <= i < 26 ==> bytes[i] == 0)
  {
    var c := PinReply(e);
    var bytes := Encode(c);
    assert Params(c) == c.addr + [6] + PinField(c.pin);
    assert Octet(23) == 0x17;
    assert bytes[3..9] == Params(c)[..6];
    assert bytes[10..16] == PinField(c.pin)[..6];
  }

  /** The intents after a successful pairing: the Wii device is marked to
      be connected to first, else the HID device, each only once. */
  function PairingSucceeded(p: Pairing): (q: Pairing)
    ensures p.pairWithWii && !p.connectToWii ==> q == p.(connectToWii := true)
    ensures !(p.pairWithWii && !p.connectToWii) && p.pairWithHid && !p.connectToHid ==>
      q == p.(connectToHid := true)
    ensures !(p.pairWithWii && !p.connectToWii) && !(p.pairWithHid && !p.connectToHid) ==> q == p
  {
    if p.pairWithWii && !p.connectToWii then p.(connectToWii := true)
    else if p.pairWithHid && !p.connectToHid then p.(connectToHid := true)
    else p
  }

  /** A failed pairing: disconnect the link and wait for the disconnection. */
  function PairingFailed(e: Btd): (r: Sent)
    ensures r.out == [Vhci.Frame(Vhci.HCI_COMMAND_PACKET, Encode(Disconnect(e.peer.hciHandle)))]
    ensures r.btd.flags == FlagsAfterIssue(e.flags, DISCONNECT_COMPLETE)
    ensures r.btd == e.(state := DisconnectState, flags := r.btd.flags, hcibuf := r.btd.hcibuf)
  {
    var c := Disconnect(e.peer.hciHandle);
    assert Consumes(c) == DISCONNECT_COMPLETE;
    var s := Issue(e, c);
    Sent(s.btd.(state := DisconnectState), s.out)
  }

  /** Pairing outcome: success marks the device to connect to (Wii first,
      then HID, each only once); failure disconnects the link and waits for
      the disconnection. */
  function AuthenticationComplete(e: Btd): (r: Sent)
    ensures e.hcibuf[2] == 0 ==> r.out == []
    ensures e.hcibuf[2] == 0 && e.pairing.pairWithWii && !e.pairing.connectToWii ==>
      r.btd == e.(pairing := e.pairing.(connectToWii := true))
    ensures e.hcibuf[2] == 0 && !(e.pairing.pairWithWii && !e.pairing.connectToWii)
              && e.pairing.pairWithHid && !e.pairing.connectToHid ==>
      r.btd == e.(pairing := e.pairing.(connectToHid := true))
    ensures e.hcibuf[2] == 0 && !(e.pairing.pairWithWii && !e.pairing.connectToWii)
              && !(e.pairing.pairWithHid && !e.pairing.connectToHid) ==>
      r.btd == e
    ensures e.hcibuf[2] != 0 ==>
      && r.out == [Vhci.Frame(Vhci.HCI_COMMAND_PACKET, Encode(Disconnect(e.peer.hciHandle)))]
      && r.btd.state == DisconnectState
      && !Check(r.btd.flags, DISCONNECT_COMPLETE)
      && r.btd.flags == FlagsAfterIssue(e.flags, DISCONNECT_COMPLETE)
      && r.btd == e.(state := DisconnectState, flags := r.btd.flags, hcibuf := r.btd.hcibuf)
  {
    if e.hcibuf[2] == 0 then Quiet(e.(pairing := PairingSucceeded(e.pairing)))
    else PairingFailed(e)
  }

  // ---------------------------------------------------------------------
  // The dispatcher

  /** The engine's record fields no event touches. */
  predicate KeepsTaskFields(e: Btd, r: Btd) {
    && r.services == e.services && r.l2capinbuf == e.l2capinbuf && r.claims == e.claims
    && r.counter == e.counter && r.numResetLoops == e.numResetLoops
    && r.waitingForConnection == e.waitingForConnection && r.pollEnabled == e.pollEnabled
  }

  /** The requests the host always answers with one command. */
  const REPLY_EVENTS: set<byte> := {
    EV_PIN_CODE_REQUEST, EV_LINK_KEY_REQUEST, EV_IO_CAPABILITY_REQUEST, EV_USER_CONFIRMATION_REQUEST }

  /** The arms of the switch that only record what the event says. Command
      Status, IO Capability Response, Simple Pairing Complete and every
      event without an arm of its own are only logged. */
  function Record(e: Btd): (r: Btd)
    ensures KeepsTaskFields(e, r)
  {
    var code := e.hcibuf[0];
    if code == EV_COMMAND_COMPLETE then CommandComplete(e)
    else if code == EV_INQUIRY_COMPLETE then InquiryComplete(e)
    else if code == EV_INQUIRY_RESULT || code == EV_EXTENDED_INQUIRY_RESULT then InquiryResult(e)
    else if code == EV_CONNECT_COMPLETE then ConnectComplete(e)
    else if code == EV_DISCONNECT_COMPLETE then DisconnectComplete(e)
    else if code == EV_REMOTE_NAME_COMPLETE then RemoteNameComplete(e)
    else if code == EV_INCOMING_CONNECT then IncomingConnect(e)
    else e
  }

  /** The arms of the switch that answer the controller. */
  function Reply(e: Btd): (r: Sent)
    requires e.hcibuf[0] in REPLY_EVENTS
    ensures |r.out| == 1 && |r.out[0]| > 0 && r.out[0][0] == Vhci.HCI_COMMAND_PACKET
    ensures KeepsTaskFields(e, r.btd)
  {
    var code := e.hcibuf[0];
    var disc := e.peer.discBdaddr;
    if code == EV_PIN_CODE_REQUEST then Issue(e, PinReply(e))
    else if code == EV_LINK_KEY_REQUEST then Issue(e, LinkKeyNegativeReply(disc))
    else if code == EV_IO_CAPABILITY_REQUEST then Issue(e, IoCapabilityReply(disc))
    else Issue(e, UserConfirmationReply(disc))
  }

  /** The switch on the event code of the packet now in `hcibuf`: a request
      is answered, Authentication Complete may disconnect, and every other
      event only updates the record. No event touches the services, the
      ACL buffer or the state machine's counters. */
  function Dispatch(e: Btd): (r: Sent)
    ensures |r.out| <= 1
    ensures KeepsTaskFields(e, r.btd)
    ensures forall k :: 0 <= k < |r.out| ==> |r.out[k]| > 0 && r.out[k][0] == Vhci.HCI_COMMAND_PACKET
  {
    var code := e.hcibuf[0];
    if code in REPLY_EVENTS then Reply(e)
    else if code == EV_AUTHENTICATION_COMPLETE then AuthenticationComplete(e)
    else Quiet(Record(e))
  }

  /** `HCI_event_task(packet, size)`: an empty packet (the `NULL, 0` of an
      empty queue) does nothing; otherwise the packet is copied over the
      start of `hcibuf` and dispatched. */
  function EventTask(e: Btd, packet: seq<byte>): (r: Sent)
    requires |packet| <= BUFFER_SIZE
    ensures |packet| == 0 ==> r == Sent(e, [])
    ensures |r.out| <= 1
    ensures KeepsTaskFields(e, r.btd)
    ensures forall k :: 0 <= k < |r.out| ==> |r.out[k]| > 0 && r.out[k][0] == Vhci.HCI_COMMAND_PACKET
  {
    if |packet| == 0 then Quiet(e)
    else Dispatch(e.(hcibuf := Overlay(e.hcibuf, packet)))
  }

  /** The event packet a controller sends when a connection with handle h
      completes successfully (status 0, handle, address, link type,
      encryption). */
  function ConnectCompleteEvent(h: u16, addr: BdAddr): seq<byte> {
    [EV_CONNECT_COMPLETE, 11, 0x00, HandleLo(h), HandleHi(h)] + addr + [0x01, 0x00]
  }

  /** Connect Complete stores the handle the controller assigned, for every
      12-bit handle, and the link counts as complete. */
  lemma ConnectCompleteStoresHandle(e: Btd, h: u16, addr: BdAddr)
    requires h < 0x1000
    ensures var r := EventTask(e, ConnectCompleteEvent(h, addr));
      && r.btd.peer.hciHandle == h
      && Check(r.btd.flags, CONNECT_COMPLETE) && Check(r.btd.flags, CONNECT_EVENT)
      && r.out == []
  {
    var p := ConnectCompleteEvent(h, addr);
    var e1 := e.(hcibuf := Overlay(e.hcibuf, p));
    assert e1.hcibuf[0] == EV_CONNECT_COMPLETE && e1.hcibuf[2] == 0;
    assert e1.hcibuf[3] == HandleLo(h) && e1.hcibuf[4] == HandleHi(h);
    HandleRoundTrip(h);
  }

  // ---------------------------------------------------------------------
  // Events through the task

  /** The event codes the dispatcher acts on; every other event, Command
      Status, IO Capability Response and Simple Pairing Complete included,
      is only logged. */
  const HANDLED_EVENTS: set<byte> := {
    EV_COMMAND_COMPLETE, EV_INQUIRY_COMPLETE, EV_INQUIRY_RESULT, EV_EXTENDED_INQUIRY_RESULT,
    EV_CONNECT_COMPLETE, EV_DISCONNECT_COMPLETE, EV_REMOTE_NAME_COMPLETE, EV_INCOMING_CONNECT,
    EV_PIN_CODE_REQUEST, EV_LINK_KEY_REQUEST, EV_AUTHENTICATION_COMPLETE,
    EV_IO_CAPABILITY_REQUEST, EV_USER_CONFIRMATION_REQUEST }

  /** An event the dispatcher does not act on leaves its octets in `hcibuf`
      and changes nothing else. */
  lemma LoggedEventsChangeNothing(e: Btd, packet: seq<byte>)
    requires 0 < |packet| <= BUFFER_SIZE && packet[0] !in HANDLED_EVENTS
    ensures EventTask(e, packet) == Sent(e.(hcibuf := Overlay(e.hcibuf, packet)), [])
    ensures EV_COMMAND_STATUS !in HANDLED_EVENTS && EV_IO_CAPABILITY_RESPONSE !in HANDLED_EVENTS
    ensures EV_SIMPLE_PAIRING_COMPLETE !in HANDLED_EVENTS
  {
    assert Overlay(e.hcibuf, packet)[0] == packet[0];
  }

  /** A Link Key Request is refused: no stored key is offered, so the peer
      has to pair. The reply names the discovered device. */
  lemma LinkKeyRequestRefused(e: Btd, packet: seq<byte>)
    requires 0 < |packet| <= BUFFER_SIZE && packet[0] == EV_LINK_KEY_REQUEST
    ensures EventTask(e, packet).out ==
      [Vhci.Frame(Vhci.HCI_COMMAND_PACKET, [0x0C, 0x04, 0x06] + e.peer.discBdaddr)]
    ensures EventTask(e, packet).btd.flags == FlagsAfterIssue(e.flags, 0)
    ensures EventTask(e, packet).btd == e.(flags := EventTask(e, packet).btd.flags,
                                           hcibuf := EventTask(e, packet).btd.hcibuf)
  {
    var e1 := e.(hcibuf := Overlay(e.hcibuf, packet));
    assert e1.hcibuf[0] == EV_LINK_KEY_REQUEST;
    assert Octet(6) == 6;
    assert Consumes(LinkKeyNegativeReply(e.peer.discBdaddr)) == 0;
  }

  /** An IO Capability Request is answered with NoInputNoOutput, no
      out-of-band data and no man-in-the-middle protection. */
  lemma IoCapabilityRequestAnswered(e: Btd, packet: seq<byte>)
    requires 0 < |packet| <= BUFFER_SIZE && packet[0] == EV_IO_CAPABILITY_REQUEST
    ensures EventTask(e, packet).out ==
      [Vhci.Frame(Vhci.HCI_COMMAND_PACKET, [0x2B, 0x04, 0x09] + e.peer.discBdaddr + [0x03, 0x00, 0x00])]
    ensures EventTask(e, packet).btd.flags == FlagsAfterIssue(e.flags, 0)
    ensures EventTask(e, packet).btd == e.(flags := EventTask(e, packet).btd.flags,
                                           hcibuf := EventTask(e, packet).btd.hcibuf)
  {
    var e1 := e.(hcibuf := Overlay(e.hcibuf, packet));
    var d := e.peer.discBdaddr;
    assert e1.hcibuf[0] == EV_IO_CAPABILITY_REQUEST;
    assert Octet(9) == 9;
    assert Encode(IoCapabilityReply(d)) == [0x2B, 0x04, 0x09] + d + [0x03, 0x00, 0x00];
    assert Consumes(IoCapabilityReply(e.peer.discBdaddr)) == 0;
  }

  /** A User Confirmation Request is confirmed without asking anyone. */
  lemma UserConfirmationAccepted(e: Btd, packet: seq<byte>)
    requires 0 < |packet| <= BUFFER_SIZE && packet[0] == EV_USER_CONFIRMATION_REQUEST
    ensures EventTask(e, packet).out ==
      [Vhci.Frame(Vhci.HCI_COMMAND_PACKET, [0x2C, 0x04, 0x06] + e.peer.discBdaddr)]
    ensures EventTask(e, packet).btd.flags == FlagsAfterIssue(e.flags, 0)
    ensures EventTask(e, packet).btd == e.(flags := EventTask(e, packet).btd.flags,
                                           hcibuf := EventTask(e, packet).btd.hcibuf)
  {
    var e1 := e.(hcibuf := Overlay(e.hcibuf, packet));
    assert e1.hcibuf[0] == EV_USER_CONFIRMATION_REQUEST;
    assert Octet(6) == 6;
    assert Consumes(UserConfirmationReply(e.peer.discBdaddr)) == 0;
  }

  /** A PIN Code Request gets the PIN reply the pairing intent and the
      configured PIN select; with neither a Wii pairing nor a PIN it is
      refused with a negative reply naming the discovered device. */
  lemma PinCodeRequestAnswered(e: Btd, packet: seq<byte>)
    requires 0 < |packet| <= BUFFER_SIZE && packet[0] == EV_PIN_CODE_REQUEST
    ensures EventTask(e, packet).out == [Vhci.Frame(Vhci.HCI_COMMAND_PACKET, Encode(PinReply(e)))]
    ensures !e.pairing.pairWithWii && e.host.pin.None? ==>
      EventTask(e, packet).out == [Vhci.Frame(Vhci.HCI_COMMAND_PACKET, [0x0E, 0x04, 0x06] + e.peer.discBdaddr)]
    ensures EventTask(e, packet).btd.flags == FlagsAfterIssue(e.flags, 0)
  {
    var e1 := e.(hcibuf := Overlay(e.hcibuf, packet));
    assert e1.hcibuf[0] == EV_PIN_CODE_REQUEST;
    assert PinReply(e1) == PinReply(e);
    assert Octet(6) == 6;
    assert Consumes(PinReply(e)) == 0;
  }
}

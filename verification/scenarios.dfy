/** Short runs of the engine: a controller event through `HCI_event_task`
    followed by the `HCI_task` steps it enables. Each lemma ties an event
    handler to the transition of the state machine that reads the flag or
    field the handler wrote. */
module Scenarios {
  import opened Bytes
  import opened HciFlags
  import opened HciCommands
  import opened BtdEngine
  import opened HciEvents
  import opened HciTask
  import Vhci

  /** The Connection Request event for a peer at `addr` with class `cod`
      (link type ACL). */
  function IncomingConnectEvent(addr: BdAddr, cod: ClassOfDevice): seq<byte> {
    [EV_INCOMING_CONNECT, 10] + addr + cod + [0x01]
  }

  /** The Disconnection Complete event for handle h (status 0, reason
      "remote user terminated connection"). */
  function DisconnectCompleteEvent(h: u16): seq<byte> {
    [EV_DISCONNECT_COMPLETE, 4, 0x00, HandleLo(h), HandleHi(h), 0x13]
  }

  /** An incoming request is recorded, and the next step answers it. */
  lemma IncomingRequestRecorded(e: Btd, addr: BdAddr, cod: ClassOfDevice)
    ensures var r := EventTask(e, IncomingConnectEvent(addr, cod));
      && r.out == [] && r.btd.state == e.state
      && r.btd.peer.discBdaddr == addr && r.btd.peer.classOfDevice == cod
      && r.btd.peer.savedBdaddr == e.peer.savedBdaddr
      && Check(r.btd.flags, INCOMING_REQUEST)
  {
    var p := IncomingConnectEvent(addr, cod);
    var e1 := e.(hcibuf := Overlay(e.hcibuf, p));
    assert e1.hcibuf[0] == EV_INCOMING_CONNECT;
    assert e1.hcibuf[2..8] == addr && e1.hcibuf[8..11] == cod by {
      assert e1.hcibuf[..|p|] == p;
    }
    assert EventTask(e, p) == Sent(IncomingConnect(e1), []);
  }

  /** Reconnection: while listening, a Connection Request from the saved
      peer is accepted on the next step, with no name request. */
  lemma ReconnectToSavedPeer(e: Btd, cod: ClassOfDevice)
    requires e.state == ConnectInState
    ensures var r := EventTask(e, IncomingConnectEvent(e.peer.savedBdaddr, cod));
      var s := Step(r.btd);
      && s.btd.state == ConnectedState
      && s.out == [Vhci.Frame(Vhci.HCI_COMMAND_PACKET, Encode(AcceptConnection(e.peer.savedBdaddr)))]
      && !s.btd.waitingForConnection
  {
    IncomingRequestRecorded(e, e.peer.savedBdaddr, cod);
    var r := EventTask(e, IncomingConnectEvent(e.peer.savedBdaddr, cod));
    assert Step(r.btd) == ConnectInStep(r.btd);
  }

  /** A Connection Request from any other peer makes the next step ask for
      its name before deciding. */
  lemma UnknownPeerNameRequested(e: Btd, addr: BdAddr, cod: ClassOfDevice)
    requires e.state == ConnectInState && addr != e.peer.savedBdaddr
    ensures var r := EventTask(e, IncomingConnectEvent(addr, cod));
      var s := Step(r.btd);
      && s.btd.state == RemoteNameState
      && s.out == [Vhci.Frame(Vhci.HCI_COMMAND_PACKET, Encode(RemoteNameRequest(addr)))]
  {
    IncomingRequestRecorded(e, addr, cod);
    var r := EventTask(e, IncomingConnectEvent(addr, cod));
    assert Step(r.btd) == ConnectInStep(r.btd);
  }

  /** The Command Complete of Read BD_ADDR stores the controller's address,
      and the next step reads the local version. */
  lemma ReadBdAddrCompletes(e: Btd, addr: BdAddr)
    requires e.state == BdAddrState
    ensures var r := EventTask(e, [EV_COMMAND_COMPLETE, 0x0A, 0x01, 0x09, 0x10, 0x00] + addr);
      var s := Step(r.btd);
      && r.out == [] && r.btd.host.myBdaddr == addr
      && s.btd.state == LocalVersionState
      && s.out == [Vhci.Frame(Vhci.HCI_COMMAND_PACKET, [0x01, 0x10, 0x00])]
  {
    var p := [EV_COMMAND_COMPLETE, 0x0A, 0x01, 0x09, 0x10, 0x00] + addr;
    var e1 := e.(hcibuf := Overlay(e.hcibuf, p));
    assert e1.hcibuf[0] == EV_COMMAND_COMPLETE && e1.hcibuf[3] == 0x09 && e1.hcibuf[4] == 0x10;
    assert e1.hcibuf[5] == 0;
    assert e1.hcibuf[6..12] == addr by {
      assert e1.hcibuf[..|p|] == p;
    }
    assert EventTask(e, p) == Sent(CommandComplete(e1), []);
    BdAddrAdvances(CommandComplete(e1));
  }

  /** A Disconnection Complete with status 0 is recorded: the link no
      longer counts as complete, nothing is sent and the state is kept. */
  lemma DisconnectionRecorded(e: Btd, h: u16)
    ensures var r := EventTask(e, DisconnectCompleteEvent(h));
      && r.out == [] && r.btd.state == e.state && r.btd.pairing == e.pairing
      && Check(r.btd.flags, DISCONNECT_COMPLETE) && !Check(r.btd.flags, CONNECT_COMPLETE)
      && Check(r.btd.flags, INCOMING_REQUEST) == Check(e.flags, INCOMING_REQUEST)
  {
    var p := DisconnectCompleteEvent(h);
    var e1 := e.(hcibuf := Overlay(e.hcibuf, p));
    assert e1.hcibuf[0] == EV_DISCONNECT_COMPLETE && e1.hcibuf[2] == 0;
    assert EventTask(e, p) == Sent(DisconnectComplete(e1), []);
    ClearKeeps(Set(e.flags, DISCONNECT_COMPLETE), CONNECT_COMPLETE, INCOMING_REQUEST);
    SetOther(e.flags, DISCONNECT_COMPLETE, INCOMING_REQUEST);
  }

  /** The remote side drops the link while the engine listens: the next
      step enters DISCONNECT, and the one after clears every flag and scans
      again. */
  lemma DisconnectionReturnsToScanning(e: Btd, h: u16)
    requires e.state == ConnectInState && !Check(e.flags, INCOMING_REQUEST)
    ensures var r := EventTask(e, DisconnectCompleteEvent(h));
      var s := Step(r.btd);
      var t := Step(s.btd);
      && r.out == [] && s.out == [] && t.out == []
      && s.btd.state == DisconnectState
      && t.btd.state == ScanningState && t.btd.flags == 0
  {
    DisconnectionRecorded(e, h);
    var d := EventTask(e, DisconnectCompleteEvent(h)).btd;
    assert Step(d) == ConnectInStep(d);
    assert Step(d.(state := DisconnectState)) == DisconnectStep(d.(state := DisconnectState));
  }

  /** A failed authentication sends Disconnect for the link and waits in
      DISCONNECT. */
  lemma FailedPairingDisconnects(e: Btd, status: byte)
    requires status != 0
    ensures var r := EventTask(e, [EV_AUTHENTICATION_COMPLETE, 3, status,
                                   HandleLo(e.peer.hciHandle), HandleHi(e.peer.hciHandle)]);
      && r.out == [Vhci.Frame(Vhci.HCI_COMMAND_PACKET, Encode(Disconnect(e.peer.hciHandle)))]
      && r.btd.state == DisconnectState && r.btd.pairing == e.pairing
  {
    var h := e.peer.hciHandle;
    var p := [EV_AUTHENTICATION_COMPLETE, 3, status, HandleLo(h), HandleHi(h)];
    var e1 := e.(hcibuf := Overlay(e.hcibuf, p));
    assert e1.hcibuf[0] == EV_AUTHENTICATION_COMPLETE && e1.hcibuf[2] == status;
    assert EventTask(e, p) == AuthenticationComplete(e1);
  }

  /** After a failed authentication, the Disconnection Complete that follows
      and one step bring the engine back to scanning with every intent
      dropped. */
  lemma FailedPairingEndsInScanning(e: Btd, status: byte)
    requires status != 0
    ensures var r := EventTask(e, [EV_AUTHENTICATION_COMPLETE, 3, status,
                                   HandleLo(e.peer.hciHandle), HandleHi(e.peer.hciHandle)]);
      var d := EventTask(r.btd, DisconnectCompleteEvent(e.peer.hciHandle));
      var s := Step(d.btd);
      && d.out == []
      && s.btd.state == ScanningState && s.btd.flags == 0 && s.out == []
      && Idle(s.btd.pairing)
  {
    FailedPairingDisconnects(e, status);
    var h := e.peer.hciHandle;
    var r := EventTask(e, [EV_AUTHENTICATION_COMPLETE, 3, status, HandleLo(h), HandleHi(h)]);
    DisconnectionRecorded(r.btd, h);
    var d := EventTask(r.btd, DisconnectCompleteEvent(h)).btd;
    assert Step(d) == DisconnectStep(d);
  }

  /** Giving up on an inquiry: after five unanswered inquiries the next
      Inquiry Complete drops the pairing intent and enters SCANNING, whose
      step then makes the controller connectable. */
  lemma InquiryGivesUp(e: Btd)
    requires e.state == InquiryState && e.inquiryCounter >= 5
    requires e.pairing.pairWithHid || e.pairing.pairWithWii
    ensures var r := EventTask(e, [EV_INQUIRY_COMPLETE, 1, 0x00]);
      var s := Step(r.btd);
      && r.out == [] && r.btd.state == ScanningState
      && s.btd.state == ConnectInState && s.btd.waitingForConnection
      && s.out == [Vhci.Frame(Vhci.HCI_COMMAND_PACKET, Encode(WriteScanEnable(e.host.name.Some?)))]
  {
    var p: seq<byte> := [EV_INQUIRY_COMPLETE, 1, 0x00];
    var e1 := e.(hcibuf := Overlay(e.hcibuf, p));
    assert e1.hcibuf[0] == EV_INQUIRY_COMPLETE;
    assert EventTask(e, p) == Sent(InquiryComplete(e1), []);
    var i := InquiryComplete(e1);
    assert Idle(i.pairing);
    assert Step(i) == PairStep(i);
  }

  /** A failed Connect Complete while connecting to a found device leads
      back to the device check, whose step starts a fresh inquiry: the
      retry of Create Connection in CONNECTED_DEVICE is not what follows a
      refused connection. */
  lemma FailedConnectStartsNewInquiry(e: Btd, status: byte, addr: BdAddr)
    requires e.state == ConnectedDeviceState && status != 0
    requires e.pairing.pairWithHid || e.pairing.pairWithWii
    ensures var r := EventTask(e, [EV_CONNECT_COMPLETE, 11, status, 0, 0] + addr + [0x01, 0x00]);
      var s := Step(r.btd);
      && r.out == [] && r.btd.state == CheckDeviceService
      && s.btd.state == InquiryState
      && s.out == [Vhci.Frame(Vhci.HCI_COMMAND_PACKET, Encode(Inquiry))]
  {
    var p := [EV_CONNECT_COMPLETE, 11, status, 0, 0] + addr + [0x01, 0x00];
    var e1 := e.(hcibuf := Overlay(e.hcibuf, p));
    assert e1.hcibuf[0] == EV_CONNECT_COMPLETE && e1.hcibuf[2] == status;
    assert EventTask(e, p) == Sent(ConnectComplete(e1), []);
    var c := ConnectComplete(e1);
    assert Step(c) == PairStep(c);
  }
}

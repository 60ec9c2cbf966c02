/** `HCI_task`: one step of the HCI state machine. Most states wait for an
    event flag that `HCI_event_task` sets, then send the next command of the
    bring-up, pairing or connection sequence and move on. */
module HciTask {
  import opened Bytes
  import opened Wrappers
  import opened HciFlags
  import opened HciCommands
  import opened BtdEngine
  import Services
  import Vhci

  /** The 16-bit loop counter's increment. */
  function Tick(c: u16): (r: u16)
    ensures r as int == (c as int + 1) % 0x10000
  {
    (c + 1) % 0x10000
  }

  /** Idle passes in the done state before scanning again. */
  const DONE_LOOPS: nat := 1000

  /** Upper bound of the reset backoff. */
  const MAX_RESET_LOOPS: nat := 2000

  /** `hci_num_reset_loops *= 10`, capped at 2000 (the product is a 16-bit
      value). */
  function Backoff(loops: u16): (r: u16)
    ensures r <= MAX_RESET_LOOPS
    ensures loops == 100 ==> r == 1000
    ensures loops == 1000 || loops == 2000 ==> r == 2000
  {
    var x := (loops * 10) % 0x10000;
    if x > MAX_RESET_LOOPS then MAX_RESET_LOOPS else x
  }

  /** What every step of the machine keeps: the service table is not
      touched, and at most two frames go out, each an HCI command. */
  predicate TaskFrame(e: Btd, r: Sent) {
    && r.btd.services == e.services
    && |r.out| <= 2
    && forall k :: 0 <= k < |r.out| ==> |r.out[k]| > 0 && r.out[k][0] == Vhci.HCI_COMMAND_PACKET
  }

  /** Send `c`, then enter `s`. */
  function Go(e: Btd, s: HciState, c: HciCmd): (r: Sent)
    ensures r.btd.state == s
    ensures r.out == [Vhci.Frame(Vhci.HCI_COMMAND_PACKET, Encode(c))]
    ensures r.btd.flags == FlagsAfterIssue(e.flags, Consumes(c))
    ensures r.btd == e.(state := s, flags := r.btd.flags, hcibuf := r.btd.hcibuf)
    ensures TaskFrame(e, r)
  {
    var t := Issue(e, c);
    Sent(t.btd.(state := s), t.out)
  }

  /** Move to `s` without sending anything. */
  function Enter(e: Btd, s: HciState): (r: Sent)
    ensures r.out == [] && r.btd == e.(state := s)
    ensures TaskFrame(e, r)
  {
    Sent(e.(state := s), [])
  }

  // ---------------------------------------------------------------------
  // Bring-up

  /** INIT: count idle passes; once the count exceeds the loop limit, reset
      the controller (clearing every flag) and wait for it. */
  function InitStep(e: Btd): (r: Sent)
    requires e.state == InitState
    ensures r.btd.state == ResetState <==> Tick(e.counter) > e.numResetLoops
    ensures r.btd.state == ResetState ==>
      && r.out == [Vhci.Frame(Vhci.HCI_COMMAND_PACKET, [0x03, 0x0C, 0x00])]
      && r.btd.flags == 0 && r.btd.counter == 0
    ensures r.btd.state != ResetState ==>
      r.out == [] && r.btd == e.(counter := Tick(e.counter))
    ensures r.btd.numResetLoops == e.numResetLoops
    ensures TaskFrame(e, r)
  {
    var c := Tick(e.counter);
    if c > e.numResetLoops then
      ResetEncoding();
      ResetClearsAllFlags(e.flags);
      Go(e.(counter := 0), ResetState, Reset)
    else Sent(e.(counter := c), [])
  }

  /** RESET: the controller's Command Complete moves on to writing the class
      of device; without it, once the count exceeds the limit, the limit is
      multiplied by ten (at most 2000) and the engine goes back to INIT. */
  function ResetStep(e: Btd): (r: Sent)
    requires e.state == ResetState
    ensures Check(e.flags, CMD_COMPLETE) ==>
      && r.btd.state == ClassState && r.btd.counter == 0
      && r.out == [Vhci.Frame(Vhci.HCI_COMMAND_PACKET, [0x24, 0x0C, 0x03, 0x04, 0x08, 0x00])]
      && r.btd.numResetLoops == e.numResetLoops
    ensures !Check(e.flags, CMD_COMPLETE) && Tick(e.counter) > e.numResetLoops ==>
      && r.btd == e.(state := InitState, counter := 0, numResetLoops := Backoff(e.numResetLoops))
      && r.out == []
    ensures !Check(e.flags, CMD_COMPLETE) && Tick(e.counter) <= e.numResetLoops ==>
      r == Sent(e.(counter := Tick(e.counter)), [])
    ensures TaskFrame(e, r)
  {
    var c := Tick(e.counter);
    if Check(e.flags, CMD_COMPLETE) then
      WriteClassOfDeviceEncoding();
      Go(e.(counter := 0), ClassState, WriteClassOfDevice)
    else if c > e.numResetLoops then
      Sent(e.(numResetLoops := Backoff(e.numResetLoops), state := InitState, counter := 0), [])
    else Sent(e.(counter := c), [])
  }

  /** After the local version is known: write the configured name, else
      read the features if simple pairing is wanted, else go to the device
      check. */
  function AfterVersion(e: Btd): (r: Sent)
    ensures e.host.name.Some? ==> r == Go(e, WriteNameState, WriteLocalName(e.host.name.value))
    ensures e.host.name.None? && e.host.useSimplePairing ==>
      r == Go(e, LocalExtendedFeaturesState, ReadLocalExtendedFeatures(0))
    ensures e.host.name.None? && !e.host.useSimplePairing ==> r == Enter(e, CheckDeviceService)
    ensures TaskFrame(e, r)
  {
    if e.host.name.Some? then Go(e, WriteNameState, WriteLocalName(e.host.name.value))
    else AfterName(e)
  }

  /** After the name is written: read the features if simple pairing is
      wanted, else go to the device check. */
  function AfterName(e: Btd): (r: Sent)
    ensures e.host.useSimplePairing ==> r == Go(e, LocalExtendedFeaturesState, ReadLocalExtendedFeatures(0))
    ensures !e.host.useSimplePairing ==> r == Enter(e, CheckDeviceService)
    ensures TaskFrame(e, r)
  {
    if e.host.useSimplePairing then Go(e, LocalExtendedFeaturesState, ReadLocalExtendedFeatures(0))
    else Enter(e, CheckDeviceService)
  }

  // ---------------------------------------------------------------------
  // Remote name classification

  /** `strncmp(a, s, n) == 0`: the first n octets agree, or they agree up to
      and including a zero octet. */
  function StrnEqual(a: seq<byte>, s: seq<byte>, n: nat): bool
    requires n <= |a| && n <= |s|
    decreases n
  {
    if n == 0 then true
    else if a[0] != s[0] then false
    else if a[0] == 0 then true
    else StrnEqual(a[1..], s[1..], n - 1)
  }

  /** Against a literal without zero octets, the comparison is plain
      equality of the first n octets. */
  lemma {:induction false} StrnEqualIsPrefix(a: seq<byte>, s: seq<byte>, n: nat)
    requires n <= |a| && n <= |s| && NoNul(s[..n])
    ensures StrnEqual(a, s, n) <==> a[..n] == s[..n]
    decreases n
  {
    if n > 0 {
      assert s[0] == s[..n][0];
      if a[0] == s[0] {
        assert s[1..][..n - 1] == s[..n][1..];
        StrnEqualIsPrefix(a[1..], s[1..], n - 1);
        assert a[..n] == [a[0]] + a[1..][..n - 1];
        assert s[..n] == [s[0]] + s[1..][..n - 1];
      } else {
        assert a[..n][0] != s[..n][0];
      }
    }
  }

  const NINTENDO: seq<byte> := Ascii("Nintendo")
  const WIIMOTE_PLUS: seq<byte> := Ascii("Nintendo RVL-CNT-01-TR")
  const WII_U_PRO: seq<byte> := Ascii("Nintendo RVL-CNT-01-UC")
  const BALANCE_BOARD: seq<byte> := Ascii("Nintendo RVL-WBC-01")
  const PS_CONTROLLER: seq<byte> := Ascii("Wireless Controller")

  /** The class of device of a PlayStation 4/5 controller. */
  const PS_CLASS: ClassOfDevice := [0x08, 0x25, 0x00]

  lemma LiteralsHaveNoNul()
    ensures |NINTENDO| == 8 && NoNul(NINTENDO)
    ensures |WIIMOTE_PLUS| == 22 && NoNul(WIIMOTE_PLUS)
    ensures |WII_U_PRO| == 22 && NoNul(WII_U_PRO)
    ensures |BALANCE_BOARD| == 19 && NoNul(BALANCE_BOARD)
    ensures |PS_CONTROLLER| == 19 && NoNul(PS_CONTROLLER)
  {
  }

  /** The name-based classification of the REMOTE_NAME state. A name
      starting with "Nintendo" is an incoming Wii device whose model flags
      are recomputed from the rest of the name; a "Wireless Controller"
      with the PlayStation class is a PS controller. */
  function ClassifyName(p: Pairing, name: RemoteName, cod: ClassOfDevice): (q: Pairing)
    ensures name[..8] == NINTENDO ==>
      && q.incomingWii
      && q.motionPlusInside == (name[..22] == WIIMOTE_PLUS || name[..22] == WII_U_PRO)
      && q.wiiUProController == (name[..22] == WII_U_PRO)
      && q.pairWiiUsingSync == (name[..22] == WII_U_PRO || name[..19] == BALANCE_BOARD)
    ensures name[..8] != NINTENDO ==>
      && q.incomingWii == p.incomingWii && q.motionPlusInside == p.motionPlusInside
      && q.wiiUProController == p.wiiUProController && q.pairWiiUsingSync == p.pairWiiUsingSync
    ensures q.incomingPsController == (p.incomingPsController || (cod == PS_CLASS && name[..19] == PS_CONTROLLER))
    ensures q == p.(incomingWii := q.incomingWii, motionPlusInside := q.motionPlusInside,
                    wiiUProController := q.wiiUProController, pairWiiUsingSync := q.pairWiiUsingSync,
                    incomingPsController := q.incomingPsController)
  {
    LiteralsHaveNoNul();
    StrnEqualIsPrefix(name, NINTENDO, 8);
    StrnEqualIsPrefix(name, WIIMOTE_PLUS, 22);
    StrnEqualIsPrefix(name, WII_U_PRO, 22);
    StrnEqualIsPrefix(name, BALANCE_BOARD, 19);
    StrnEqualIsPrefix(name, PS_CONTROLLER, 19);
    assert NINTENDO[..8] == NINTENDO && PS_CONTROLLER[..19] == PS_CONTROLLER;
    assert WIIMOTE_PLUS[..22] == WIIMOTE_PLUS && WII_U_PRO[..22] == WII_U_PRO;
    assert BALANCE_BOARD[..19] == BALANCE_BOARD;
    ModelNamesExclusive(name);
    var p1 :=
      if StrnEqual(name, NINTENDO, 8) then
        var base := p.(incomingWii := true, motionPlusInside := false,
                       wiiUProController := false, pairWiiUsingSync := false);
        if StrnEqual(name, WIIMOTE_PLUS, 22) then base.(motionPlusInside := true)
        else if StrnEqual(name, WII_U_PRO, 22) then
          base.(wiiUProController := true, motionPlusInside := true, pairWiiUsingSync := true)
        else if StrnEqual(name, BALANCE_BOARD, 19) then base.(pairWiiUsingSync := true)
        else base
      else p;
    if cod == PS_CLASS && StrnEqual(name, PS_CONTROLLER, 19) then p1.(incomingPsController := true)
    else p1
  }

  /** The three Wii model names exclude each other, so the order of the
      tests does not matter. */
  lemma ModelNamesExclusive(name: RemoteName)
    ensures !(name[..22] == WIIMOTE_PLUS && name[..22] == WII_U_PRO)
    ensures name[..22] == WIIMOTE_PLUS || name[..22] == WII_U_PRO ==> name[..19] != BALANCE_BOARD
    ensures name[..22] == WIIMOTE_PLUS || name[..22] == WII_U_PRO || name[..19] == BALANCE_BOARD ==>
              name[..8] == NINTENDO
  {
    if name[..22] == WIIMOTE_PLUS {
      assert name[20] == WIIMOTE_PLUS[20] != WII_U_PRO[20];
      assert name[13] == WIIMOTE_PLUS[13] != BALANCE_BOARD[13];
      assert name[..8] == WIIMOTE_PLUS[..8];
    }
    if name[..22] == WII_U_PRO {
      assert name[13] == WII_U_PRO[13] != BALANCE_BOARD[13];
      assert name[..8] == WII_U_PRO[..8];
    }
    if name[..19] == BALANCE_BOARD {
      assert name[..8] == BALANCE_BOARD[..8];
    }
  }

  // ---------------------------------------------------------------------
  // Incoming connections

  /** CONNECT_IN: an incoming request is answered at once when it comes
      from the saved address, and otherwise the peer's name is asked for
      first. A PlayStation class marks a PS controller. Without a request,
      a completed disconnection leads to the disconnect state. */
  function ConnectInStep(e: Btd): (r: Sent)
    requires e.state == ConnectInState
    ensures Check(e.flags, INCOMING_REQUEST) && e.peer.discBdaddr == e.peer.savedBdaddr ==>
      && r.btd.state == ConnectedState
      && r.out == [Vhci.Frame(Vhci.HCI_COMMAND_PACKET, Encode(AcceptConnection(e.peer.discBdaddr)))]
    ensures Check(e.flags, INCOMING_REQUEST) && e.peer.discBdaddr != e.peer.savedBdaddr ==>
      && r.btd.state == RemoteNameState
      && r.out == [Vhci.Frame(Vhci.HCI_COMMAND_PACKET, Encode(RemoteNameRequest(e.peer.discBdaddr)))]
    ensures Check(e.flags, INCOMING_REQUEST) ==>
      && !r.btd.waitingForConnection
      && r.btd.pairing.incomingPsController == (e.pairing.incomingPsController || e.peer.classOfDevice == PS_CLASS)
    ensures !Check(e.flags, INCOMING_REQUEST) && Check(e.flags, DISCONNECT_COMPLETE) ==>
      r == Sent(e.(state := DisconnectState), [])
    ensures !Check(e.flags, INCOMING_REQUEST) && !Check(e.flags, DISCONNECT_COMPLETE) ==>
      r == Sent(e, [])
    ensures TaskFrame(e, r)
  {
    if Check(e.flags, INCOMING_REQUEST) then
      var e1 := e.(waitingForConnection := false,
                   pairing := if e.peer.classOfDevice == PS_CLASS
                              then e.pairing.(incomingPsController := true) else e.pairing);
      if e.peer.discBdaddr == e.peer.savedBdaddr then
        Go(e1, ConnectedState, AcceptConnection(e.peer.discBdaddr))
      else
        Go(e1, RemoteNameState, RemoteNameRequest(e.peer.discBdaddr))
    else if Check(e.flags, DISCONNECT_COMPLETE) then Enter(e, DisconnectState)
    else Sent(e, [])
  }

  /** REMOTE_NAME: once the name has arrived, classify the device; a device
      found by our own inquiry is then connected to, any other is accepted. */
  function RemoteNameStep(e: Btd): (r: Sent)
    requires e.state == RemoteNameState
    ensures !Check(e.flags, REMOTE_NAME_COMPLETE) ==> r == Sent(e, [])
    ensures Check(e.flags, REMOTE_NAME_COMPLETE) ==>
      r.btd.pairing == ClassifyName(e.pairing, e.peer.remoteName, e.peer.classOfDevice)
    ensures Check(e.flags, REMOTE_NAME_COMPLETE) &&
            (e.pairing.pairWithWii || e.pairing.pairWithHid) && e.pairing.checkRemoteName ==>
      r.btd.state == ConnectDeviceState && r.out == []
    ensures Check(e.flags, REMOTE_NAME_COMPLETE) &&
            !((e.pairing.pairWithWii || e.pairing.pairWithHid) && e.pairing.checkRemoteName) ==>
      && r.btd.state == ConnectedState
      && r.out == [Vhci.Frame(Vhci.HCI_COMMAND_PACKET, Encode(AcceptConnection(e.peer.discBdaddr)))]
    ensures TaskFrame(e, r)
  {
    if Check(e.flags, REMOTE_NAME_COMPLETE) then
      var e1 := e.(pairing := ClassifyName(e.pairing, e.peer.remoteName, e.peer.classOfDevice));
      if (e.pairing.pairWithWii || e.pairing.pairWithHid) && e.pairing.checkRemoteName then
        Enter(e1, ConnectDeviceState)
      else Go(e1, ConnectedState, AcceptConnection(e.peer.discBdaddr))
    else Sent(e, [])
  }

  /** CONNECTED: once the link is up, a PS controller is marked to be
      connected to, the services' claims and all flags are cleared, and the
      engine rests in DONE. */
  function ConnectedStep(e: Btd): (r: Sent)
    requires e.state == ConnectedState
    ensures !Check(e.flags, CONNECT_COMPLETE) ==> r == Sent(e, [])
    ensures Check(e.flags, CONNECT_COMPLETE) ==>
      && r.out == [] && r.btd.state == DoneState && r.btd.flags == 0
      && r.btd.claims == Claims(false, false, false)
      && r.btd.pairing == e.pairing.(connectToHid := e.pairing.connectToHid || e.pairing.incomingPsController)
    ensures TaskFrame(e, r)
  {
    if Check(e.flags, CONNECT_COMPLETE) then
      var p := if e.pairing.incomingPsController then e.pairing.(connectToHid := true) else e.pairing;
      Sent(e.(pairing := p, claims := Claims(false, false, false), flags := 0, state := DoneState), [])
    else Sent(e, [])
  }

  /** DONE: wait 1000 passes, then scan again. */
  function DoneStep(e: Btd): (r: Sent)
    requires e.state == DoneState
    ensures r.out == []
    ensures Tick(e.counter) > DONE_LOOPS ==> r.btd == e.(counter := 0, state := ScanningState)
    ensures Tick(e.counter) <= DONE_LOOPS ==> r.btd == e.(counter := Tick(e.counter))
    ensures TaskFrame(e, r)
  {
    var c := Tick(e.counter);
    if c > DONE_LOOPS then Sent(e.(counter := 0, state := ScanningState), [])
    else Sent(e.(counter := c), [])
  }

  /** DISCONNECT: once the disconnection completed, every flag, both
      buffers and every intent are cleared and the engine scans again. */
  function DisconnectStep(e: Btd): (r: Sent)
    requires e.state == DisconnectState
    ensures !Check(e.flags, DISCONNECT_COMPLETE) ==> r == Sent(e, [])
    ensures Check(e.flags, DISCONNECT_COMPLETE) ==>
      && r.out == [] && r.btd.state == ScanningState && r.btd.flags == 0
      && r.btd.hcibuf == Zeros(BUFFER_SIZE) && r.btd.l2capinbuf == Zeros(BUFFER_SIZE)
      && !r.btd.pairing.connectToWii && !r.btd.pairing.incomingWii && !r.btd.pairing.pairWithWii
      && !r.btd.pairing.connectToHid && !r.btd.pairing.incomingHid && !r.btd.pairing.pairWithHid
      && !r.btd.pairing.checkRemoteName && !r.btd.pairing.incomingPsController
      && r.btd.peer == e.peer && r.btd.host == e.host
    ensures TaskFrame(e, r)
  {
    if Check(e.flags, DISCONNECT_COMPLETE) then
      Sent(e.(flags := 0, hcibuf := Zeros(BUFFER_SIZE), l2capinbuf := Zeros(BUFFER_SIZE),
              pairing := e.pairing.(connectToWii := false, incomingWii := false, pairWithWii := false,
                                    connectToHid := false, incomingHid := false, pairWithHid := false,
                                    checkRemoteName := false, incomingPsController := false),
              state := ScanningState), [])
    else Sent(e, [])
  }

  // ---------------------------------------------------------------------
  // The state machine

  /** Whether the engine has nothing to connect to or pair with, so it may
      listen for incoming connections. */
  predicate Idle(p: Pairing) {
    !p.connectToWii && !p.pairWithWii && !p.connectToHid && !p.pairWithHid
  }

  /** The controller set-up states after the reset: each waits for the
      flag its command raises, then sends the next command. */
  function SetupStep(e: Btd): (r: Sent)
    requires e.state in {ClassState, BdAddrState, LocalVersionState, WriteNameState,
                         LocalExtendedFeaturesState, WriteSimplePairingState, SetEventMaskState}
    ensures TaskFrame(e, r)
    ensures r.btd.numResetLoops == e.numResetLoops
  {
    var f := e.flags;
    match e.state
    case ClassState =>
      if Check(f, CMD_COMPLETE) then Go(e, BdAddrState, ReadBdAddr) else Sent(e, [])
    case BdAddrState =>
      if Check(f, READ_BDADDR) then Go(e, LocalVersionState, ReadLocalVersion) else Sent(e, [])
    case LocalVersionState =>
      if Check(f, READ_VERSION) then AfterVersion(e) else Sent(e, [])
    case WriteNameState =>
      if Check(f, CMD_COMPLETE) then AfterName(e) else Sent(e, [])
    case LocalExtendedFeaturesState =>
      if Check(f, LOCAL_EXTENDED_FEATURES) then
        if e.host.simplePairingSupported then Go(e, WriteSimplePairingState, WriteSimplePairingMode(true))
        else Enter(e, CheckDeviceService)
      else Sent(e, [])
    case WriteSimplePairingState =>
      if Check(f, CMD_COMPLETE) then Go(e, SetEventMaskState, SetEventMask) else Sent(e, [])
    case SetEventMaskState =>
      if Check(f, CMD_COMPLETE) then Enter(e, CheckDeviceService) else Sent(e, [])
  }

  /** The states that discover, connect to and pair with a device, and the
      one that starts listening when there is nothing to pair with. */
  function PairStep(e: Btd): (r: Sent)
    requires e.state in {CheckDeviceService, InquiryState, ConnectDeviceState, ConnectedDeviceState, ScanningState}
    ensures TaskFrame(e, r)
    ensures r.btd.numResetLoops == e.numResetLoops
  {
    var f := e.flags;
    var disc := e.peer.discBdaddr;
    match e.state
    case CheckDeviceService =>
      if e.pairing.pairWithHid || e.pairing.pairWithWii then Go(e, InquiryState, Inquiry)
      else Enter(e, ScanningState)
    case InquiryState =>
      if Check(f, DEVICE_FOUND) then
        var t := Issue(e, InquiryCancel);
        if e.pairing.checkRemoteName then
          var u := Go(t.btd, RemoteNameState, RemoteNameRequest(disc));
          Sent(u.btd, t.out + u.out)
        else Sent(t.btd.(state := ConnectDeviceState), t.out)
      else Sent(e, [])
    case ConnectDeviceState =>
      if Check(f, CMD_COMPLETE) then
        Go(e.(pairing := e.pairing.(checkRemoteName := false)), ConnectedDeviceState, CreateConnection(disc))
      else Sent(e, [])
    case ConnectedDeviceState =>
      if Check(f, CONNECT_EVENT) then
        if Check(f, CONNECT_COMPLETE) then Go(e, ScanningState, AuthenticationRequested(e.peer.hciHandle))
        else Issue(e, CreateConnection(disc))
      else Sent(e, [])
    case ScanningState =>
      if Idle(e.pairing) then
        Go(e.(waitingForConnection := true), ConnectInState, WriteScanEnable(e.host.name.Some?))
      else Sent(e, [])
  }

  /** One call of `HCI_task`: the machine's frame holds on every state. */
  function Step(e: Btd): (r: Sent)
    ensures TaskFrame(e, r)
  {
    match e.state
    case InitState => InitStep(e)
    case ResetState => ResetStep(e)
    case ClassState | BdAddrState | LocalVersionState | WriteNameState | LocalExtendedFeaturesState
      | WriteSimplePairingState | SetEventMaskState => SetupStep(e)
    case CheckDeviceService | InquiryState | ConnectDeviceState | ConnectedDeviceState | ScanningState =>
      PairStep(e)
    case ConnectInState => ConnectInStep(e)
    case RemoteNameState => RemoteNameStep(e)
    case ConnectedState => ConnectedStep(e)
    case DoneState => DoneStep(e)
    case DisconnectState => DisconnectStep(e)
    case DisableScanState => Sent(e, [])
  }

  // ---------------------------------------------------------------------
  // Properties of the whole step

  /** The reset loop limit after `Init` and every value the backoff reaches. */
  predicate LoopsOk(e: Btd) {
    e.numResetLoops == 100 || e.numResetLoops == 1000 || e.numResetLoops == 2000
  }

  /** `Init` starts the limit at 100. */
  lemma InitArmsBackoff(e: Btd)
    ensures LoopsOk(Init(e).0) && Init(e).0.numResetLoops == 100
  {
  }

  /** Only a reset timeout changes the limit, and it moves 100 to 1000 and
      1000 or 2000 to 2000, so the limit stays in {100, 1000, 2000}. */
  lemma StepKeepsLoopsOk(e: Btd)
    requires LoopsOk(e)
    ensures LoopsOk(Step(e).btd)
  {
    StepChangesLoopsOnlyOnReset(e);
  }

  /** The limit changes only in the RESET state, and then to the backoff. */
  lemma StepChangesLoopsOnlyOnReset(e: Btd)
    ensures Step(e).btd.numResetLoops != e.numResetLoops ==>
      e.state == ResetState && Step(e).btd.numResetLoops == Backoff(e.numResetLoops)
  {
    if e.state in {InitState, ResetState, ClassState, BdAddrState, LocalVersionState, WriteNameState,
                   LocalExtendedFeaturesState, WriteSimplePairingState, SetEventMaskState} {
      BringUpKeepsLoops(e);
    } else {
      ConnectionKeepsLoops(e);
    }
  }

  /** The bring-up states leave the limit alone, except a reset timeout. */
  lemma BringUpKeepsLoops(e: Btd)
    requires e.state in {InitState, ResetState, ClassState, BdAddrState, LocalVersionState, WriteNameState,
                         LocalExtendedFeaturesState, WriteSimplePairingState, SetEventMaskState}
    ensures Step(e).btd.numResetLoops != e.numResetLoops ==>
      e.state == ResetState && Step(e).btd.numResetLoops == Backoff(e.numResetLoops)
  {
    match e.state {
      case ResetState =>
      case InitState =>
      case _ =>
    }
  }

  /** The discovery and connection states never change the limit. */
  lemma ConnectionKeepsLoops(e: Btd)
    requires e.state !in {InitState, ResetState, ClassState, BdAddrState, LocalVersionState, WriteNameState,
                          LocalExtendedFeaturesState, WriteSimplePairingState, SetEventMaskState}
    ensures Step(e).btd.numResetLoops == e.numResetLoops
  {
    match e.state {
      case ConnectInState =>
      case RemoteNameState =>
      case ConnectedState =>
      case DoneState =>
      case DisconnectState =>
      case _ =>
    }
  }

  /** A waiting state whose flag is still clear does nothing: the step
      changes no field and sends no frame. */
  lemma WaitingStatesIdle(e: Btd)
    requires
      || (e.state in {ClassState, WriteNameState, WriteSimplePairingState, SetEventMaskState, ConnectDeviceState}
          && !Check(e.flags, CMD_COMPLETE))
      || (e.state == BdAddrState && !Check(e.flags, READ_BDADDR))
      || (e.state == LocalVersionState && !Check(e.flags, READ_VERSION))
      || (e.state == LocalExtendedFeaturesState && !Check(e.flags, LOCAL_EXTENDED_FEATURES))
      || (e.state == InquiryState && !Check(e.flags, DEVICE_FOUND))
      || (e.state == ConnectedDeviceState && !Check(e.flags, CONNECT_EVENT))
      || (e.state == ScanningState && !Idle(e.pairing))
      || (e.state == ConnectInState && !Check(e.flags, INCOMING_REQUEST) && !Check(e.flags, DISCONNECT_COMPLETE))
      || (e.state == RemoteNameState && !Check(e.flags, REMOTE_NAME_COMPLETE))
      || (e.state == ConnectedState && !Check(e.flags, CONNECT_COMPLETE))
      || (e.state == DisconnectState && !Check(e.flags, DISCONNECT_COMPLETE))
    ensures Step(e) == Sent(e, [])
  {
  }

  /** A found device stops the inquiry; then its name is requested when it
      must be checked, otherwise the engine goes straight to connecting. */
  lemma InquiryFoundDevice(e: Btd)
    requires e.state == InquiryState && Check(e.flags, DEVICE_FOUND)
    ensures |Step(e).out| == (if e.pairing.checkRemoteName then 2 else 1)
    ensures Step(e).out[0] == Vhci.Frame(Vhci.HCI_COMMAND_PACKET, [0x02, 0x04, 0x00])
    ensures e.pairing.checkRemoteName ==>
      Step(e).btd.state == RemoteNameState &&
      Step(e).out[1] == Vhci.Frame(Vhci.HCI_COMMAND_PACKET, Encode(RemoteNameRequest(e.peer.discBdaddr)))
    ensures !e.pairing.checkRemoteName ==> Step(e).btd.state == ConnectDeviceState
  {
    assert Octet(0) == 0;
  }

  /** Listening starts only with no pairing intent left: page scan always,
      and inquiry scan too when a local name is configured. */
  lemma ScanningEnablesScan(e: Btd)
    requires e.state == ScanningState && Idle(e.pairing)
    ensures Step(e).btd.state == ConnectInState && Step(e).btd.waitingForConnection
    ensures Step(e).out == [Vhci.Frame(Vhci.HCI_COMMAND_PACKET,
                             [0x1A, 0x0C, 0x01, if e.host.name.Some? then 0x03 else 0x02])]
    ensures !Check(Step(e).btd.flags, INCOMING_REQUEST)
  {
    assert Octet(1) == 1;
    var c := WriteScanEnable(e.host.name.Some?);
    assert Encode(c) == [0x1A, 0x0C, 0x01, if e.host.name.Some? then 0x03 else 0x02];
  }

  /** A failed connection attempt is retried from the same state; a
      successful one starts authentication and the engine listens again. */
  lemma ConnectedDeviceOutcome(e: Btd)
    requires e.state == ConnectedDeviceState && Check(e.flags, CONNECT_EVENT)
    ensures Check(e.flags, CONNECT_COMPLETE) ==>
      && Step(e).btd.state == ScanningState
      && Step(e).out == [Vhci.Frame(Vhci.HCI_COMMAND_PACKET, Encode(AuthenticationRequested(e.peer.hciHandle)))]
    ensures !Check(e.flags, CONNECT_COMPLETE) ==>
      && Step(e).btd.state == ConnectedDeviceState
      && Step(e).out == [Vhci.Frame(Vhci.HCI_COMMAND_PACKET, Encode(CreateConnection(e.peer.discBdaddr)))]
      && !Check(Step(e).btd.flags, CONNECT_EVENT)
  {
    var w := FlagsAfterIssue(e.flags, CONNECT_COMPLETE | CONNECT_EVENT);
    assert (CONNECT_COMPLETE | CONNECT_EVENT) & CONNECT_EVENT == CONNECT_EVENT;
  }

  // ---------------------------------------------------------------------
  // The bring-up and pairing paths

  /** After the class is written, the address is read; the flag that
      read raises is cleared before it is sent. */
  lemma ClassAdvances(e: Btd)
    requires e.state == ClassState && Check(e.flags, CMD_COMPLETE)
    ensures Step(e).btd.state == BdAddrState
    ensures Step(e).out == [Vhci.Frame(Vhci.HCI_COMMAND_PACKET, [0x09, 0x10, 0x00])]
    ensures !Check(Step(e).btd.flags, READ_BDADDR)
  {
    assert Step(e) == Go(e, BdAddrState, ReadBdAddr);
    assert Encode(ReadBdAddr) == [0x09, 0x10, 0x00];
    assert Consumes(ReadBdAddr) == READ_BDADDR;
  }

  /** Once the address is known, the local version is read. */
  lemma BdAddrAdvances(e: Btd)
    requires e.state == BdAddrState && Check(e.flags, READ_BDADDR)
    ensures Step(e).btd.state == LocalVersionState
    ensures Step(e).out == [Vhci.Frame(Vhci.HCI_COMMAND_PACKET, [0x01, 0x10, 0x00])]
    ensures !Check(Step(e).btd.flags, READ_VERSION)
  {
    assert Step(e) == Go(e, LocalVersionState, ReadLocalVersion);
    assert Encode(ReadLocalVersion) == [0x01, 0x10, 0x00];
    assert Consumes(ReadLocalVersion) == READ_VERSION;
  }

  /** With simple pairing enabled, the event mask is set next. */
  lemma SimplePairingAdvances(e: Btd)
    requires e.state == WriteSimplePairingState && Check(e.flags, CMD_COMPLETE)
    ensures Step(e).btd.state == SetEventMaskState
    ensures Step(e).out == [Vhci.Frame(Vhci.HCI_COMMAND_PACKET,
                                       [0x01, 0x0C, 0x08, 0xFF, 0xFF, 0xFF, 0xFF, 0xFF, 0x1F, 0xFF, 0x00])]
  {
    assert Step(e) == Go(e, SetEventMaskState, SetEventMask);
    assert Octet(8) == 8;
    assert Encode(SetEventMask) == [0x01, 0x0C, 0x08, 0xFF, 0xFF, 0xFF, 0xFF, 0xFF, 0x1F, 0xFF, 0x00];
  }

  /** After the event mask, the device check follows with nothing sent. */
  lemma EventMaskAdvances(e: Btd)
    requires e.state == SetEventMaskState && Check(e.flags, CMD_COMPLETE)
    ensures Step(e) == Sent(e.(state := CheckDeviceService), [])
  {
    assert Step(e) == SetupStep(e);
  }

  /** Once the features are known: with simple pairing supported, enable
      it; otherwise go straight to the device check. */
  lemma FeaturesAdvance(e: Btd)
    requires e.state == LocalExtendedFeaturesState && Check(e.flags, LOCAL_EXTENDED_FEATURES)
    ensures e.host.simplePairingSupported ==>
      && Step(e).btd.state == WriteSimplePairingState
      && Step(e).out == [Vhci.Frame(Vhci.HCI_COMMAND_PACKET, [0x56, 0x0C, 0x01, 0x01])]
    ensures !e.host.simplePairingSupported ==> Step(e) == Sent(e.(state := CheckDeviceService), [])
  {
    if e.host.simplePairingSupported {
      assert Step(e) == Go(e, WriteSimplePairingState, WriteSimplePairingMode(true));
      assert Octet(1) == 1;
      assert Encode(WriteSimplePairingMode(true)) == [0x56, 0x0C, 0x01, 0x01];
    } else {
      assert Step(e) == Enter(e, CheckDeviceService);
    }
  }

  /** The device check: with a pairing intent, start an inquiry (clearing
      DEVICE_FOUND); otherwise listen. */
  lemma DeviceCheckOutcome(e: Btd)
    requires e.state == CheckDeviceService
    ensures e.pairing.pairWithHid || e.pairing.pairWithWii ==>
      && Step(e).btd.state == InquiryState
      && Step(e).out == [Vhci.Frame(Vhci.HCI_COMMAND_PACKET, [0x01, 0x04, 0x05, 0x33, 0x8B, 0x9E, 0x30, 0x0A])]
      && !Check(Step(e).btd.flags, DEVICE_FOUND)
    ensures !(e.pairing.pairWithHid || e.pairing.pairWithWii) ==>
      Step(e) == Sent(e.(state := ScanningState), [])
  {
    InquiryEncoding();
  }

  /** Connecting to a found device: once the previous command completed,
      the name check is dropped and a connection to the discovered address
      is created. */
  lemma ConnectDeviceOutcome(e: Btd)
    requires e.state == ConnectDeviceState && Check(e.flags, CMD_COMPLETE)
    ensures Step(e).btd.state == ConnectedDeviceState
    ensures Step(e).out == [Vhci.Frame(Vhci.HCI_COMMAND_PACKET,
      [0x05, 0x04, 0x0D] + e.peer.discBdaddr + [0x18, 0xCC, 0x01, 0x00, 0x00, 0x00, 0x00])]
    ensures !Step(e).btd.pairing.checkRemoteName
    ensures !Check(Step(e).btd.flags, CONNECT_EVENT) && !Check(Step(e).btd.flags, CONNECT_COMPLETE)
  {
    var d := e.peer.discBdaddr;
    assert Octet(13) == 13;
    assert Encode(CreateConnection(d)) == [0x05, 0x04, 0x0D] + d + [0x18, 0xCC, 0x01, 0x00, 0x00, 0x00, 0x00];
    assert (CONNECT_COMPLETE | CONNECT_EVENT) & CONNECT_EVENT == CONNECT_EVENT;
    assert (CONNECT_COMPLETE | CONNECT_EVENT) & CONNECT_COMPLETE == CONNECT_COMPLETE;
  }
}

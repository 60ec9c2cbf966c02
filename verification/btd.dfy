/** The BTD engine's state as one immutable record, and the operations on it
    that are not driven by a packet: construction, `Init`, `Initialize`,
    the pairing entry points, service registration and disconnect, and the
    common path by which a builder hands a command to `HCI_Command`. */
module BtdEngine {
  import opened Bytes
  import opened Wrappers
  import opened HciFlags
  import opened HciCommands
  import Services
  import Vhci

  /** The HCI task's states (`HCI_*_STATE`). `DisableScan` has a number but
      no transition leads to it. */
  datatype HciState =
    | InitState | ResetState | ClassState | BdAddrState | LocalVersionState
    | WriteNameState | CheckDeviceService | InquiryState | ConnectDeviceState
    | ConnectedDeviceState | ScanningState | ConnectInState | RemoteNameState
    | ConnectedState | DisableScanState | DoneState | DisconnectState
    | LocalExtendedFeaturesState | WriteSimplePairingState | SetEventMaskState

  /** The numeric value each state has in the C source. */
  function StateCode(s: HciState): (n: nat)
    ensures n < 20
  {
    match s
    case InitState => 0
    case ResetState => 1
    case ClassState => 2
    case BdAddrState => 3
    case LocalVersionState => 4
    case WriteNameState => 5
    case CheckDeviceService => 6
    case InquiryState => 7
    case ConnectDeviceState => 8
    case ConnectedDeviceState => 9
    case ScanningState => 10
    case ConnectInState => 11
    case RemoteNameState => 12
    case ConnectedState => 13
    case DisableScanState => 14
    case DoneState => 15
    case DisconnectState => 16
    case LocalExtendedFeaturesState => 17
    case WriteSimplePairingState => 18
    case SetEventMaskState => 19
  }

  /** The numbering is one-to-one, so the enumeration loses nothing. */
  lemma StateCodeInjective(s: HciState, t: HciState)
    ensures StateCode(s) == StateCode(t) <==> s == t
  {
  }

  /** A three-octet class of device, least significant octet first. */
  type ClassOfDevice = s: seq<byte> | |s| == 3 witness [0, 0, 0]

  /** `remote_name[30]`. */
  const REMOTE_NAME_SIZE: nat := 30
  type RemoteName = s: seq<byte> | |s| == REMOTE_NAME_SIZE witness Zeros(REMOTE_NAME_SIZE)

  /** What the local controller told the host about itself, and the host's
      own configuration (`btdName`, `btdPin`, `useSimplePairing`). */
  datatype Host = Host(
    myBdaddr: BdAddr,
    hciVersion: byte,
    simplePairingSupported: bool,
    useSimplePairing: bool,
    name: Option<LocalName>,
    pin: Option<Pin>)

  /** The remote device the engine is dealing with. */
  datatype Peer = Peer(
    discBdaddr: BdAddr,
    savedBdaddr: BdAddr,
    classOfDevice: ClassOfDevice,
    remoteName: RemoteName,
    hciHandle: u16)

  /** The pairing intents and the classification of the incoming device. */
  datatype Pairing = Pairing(
    connectToWii: bool,
    incomingWii: bool,
    pairWithWii: bool,
    motionPlusInside: bool,
    wiiUProController: bool,
    pairWiiUsingSync: bool,
    connectToHid: bool,
    incomingHid: bool,
    pairWithHid: bool,
    incomingPsController: bool,
    checkRemoteName: bool)

  /** Per-connection claims the services make on the next incoming L2CAP
      connection. */
  datatype Claims = Claims(l2cap: bool, sdp: bool, rfcomm: bool)

  datatype Btd = Btd(
    state: HciState,
    counter: u16,
    numResetLoops: u16,
    flags: FlagWord,
    inquiryCounter: byte,
    waitingForConnection: bool,
    pollEnabled: bool,
    host: Host,
    peer: Peer,
    pairing: Pairing,
    claims: Claims,
    hcibuf: Buffer,
    l2capinbuf: Buffer,
    services: Services.Registry)

  /** The engine's state after one operation, with the transport frames the
      operation sent, in order. */
  datatype Sent = Sent(btd: Btd, out: seq<seq<byte>>)

  const NO_PAIRING := Pairing(false, false, false, false, false, false, false, false, false, false, false)

  /** `Initialize`: every registered service is reset, the saved address is
      zeroed, the connect/incoming intents and the PS flag are cleared,
      polling stops and simple pairing is marked unsupported. Pairing
      requests (`pairWithWii`, `pairWithHIDDevice`) survive. */
  function Initialize(e: Btd): (r: Btd)
    ensures r.peer.savedBdaddr == ZERO_ADDR
    ensures !r.pairing.connectToWii && !r.pairing.incomingWii
    ensures !r.pairing.connectToHid && !r.pairing.incomingHid && !r.pairing.incomingPsController
    ensures !r.pollEnabled && !r.host.simplePairingSupported
    ensures r.pairing.pairWithWii == e.pairing.pairWithWii && r.pairing.pairWithHid == e.pairing.pairWithHid
    ensures r.services == Services.Broadcast(e.services, Services.Reset)
    ensures r.pairing == e.pairing.(connectToWii := false, incomingWii := false, connectToHid := false,
                                    incomingHid := false, incomingPsController := false)
    ensures r.peer == e.peer.(savedBdaddr := ZERO_ADDR)
    ensures r.host == e.host.(simplePairingSupported := false)
    ensures r == e.(services := r.services, peer := r.peer, pairing := r.pairing,
                    pollEnabled := false, host := r.host)
  {
    e.(services := Services.Broadcast(e.services, Services.Reset),
       peer := e.peer.(savedBdaddr := ZERO_ADDR),
       pairing := e.pairing.(connectToWii := false, incomingWii := false,
                             connectToHid := false, incomingHid := false,
                             incomingPsController := false),
       pollEnabled := false,
       host := e.host.(simplePairingSupported := false))
  }

  /** The object as the constructor leaves it: static storage is zero, no
      service is registered, nothing is configured, then `Initialize`. */
  function NewBtd(): (r: Btd)
    ensures r.state == InitState && r.counter == 0 && r.numResetLoops == 0 && r.flags == 0
    ensures r.services == Services.EMPTY_REGISTRY
    ensures r.pairing == NO_PAIRING
    ensures r.host.name.None? && r.host.pin.None? && !r.host.useSimplePairing
    ensures !r.pollEnabled
  {
    Initialize(Btd(
      InitState, 0, 0, 0, 0, false, false,
      Host(ZERO_ADDR, 0, false, false, None, None),
      Peer(ZERO_ADDR, ZERO_ADDR, [0, 0, 0], Zeros(REMOTE_NAME_SIZE), 0),
      NO_PAIRING,
      Claims(false, false, false),
      Zeros(BUFFER_SIZE), Zeros(BUFFER_SIZE),
      Services.EMPTY_REGISTRY))
  }

  /** `Init`: arm the reset loop (100 idle passes before the first reset)
      from the initial state and enable polling. Always succeeds (returns 0). */
  function Init(e: Btd): (r: (Btd, int))
    ensures r.1 == 0
    ensures r.0.state == InitState && r.0.counter == 0 && r.0.numResetLoops == 100
    ensures !r.0.waitingForConnection && r.0.pollEnabled
    ensures r.0.flags == e.flags && r.0.pairing == e.pairing && r.0.peer == e.peer
  {
    (e.(numResetLoops := 100, counter := 0, state := InitState,
        waitingForConnection := false, pollEnabled := true), 0)
  }

  /** `Release`: the cleanup after a failed `Init`, which is `Initialize`. */
  function Release(e: Btd): (r: (Btd, int))
    ensures r.1 == 0 && r.0 == Initialize(e)
    ensures !r.0.pollEnabled
  {
    (Initialize(e), 0)
  }

  /** `pairWithWiimote`: request pairing and restart from the device check. */
  function PairWithWiimote(e: Btd): (r: Btd)
    ensures r.pairing.pairWithWii && r.state == CheckDeviceService
    ensures r.pairing == e.pairing.(pairWithWii := true)
    ensures r.flags == e.flags && r.peer == e.peer
  {
    e.(pairing := e.pairing.(pairWithWii := true), state := CheckDeviceService)
  }

  /** `pairWithHID`: as for a Wiimote, and stop waiting for an incoming
      connection. */
  function PairWithHid(e: Btd): (r: Btd)
    ensures r.pairing.pairWithHid && r.state == CheckDeviceService && !r.waitingForConnection
    ensures r.pairing == e.pairing.(pairWithHid := true)
    ensures r.flags == e.flags && r.peer == e.peer
  {
    e.(pairing := e.pairing.(pairWithHid := true), state := CheckDeviceService,
       waitingForConnection := false)
  }

  /** `disconnect`: every registered service is asked to disconnect. */
  function DisconnectServices(e: Btd): (r: Btd)
    ensures forall k :: 0 <= k < Services.NUM_SERVICES ==> r.services[k].None? == e.services[k].None?
    ensures forall k :: 0 <= k < Services.NUM_SERVICES && e.services[k].Some? ==>
      && r.services[k].value.id == e.services[k].value.id
      && r.services[k].value.calls == e.services[k].value.calls + [Services.Disconnect]
    ensures r == e.(services := r.services)
  {
    e.(services := Services.Broadcast(e.services, Services.Disconnect))
  }

  /** A builder followed by `HCI_Command`: the builder clears the flag it
      waits on, writes the packet into `hcibuf` (the octets beyond it keep
      their old contents), `HCI_Command` clears CMD_COMPLETE, and the packet
      goes out as one HCI command frame. */
  function Issue(e: Btd, c: HciCmd): (r: Sent)
    ensures |r.out| == 1 && r.out[0] == Vhci.Frame(Vhci.HCI_COMMAND_PACKET, Encode(c))
    ensures !Check(r.btd.flags, CMD_COMPLETE) && !Check(r.btd.flags, Consumes(c))
    ensures r.btd.hcibuf[..|Encode(c)|] == Encode(c)
    ensures r.btd.hcibuf == Overlay(e.hcibuf, Encode(c))
    ensures r.btd.flags == FlagsAfterIssue(e.flags, Consumes(c))
    ensures r.btd == e.(flags := r.btd.flags, hcibuf := r.btd.hcibuf)
  {
    EncodeFits(c);
    var bytes := Encode(c);
    Sent(e.(flags := FlagsAfterIssue(e.flags, Consumes(c)),
            hcibuf := Overlay(e.hcibuf, bytes)),
         [Vhci.Frame(Vhci.HCI_COMMAND_PACKET, bytes)])
  }

  /** Every command fits the transport's send buffer with its type octet. */
  lemma EncodeFits(c: HciCmd)
    ensures |Encode(c)| < 300
  {
    ParamsSize(c);
  }

  /** An operation that sends nothing. */
  function Quiet(e: Btd): (r: Sent)
    ensures r.btd == e && r.out == []
  {
    Sent(e, [])
  }
}

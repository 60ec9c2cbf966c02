/** The fixed table of registered Bluetooth services and the ACL path that
    feeds them. A service's own behaviour (`ACLData`, `Run`, `Reset`,
    `disconnect`) is not visible here, so a service is modelled as the record
    of the calls it has received. */
module Services {
  import opened Bytes
  import opened Wrappers

  /** BTD_NUM_SERVICES */
  const NUM_SERVICES: nat := 4

  datatype ServiceCall = AclData(buf: Buffer) | Run | Reset | Disconnect

  /** A registered service: an identity and every call the engine made on it. */
  datatype Service = Service(id: nat, calls: seq<ServiceCall>)

  /** `btService[BTD_NUM_SERVICES]`; `None` is a null slot. */
  type Registry = s: seq<Option<Service>> | |s| == NUM_SERVICES witness [None, None, None, None]

  const EMPTY_REGISTRY: Registry := [None, None, None, None]

  /** `registerBluetoothService`: the first null slot receives the service and
      its index is returned; with every slot taken the table is unchanged and
      the result is -1. */
  method Register(reg: Registry, svc: Service) returns (reg': Registry, id: int)
    ensures -1 <= id < NUM_SERVICES as int
    ensures id == -1 <==> (forall k :: 0 <= k < NUM_SERVICES ==> reg[k].Some?)
    ensures id == -1 ==> reg' == reg
    ensures id >= 0 ==> reg[id].None? && reg' == reg[id := Some(svc)]
    ensures id >= 0 ==> forall k :: 0 <= k < id ==> reg[k].Some?
  {
    var i := 0;
    while i < NUM_SERVICES
      invariant 0 <= i <= NUM_SERVICES
      invariant forall k :: 0 <= k < i ==> reg[k].Some?
    {
      if reg[i].None? {
        return reg[i := Some(svc)], i;
      }
      i := i + 1;
    }
    return reg, -1;
  }

  /** Appends `call` to the record of every registered service. */
  function Broadcast(reg: Registry, call: ServiceCall): (r: Registry)
    ensures forall k :: 0 <= k < NUM_SERVICES ==> r[k].None? == reg[k].None?
    ensures forall k :: 0 <= k < NUM_SERVICES && reg[k].Some? ==>
              r[k].value == reg[k].value.(calls := reg[k].value.calls + [call])
  {
    seq(NUM_SERVICES, k requires 0 <= k < NUM_SERVICES =>
      match reg[k]
      case None => None
      case Some(s) => Some(s.(calls := s.calls + [call])))
  }

  /** `ACL_event_task`: a non-empty packet is copied into `l2capinbuf` and the
      whole buffer is handed to every registered service; then every
      registered service is run once, whether or not a packet arrived. */
  function AclEventTask(reg: Registry, l2capinbuf: Buffer, packet: seq<byte>): (r: (Registry, Buffer))
    requires |packet| <= BUFFER_SIZE
    ensures r.1[..|packet|] == packet
    ensures forall i :: |packet| <= i < BUFFER_SIZE ==> r.1[i] == l2capinbuf[i]
    ensures forall k :: 0 <= k < NUM_SERVICES ==> r.0[k].None? == reg[k].None?
  {
    if |packet| > 0 then
      var buf := Overlay(l2capinbuf, packet);
      (Broadcast(Broadcast(reg, AclData(buf)), Run), buf)
    else
      (Broadcast(reg, Run), l2capinbuf)
  }

  /** The router broadcasts unfiltered and unmodified: each registered service
      receives exactly the packet (over the buffer's earlier contents) and
      then one tick; an empty slot stays empty. */
  lemma AclEventTaskDelivers(reg: Registry, l2capinbuf: Buffer, packet: seq<byte>)
    requires |packet| <= BUFFER_SIZE
    ensures var (r, buf) := AclEventTask(reg, l2capinbuf, packet);
      && buf[..|packet|] == packet
      && (forall k :: 0 <= k < NUM_SERVICES ==> r[k].None? == reg[k].None?)
      && (forall k :: 0 <= k < NUM_SERVICES && reg[k].Some? ==>
            && r[k].value.id == reg[k].value.id
            && r[k].value.calls == reg[k].value.calls
                 + (if |packet| > 0 then [AclData(buf), Run] else [Run]))
  {
  }
}

/** The host side of the virtual HCI transport: the packet-type indicator
    framing of section 2 of Vol 4 Part A of the Bluetooth Core Specification
    on the way out, and the routing of incoming packets into two bounded,
    non-blocking queues on the way in. */
module Vhci {
  import opened Bytes
  import opened Wrappers

  /** Packet-type indicators. */
  const HCI_COMMAND_PACKET: byte := 0x01
  const HCI_ACL_DATA_PACKET: byte := 0x02
  const HCI_EVENT_PACKET: byte := 0x04

  /** The frame handed to the controller: the type octet, then the packet. */
  function Frame(packetType: byte, packet: seq<byte>): (r: seq<byte>)
    ensures |r| == |packet| + 1
    ensures r[0] == packetType && r[1..] == packet
  {
    [packetType] + packet
  }

  /** `btd_vhci_send_packet`: `sendbuf[0]` takes the type, the packet is
      copied behind it (once per packet octet, the same copy each time), and
      the first `size + 1` octets of `sendbuf` go out. The copy must fit the
      2048-octet send buffer. */
  method SendPacket(sendbuf: Buffer, packetType: byte, packet: seq<byte>)
      returns (sendbuf': Buffer, wire: seq<byte>)
    requires |packet| + 1 <= BUFFER_SIZE
    ensures wire == Frame(packetType, packet)
    ensures sendbuf'[..|packet| + 1] == wire
    ensures sendbuf'[|packet| + 1..] == sendbuf[|packet| + 1..]
  {
    var size := |packet|;
    sendbuf' := sendbuf[0 := packetType];
    var i := 0;
    while i < size
      invariant 0 <= i <= size
      invariant sendbuf'[0] == packetType
      invariant i > 0 ==> sendbuf'[1..size + 1] == packet
      invariant sendbuf'[size + 1..] == sendbuf[size + 1..]
    {
      // memcpy(&sendbuf[1], packet, size)
      sendbuf' := sendbuf'[..1] + packet + sendbuf'[size + 1..];
      i := i + 1;
    }
    wire := sendbuf'[..size + 1];
    assert wire == [packetType] + packet by {
      if size > 0 {
        assert wire[1..] == sendbuf'[1..size + 1];
      }
    }
  }

  /** A no-split ring buffer, abstracted to the items it holds and the
      octets it may hold at once. */
  datatype Queue = Queue(items: seq<seq<byte>>, capacity: nat)

  /** Octets occupied by the queued items. */
  function Used(items: seq<seq<byte>>): (n: nat)
    ensures |items| > 0 ==> n >= |items[0]|
  {
    if |items| == 0 then 0 else |items[0]| + Used(items[1..])
  }

  lemma {:induction false} UsedAppend(items: seq<seq<byte>>, x: seq<byte>)
    ensures Used(items + [x]) == Used(items) + |x|
    decreases |items|
  {
    if |items| == 0 {
      assert items + [x] == [x];
      assert Used([x]) == |x| + Used([]);
    } else {
      assert (items + [x])[1..] == items[1..] + [x];
      UsedAppend(items[1..], x);
    }
  }

  /** A queue never holds more than its capacity. */
  predicate Valid(q: Queue) {
    Used(q.items) <= q.capacity
  }

  /** Both rings are created with room for 2 * 1024 octets. */
  const RING_SIZE: nat := 2 * 1024

  const EMPTY_RING := Queue([], RING_SIZE)

  /** `xRingbufferSend(ring, item, n, 0)`: with a zero timeout the call never
      waits; an item that does not fit is dropped and the queue is unchanged. */
  function Push(q: Queue, item: seq<byte>): (r: (Queue, bool))
    requires Valid(q)
    ensures Valid(r.0) && r.0.capacity == q.capacity
    ensures r.1 <==> Used(q.items) + |item| <= q.capacity
    ensures r.1 ==> r.0.items == q.items + [item]
    ensures !r.1 ==> r.0 == q
  {
    UsedAppend(q.items, item);
    if Used(q.items) + |item| <= q.capacity then (q.(items := q.items + [item]), true)
    else (q, false)
  }

  /** `xRingbufferReceive(ring, &size, 0)`: the oldest item, or nothing at
      once when the queue is empty. */
  function Pop(q: Queue): (r: (Queue, Option<seq<byte>>))
    requires Valid(q)
    ensures Valid(r.0) && r.0.capacity == q.capacity
    ensures |q.items| == 0 <==> r.1.None?
    ensures |q.items| > 0 ==> r.1 == Some(q.items[0]) && r.0.items == q.items[1..]
    ensures |q.items| == 0 ==> r.0 == q
  {
    if |q.items| == 0 then (q, None) else (q.(items := q.items[1..]), Some(q.items[0]))
  }

  /** Every item in a valid queue is no longer than its capacity. */
  lemma {:induction false} ItemsBounded(items: seq<seq<byte>>, k: nat)
    requires k < |items|
    ensures |items[k]| <= Used(items)
    decreases k
  {
    if k > 0 {
      ItemsBounded(items[1..], k - 1);
    }
  }

  /** `host_rcv_pkt(data, len)`: an event packet's body (everything after
      the type octet) goes to the HCI queue, an ACL packet's body to the ACL
      queue, anything else is dropped; the callback always returns 0. */
  function HostReceive(hci: Queue, acl: Queue, data: seq<byte>): (r: (Queue, Queue, int))
    requires |data| >= 1 && Valid(hci) && Valid(acl)
    ensures r.2 == 0
    ensures Valid(r.0) && Valid(r.1)
    ensures data[0] == HCI_EVENT_PACKET ==> r.0 == Push(hci, data[1..]).0 && r.1 == acl
    ensures data[0] == HCI_ACL_DATA_PACKET ==> r.1 == Push(acl, data[1..]).0 && r.0 == hci
    ensures data[0] != HCI_EVENT_PACKET && data[0] != HCI_ACL_DATA_PACKET ==> r.0 == hci && r.1 == acl
  {
    var t := data[0];
    var hci' := if t == HCI_EVENT_PACKET then Push(hci, data[1..]).0 else hci;
    var acl' := if t == HCI_ACL_DATA_PACKET then Push(acl, data[1..]).0 else acl;
    (hci', acl', 0)
  }

  /** A frame sent by this host, if it came back, would be routed by its own
      type octet: an event frame's packet is queued intact when it fits. */
  lemma ReceiveFrame(hci: Queue, acl: Queue, packet: seq<byte>)
    requires Valid(hci) && Valid(acl)
    requires Used(hci.items) + |packet| <= hci.capacity
    ensures HostReceive(hci, acl, Frame(HCI_EVENT_PACKET, packet)).0.items == hci.items + [packet]
  {
  }
}

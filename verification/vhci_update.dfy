/** `btd_vhci_update`, as one sequential pass: while either queue yields a
    packet, run the event task on the next HCI event (or on nothing), one
    step of the HCI state machine, and the ACL task on the next ACL packet
    (or on nothing). No packet arrives during the pass. */
module VhciUpdate {
  import opened Bytes
  import opened Wrappers
  import opened BtdEngine
  import Services
  import Vhci
  import HciEvents
  import HciTask

  /** One engine entry point the pass calls, with the packet it hands over
      (empty for `NULL, 0`). */
  datatype Call = EventCall(packet: seq<byte>) | TaskCall | AclCall(data: seq<byte>)

  predicate Fits(c: Call) {
    match c
    case EventCall(p) => |p| <= BUFFER_SIZE
    case TaskCall => true
    case AclCall(p) => |p| <= BUFFER_SIZE
  }

  predicate AllFit(calls: seq<Call>) {
    forall k :: 0 <= k < |calls| ==> Fits(calls[k])
  }

  /** `ACL_event_task` on the engine: the registry and `l2capinbuf` change. */
  function AclTask(e: Btd, packet: seq<byte>): (r: Btd)
    requires |packet| <= BUFFER_SIZE
    ensures r == e.(services := r.services, l2capinbuf := r.l2capinbuf)
  {
    var (reg, buf) := Services.AclEventTask(e.services, e.l2capinbuf, packet);
    e.(services := reg, l2capinbuf := buf)
  }

  /** The effect of one call, with its frames appended to those already sent. */
  function Run(s: Sent, c: Call): (r: Sent)
    requires Fits(c)
  {
    match c
    case EventCall(p) =>
      var t := HciEvents.EventTask(s.btd, p);
      Sent(t.btd, s.out + t.out)
    case TaskCall =>
      var t := HciTask.Step(s.btd);
      Sent(t.btd, s.out + t.out)
    case AclCall(p) => Sent(AclTask(s.btd, p), s.out)
  }

  /** The calls of a trace, one after the other. */
  function Apply(s: Sent, calls: seq<Call>): Sent
    requires AllFit(calls)
    decreases |calls|
  {
    if |calls| == 0 then s
    else Run(Apply(s, calls[..|calls| - 1]), calls[|calls| - 1])
  }

  function Head(q: seq<seq<byte>>): seq<byte> {
    if |q| == 0 then [] else q[0]
  }

  function Tail(q: seq<seq<byte>>): seq<seq<byte>> {
    if |q| == 0 then [] else q[1..]
  }

  function Max(a: nat, b: nat): nat {
    if a >= b then a else b
  }

  /** Item k of a queue's contents, or nothing once it is exhausted. */
  function Nth(q: seq<seq<byte>>, k: nat): seq<byte> {
    if k < |q| then q[k] else []
  }

  /** One pass of the loop body for the k-th items. */
  function Round(hs: seq<seq<byte>>, acl: seq<seq<byte>>, k: nat): seq<Call> {
    [EventCall(Nth(hs, k)), TaskCall, AclCall(Nth(acl, k))]
  }

  /** The calls a pass makes over queues holding `hs` and `acl`: a round,
      repeated while either queue still had an item. */
  function Drain(hs: seq<seq<byte>>, acl: seq<seq<byte>>): seq<Call>
    decreases |hs| + |acl|
  {
    var round := [EventCall(Head(hs)), TaskCall, AclCall(Head(acl))];
    if |hs| == 0 && |acl| == 0 then round else round + Drain(Tail(hs), Tail(acl))
  }

  /** With h and a queued items a pass runs max(h, a) + 1 rounds; round k
      hands the event task the k-th event (or nothing), runs exactly one
      state-machine step, and hands the ACL task the k-th ACL packet (or
      nothing). */
  lemma {:induction false} DrainShape(hs: seq<seq<byte>>, acl: seq<seq<byte>>)
    ensures |Drain(hs, acl)| == 3 * (Max(|hs|, |acl|) + 1)
    ensures forall k :: 0 <= k <= Max(|hs|, |acl|) ==> Drain(hs, acl)[3 * k..3 * k + 3] == Round(hs, acl, k)
    decreases |hs| + |acl|
  {
    DrainUnfold(hs, acl);
    if !(|hs| == 0 && |acl| == 0) {
      var round := Round(hs, acl, 0);
      var rest := Drain(Tail(hs), Tail(acl));
      DrainShape(Tail(hs), Tail(acl));
      forall k | 0 <= k <= Max(|hs|, |acl|)
        ensures (round + rest)[3 * k..3 * k + 3] == Round(hs, acl, k)
      {
        if k > 0 {
          SliceShift(round, rest, k);
          RoundTail(hs, acl, k);
        }
      }
    }
  }

  /** Past a leading round, slice k of a trace is slice k - 1 of the rest. */
  lemma SliceShift(round: seq<Call>, rest: seq<Call>, k: nat)
    requires |round| == 3 && 0 < k && 3 * k <= |rest|
    ensures (round + rest)[3 * k..3 * k + 3] == rest[3 * (k - 1)..3 * (k - 1) + 3]
  {
  }

  /** Round k of the queues is round k - 1 of their tails. */
  lemma RoundTail(hs: seq<seq<byte>>, acl: seq<seq<byte>>, k: nat)
    requires 0 < k
    ensures Round(Tail(hs), Tail(acl), k - 1) == Round(hs, acl, k)
  {
  }

  /** Applying a trace extended by one call is applying that call last. */
  lemma ApplySnoc(s: Sent, t: seq<Call>, c: Call)
    requires AllFit(t) && Fits(c)
    ensures AllFit(t + [c])
    ensures Apply(s, t + [c]) == Run(Apply(s, t), c)
  {
    assert (t + [c])[..|t|] == t;
  }

  lemma DrainUnfold(hs: seq<seq<byte>>, acl: seq<seq<byte>>)
    ensures |hs| == 0 && |acl| == 0 ==> Drain(hs, acl) == Round(hs, acl, 0)
    ensures !(|hs| == 0 && |acl| == 0) ==>
      Drain(hs, acl) == Round(hs, acl, 0) + Drain(Tail(hs), Tail(acl))
      && Max(|Tail(hs)|, |Tail(acl)|) + 1 == Max(|hs|, |acl|)
  {
  }

  /** The bookkeeping of one round: what remains to be drained shrinks by
      exactly the round just made. */
  lemma TraceAdvances(before: seq<Call>, hs: seq<seq<byte>>, acl: seq<seq<byte>>,
                      hs0: seq<seq<byte>>, acl0: seq<seq<byte>>)
    requires before + Drain(hs, acl) == Drain(hs0, acl0)
    ensures |hs| == 0 && |acl| == 0 ==> before + Round(hs, acl, 0) == Drain(hs0, acl0)
    ensures !(|hs| == 0 && |acl| == 0) ==>
      (before + Round(hs, acl, 0)) + Drain(Tail(hs), Tail(acl)) == Drain(hs0, acl0)
      && Max(|Tail(hs)|, |Tail(acl)|) + 1 == Max(|hs|, |acl|)
  {
    DrainUnfold(hs, acl);
  }

  /** One call on the state reached so far: the trace grows by the call and
      the state is still the trace applied from the start. */
  method RunCall(e: Btd, r: Sent, trace: seq<Call>, c: Call) returns (r': Sent, trace': seq<Call>)
    requires AllFit(trace) && r == Apply(Sent(e, []), trace) && Fits(c)
    ensures trace' == trace + [c]
    ensures AllFit(trace') && r' == Apply(Sent(e, []), trace')
  {
    ApplySnoc(Sent(e, []), trace, c);
    r' := Run(r, c);
    trace' := trace + [c];
  }

  /** One round of calls: the trace grows by the round. */
  method RunRound(e: Btd, r: Sent, trace: seq<Call>, p: seq<byte>, q: seq<byte>)
      returns (r': Sent, trace': seq<Call>)
    requires AllFit(trace) && r == Apply(Sent(e, []), trace)
    requires |p| <= BUFFER_SIZE && |q| <= BUFFER_SIZE
    ensures trace' == trace + [EventCall(p), TaskCall, AclCall(q)]
    ensures AllFit(trace') && r' == Apply(Sent(e, []), trace')
  {
    var r1, t1 := RunCall(e, r, trace, EventCall(p));
    var r2, t2 := RunCall(e, r1, t1, TaskCall);
    r', trace' := RunCall(e, r2, t2, AclCall(q));
    assert trace' == trace + [EventCall(p), TaskCall, AclCall(q)];
  }

  /** The pass itself. Both queues are drained; the calls made are those of
      `Drain` and the engine ends where applying them leads. */
  method Update(e: Btd, hq: Vhci.Queue, aq: Vhci.Queue)
      returns (r: Sent, hq': Vhci.Queue, aq': Vhci.Queue, rounds: nat, trace: seq<Call>)
    requires Vhci.Valid(hq) && Vhci.Valid(aq)
    requires hq.capacity <= BUFFER_SIZE && aq.capacity <= BUFFER_SIZE
    ensures hq'.items == [] && aq'.items == []
    ensures rounds == Max(|hq.items|, |aq.items|) + 1
    ensures trace == Drain(hq.items, aq.items) && AllFit(trace)
    ensures r == Apply(Sent(e, []), trace)
  {
    var h, a := hq, aq;
    r := Sent(e, []);
    trace := [];
    rounds := 0;
    var more := true;
    while more
      invariant Vhci.Valid(h) && Vhci.Valid(a)
      invariant h.capacity == hq.capacity && a.capacity == aq.capacity
      invariant AllFit(trace) && r == Apply(Sent(e, []), trace)
      invariant more ==> trace + Drain(h.items, a.items) == Drain(hq.items, aq.items)
      invariant more ==> rounds + Max(|h.items|, |a.items|) == Max(|hq.items|, |aq.items|)
      invariant !more ==> trace == Drain(hq.items, aq.items) && h.items == [] && a.items == []
      invariant !more ==> rounds == Max(|hq.items|, |aq.items|) + 1
      decreases |h.items| + |a.items| + (if more then 1 else 0)
    {
      var oldH, oldA := h.items, a.items;
      var (h1, x) := Vhci.Pop(h);
      var p := x.GetOr([]);
      if x.Some? { Vhci.ItemsBounded(oldH, 0); }
      var (a1, y) := Vhci.Pop(a);
      var q := y.GetOr([]);
      if y.Some? { Vhci.ItemsBounded(oldA, 0); }
      assert p == Head(oldH) && q == Head(oldA);
      ghost var before := trace;
      r, trace := RunRound(e, r, trace, p, q);
      assert [EventCall(p), TaskCall, AclCall(q)] == Round(oldH, oldA, 0);
      h, a := h1, a1;
      rounds := rounds + 1;
      more := x.Some? || y.Some?;
      assert h.items == Tail(oldH) && a.items == Tail(oldA);
      TraceAdvances(before, oldH, oldA, hq.items, aq.items);
    }
    hq', aq' := h, a;
  }

  /** Each round runs exactly one state-machine step: a pass over h events
      and a ACL packets steps the machine max(h, a) + 1 times. */
  lemma OneStepPerRound(hs: seq<seq<byte>>, acl: seq<seq<byte>>, k: nat)
    requires k <= Max(|hs|, |acl|)
    ensures |Drain(hs, acl)| == 3 * (Max(|hs|, |acl|) + 1)
    ensures Drain(hs, acl)[3 * k] == EventCall(Nth(hs, k))
    ensures Drain(hs, acl)[3 * k + 1] == TaskCall
    ensures Drain(hs, acl)[3 * k + 2] == AclCall(Nth(acl, k))
  {
    DrainShape(hs, acl);
    var d := Drain(hs, acl);
    var slice := d[3 * k..3 * k + 3];
    assert slice == Round(hs, acl, k);
    assert d[3 * k] == slice[0] && d[3 * k + 1] == slice[1] && d[3 * k + 2] == slice[2];
  }
}

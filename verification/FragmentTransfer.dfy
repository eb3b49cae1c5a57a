/** A sender and a receiver: splitting a datagram, any order on the way, and putting it together. */
module FragmentTransfer {
  import opened Bytes
  import opened FragmentHeader
  import opened Fragmentation
  import opened FragmentMasterModel
  import R = Reassembly

  /** The fragments of a datagram as they go over the wire. */
  ghost function Packets(d: Datagram, seqId: nat): seq<Bytes> {
    seq(Count(d), i requires 0 <= i < Count(d) => Packet(d, seqId, i))
  }

  /** The sender's side: the packet of `fragment_outgoing`, then those of `fragment_ready_to_send`. */
  method Send(sender: FragmentMaster, buf: Bytes) returns (packets: seq<Bytes>)
    requires sender.Valid() && |buf| <= sender.capacity && PlanFor(buf, sender.maxFragmentSize).Split?
    modifies sender
    ensures sender.Valid() && sender.outgoing == []
    ensures sender.seqId == old(sender.seqId) && sender.index == old(sender.index)
    ensures sender.outgoingSeqId == (old(sender.outgoingSeqId) + 1) % N_SEQ_ID
    ensures packets == Packets(PlanFor(buf, sender.maxFragmentSize).d, sender.outgoingSeqId)
  {
    ghost var d := PlanFor(buf, sender.maxFragmentSize).d;
    CountBounds(d);
    var packet := sender.FragmentOutgoing(buf);
    ghost var id := sender.outgoingSeqId;
    packets := [packet];
    var ready := true;
    while ready
      invariant sender.Valid() && sender.outgoingSeqId == id
      invariant sender.seqId == old(sender.seqId) && sender.index == old(sender.index)
      invariant 1 <= |packets| <= Count(d) && Pending(sender.Out(), d, |packets|)
      invariant forall i :: 0 <= i < |packets| ==> packets[i] == Packet(d, id, i)
      invariant !ready ==> |packets| == Count(d)
      decreases Count(d) - |packets|, if ready then 1 else 0
    {
      PendingNext(sender.Out(), d, |packets|);
      ready, packet := sender.FragmentReadyToSend();
      if ready {
        packets := packets + [packet];
      }
    }
  }

  /** One arrival for every element of `order`. */
  ghost function Arrivals(s: int, order: seq<nat>, now: nat): seq<R.Event> {
    seq(|order|, k requires 0 <= k < |order| => R.Fragment(s, order[k], now))
  }

  /** The receiver's side: the packets of datagram `s` come in the given order, some perhaps more than once. */
  method Receive(receiver: FragmentMaster, ghost D: R.Source, ghost s: int, packets: seq<Bytes>, order: seq<nat>, now: nat)
    returns (outs: seq<Bytes>)
    requires RingOk(receiver.List()) && packets == Packets(D(s), R.WireId(s))
    requires forall k :: 0 <= k < |order| ==> order[k] < |packets|
    modifies receiver, receiver.fragments
    ensures R.WellFormed(D, Arrivals(s, order, now))
    ensures RingOk(receiver.List())
    ensures (receiver.List(), outs) == R.ConcreteRun(D, old(receiver.List()), Arrivals(s, order, now))
  {
    outs := [];
    var k := 0;
    while k < |order|
      invariant 0 <= k <= |order|
      invariant R.WellFormed(D, Arrivals(s, order[..k], now)) && RingOk(receiver.List())
      invariant (receiver.List(), outs) == R.ConcreteRun(D, old(receiver.List()), Arrivals(s, order[..k], now))
    {
      OneMoreArrival(D, old(receiver.List()), s, order[..k], order[k], now);
      assert order[..k] + [order[k]] == order[..k + 1];
      var out := receiver.FragmentIncoming(packets[order[k]], now);
      outs := outs + [out];
      k := k + 1;
    }
    assert order[..k] == order;
  }

  lemma OneMoreArrival(D: R.Source, r: Ring, s: int, order: seq<nat>, i: nat, now: nat)
    requires RingOk(r) && i < Count(D(s)) && R.WellFormed(D, Arrivals(s, order, now))
    ensures R.WellFormed(D, Arrivals(s, order + [i], now))
    ensures var (r1, outs) := R.ConcreteRun(D, r, Arrivals(s, order, now));
            var (r2, out) := Incoming(r1, Packet(D(s), R.WireId(s), i), now);
            R.ConcreteRun(D, r, Arrivals(s, order + [i], now)) == (r2, outs + [out])
  {
    var events := Arrivals(s, order + [i], now);
    assert events[..|events| - 1] == Arrivals(s, order, now) && events[|events| - 1] == R.Fragment(s, i, now);
  }

  /** The order brings every fragment, the last missing one at its end. */
  ghost predicate CompletesAtItsEnd(order: seq<nat>, n: nat) {
    && order != [] && (forall k :: 0 <= k < |order| ==> order[k] < n)
    && (forall i :: 0 <= i < n ==> i in order)
    && order[|order| - 1] !in order[..|order| - 1]
  }

  lemma {:induction false} SeenIsTheOrder(s: int, order: seq<nat>, now: nat)
    ensures forall i :: i in R.SeenOf(Arrivals(s, order, now), s) <==> i in order
  {
    if order != [] {
      var init := order[..|order| - 1];
      SeenIsTheOrder(s, init, now);
      var events := Arrivals(s, order, now);
      assert events[..|events| - 1] == Arrivals(s, init, now);
      assert order == init + [order[|order| - 1]];
    }
  }

  lemma {:induction false} NoTickIsLate(s: int, order: seq<nat>, now: nat)
    ensures R.Alive(Arrivals(s, order, now), s)
  {
    if order != [] {
      NoTickIsLate(s, order[..|order| - 1], now);
      var events := Arrivals(s, order, now);
      assert events[..|events| - 1] == Arrivals(s, order[..|order| - 1], now);
    }
  }

  lemma OrderCompletes(D: R.Source, s: int, order: seq<nat>, now: nat)
    requires CompletesAtItsEnd(order, Count(D(s)))
    ensures R.Completes(D, Arrivals(s, order, now), s)
  {
    var events, init := Arrivals(s, order, now), order[..|order| - 1];
    assert events[..|events| - 1] == Arrivals(s, init, now);
    SeenIsTheOrder(s, order, now);
    SeenIsTheOrder(s, init, now);
    assert order[|order| - 1] in Indices(D(s));
  }

  /** Nothing until the last packet, and then the whole datagram. */
  ghost predicate Arrives(outs: seq<Bytes>, order: seq<nat>, buf: Bytes) {
    |outs| == |order| > 0 && outs[|order| - 1] == buf && forall k :: 0 <= k < |order| - 1 ==> outs[k] == []
  }

  /** One datagram alone reaches any window that takes its wire number for what it is. */
  lemma OrderIsDelivered(D: R.Source, capacity: nat, r: Ring, w: R.Window, s: int, order: seq<nat>, now: nat)
    requires R.Represents(D, capacity, r, w) && s !in w.parts && R.Unambiguous(s, w.top)
    requires |D(s).payload| <= capacity && CompletesAtItsEnd(order, Count(D(s)))
    ensures R.WellFormed(D, Arrivals(s, order, now))
    ensures Arrives(R.ConcreteRun(D, r, Arrivals(s, order, now)).1, order, D(s).payload)
  {
    var events := Arrivals(s, order, now);
    NoTickIsLate(s, order, now);
    OrderCompletes(D, s, order, now);
    forall k | 0 <= k < |events| && events[k].Fragment? && R.NoFragment(events[..k])
      ensures R.Reaches(w, events[k].s, s)
    {
    }
    R.AnyOrderDelivers(D, capacity, r, w, events, s, s);
    assert forall k :: 0 <= k < |order| - 1 ==> events[k].Fragment? && events[k].s == s;
  }

  /** From one end to the other: a datagram that is split, and whose packets reach a receiver in any state with
      nothing of it pending and its number unambiguous, in any order and with any repetitions, comes out of
      `fragment_incoming` byte for byte with the last missing packet, and not before. */
  method Transfer(sender: FragmentMaster, receiver: FragmentMaster, buf: Bytes, order: seq<nat>, now: nat,
                  ghost D: R.Source, ghost w: R.Window, ghost s: int) returns (outs: seq<Bytes>)
    requires sender != receiver && sender.fragments != receiver.fragments
    requires sender.Valid() && |buf| <= sender.capacity && PlanFor(buf, sender.maxFragmentSize).Split?
    requires D(s) == PlanFor(buf, sender.maxFragmentSize).d && R.WireId(s) == (sender.outgoingSeqId + 1) % N_SEQ_ID
    requires CompletesAtItsEnd(order, Count(D(s))) && |buf| <= receiver.capacity
    requires R.Represents(D, receiver.capacity, receiver.List(), w) && s !in w.parts && R.Unambiguous(s, w.top)
    modifies sender, receiver, receiver.fragments
    ensures Arrives(outs, order, buf)
  {
    ghost var r := receiver.List();
    var packets := Send(sender, buf);
    outs := Receive(receiver, D, s, packets, order, now);
    OrderIsDelivered(D, receiver.capacity, r, w, s, order, now);
  }

  /** A receiver as set up takes the first datagram whatever number the sender starts with. */
  method FirstTransfer(sender: FragmentMaster, receiver: FragmentMaster, buf: Bytes, order: seq<nat>, now: nat)
    returns (outs: seq<Bytes>)
    requires sender != receiver && sender.fragments != receiver.fragments
    requires sender.Valid() && |buf| <= sender.capacity && PlanFor(buf, sender.maxFragmentSize).Split?
    requires CompletesAtItsEnd(order, Count(PlanFor(buf, sender.maxFragmentSize).d)) && |buf| <= receiver.capacity
    requires receiver.Valid() && receiver.seqId == 0 && receiver.index == 0
    requires forall j :: 0 <= j < N_FRAG_BUF ==>
               !receiver.fragments[j].defined && |receiver.fragments[j].data| == receiver.capacity
    modifies sender, receiver, receiver.fragments
    ensures Arrives(outs, order, buf)
  {
    ghost var d := PlanFor(buf, sender.maxFragmentSize).d;
    ghost var D: R.Source := _ => d;
    ghost var s := R.FirstNumber((sender.outgoingSeqId + 1) % N_SEQ_ID);
    R.FreshRingRepresents(D, receiver.capacity, receiver.List());
    outs := Transfer(sender, receiver, buf, order, now, D, R.Window(0, map[]), s);
  }
}

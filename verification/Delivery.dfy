/** What becomes of the packets of a session, by what was sent and handed up before, over every run of the two
    peers of `DataChannel`: late packets of the previous epoch, changes of the send key, failed checks. */
module Delivery {
  import opened Bytes
  import opened Aead
  import opened EpochKeys
  import opened DataChannel
  import R = ReplayWindow

  // ---- Both directions ---------------------------------------------------------------------------

  /** The receiver of one direction, what it was sent, and what it handed up. */
  function Receiver(w: World, toB: bool): Peer {
    if toB then w.b else w.a
  }

  function LogTo(w: World, toB: bool): seq<Sent> {
    if toB then w.sentA else w.sentB
  }

  function GotBy(w: World, toB: bool): seq<Got> {
    if toB then w.gotB else w.gotA
  }

  function SessionAt(net: Net, toB: bool): Session {
    if toB then net.SessionB() else net.SessionA()
  }

  /** What sending leaves of the receive side. */
  lemma SendingKeepsReceiveSide(s: Session, c: Cipher, p: Peer, header: Bytes, payload: Bytes, capacity: nat)
    requires Ready(p)
    ensures var q := Encrypt(s, c, p, header, payload, capacity).0;
            q == p.(encrypt := q.encrypt, sendKey := q.sendKey, sendId := q.sendId)
  {
    EncryptCases(s, c, p, header, payload, capacity);
  }

  // ---- The previous epoch ------------------------------------------------------------------------

  /** The receive epoch stays and so does the retiring one, or it moves up and the one before retires. */
  ghost predicate Succession(p: Peer, p': Peer) {
    if p'.decrypt.epoch == p.decrypt.epoch then p'.retiring.epoch == p.retiring.epoch
    else p'.decrypt.epoch > p.decrypt.epoch && p'.retiring.epoch == p.decrypt.epoch
  }

  lemma DecryptSuccession(s: Session, c: Cipher, p: Peer, header: Bytes, body: Bytes, capacity: nat, now: nat)
    requires Inv(s, p) && Ready(p)
    ensures match Decrypt(s, c, p, header, body, capacity, now)
            case Aborted => true
            case Dropped(q) => Succession(p, q)
            case Delivered(q, payload) => Succession(p, q)
  {
    DecryptCases(s, c, p, header, body, capacity, now);
    if |body| >= MinBody(Epoch) {
      var (ref, epoch, id) := Selected(p, body);
      if epoch != 0 && ref.Future? && CheckReplay(s, p, epoch, id, now).Checked? {
        SwitchKeepsThePreviousKey(s, p, epoch, id, now);
      }
    }
  }

  lemma StepSuccession(net: Net, w: World, action: Action, w': World, toB: bool)
    requires WorldInv(net, w) && Step(net, w, action, w')
    ensures Succession(Receiver(w, toB), Receiver(w', toB))
  {
    var c := net.cipher;
    match action {
      case ASends(header, payload, capacity) => SendingKeepsReceiveSide(net.SessionA(), c, w.a, header, payload, capacity);
      case BSends(header, payload, capacity) => SendingKeepsReceiveSide(net.SessionB(), c, w.b, header, payload, capacity);
      case AReceives(header, body, capacity, now) => DecryptSuccession(net.SessionA(), c, w.a, header, body, capacity, now);
      case BReceives(header, body, capacity, now) => DecryptSuccession(net.SessionB(), c, w.b, header, body, capacity, now);
    }
  }

  lemma StepAtSuccession(net: Net, actions: seq<Action>, states: seq<World>, i: nat, toB: bool)
    requires net.Valid() && Run(net, actions, states) && i < |actions|
    ensures Succession(Receiver(states[i], toB), Receiver(states[i + 1], toB))
  {
    RunInv(net, actions, states, i);
    assert StepAt(net, actions, states, i);
    StepSuccession(net, states[i], actions[i], states[i + 1], toB);
  }

  /** Receive epochs never go back. */
  lemma {:induction false} ReceiveEpochsGrow(net: Net, actions: seq<Action>, states: seq<World>, j: nat, i: nat, toB: bool)
    requires net.Valid() && Run(net, actions, states) && j <= i < |states|
    ensures Receiver(states[j], toB).decrypt.epoch <= Receiver(states[i], toB).decrypt.epoch
    decreases i - j
  {
    if j < i {
      ReceiveEpochsGrow(net, actions, states, j, i - 1, toB);
      StepAtSuccession(net, actions, states, i - 1, toB);
    }
  }

  /** From the switch to an epoch until the next one, the retiring key is that of the epoch before. */
  lemma {:induction false} PreviousEpochRetires(net: Net, actions: seq<Action>, states: seq<World>, j: nat, i: nat, toB: bool)
    requires net.Valid() && Run(net, actions, states) && j < i < |states|
    requires Receiver(states[j], toB).decrypt.epoch < Receiver(states[j + 1], toB).decrypt.epoch
    requires Receiver(states[j + 1], toB).decrypt.epoch == Receiver(states[i], toB).decrypt.epoch
    ensures Receiver(states[i], toB).retiring.epoch == Receiver(states[j], toB).decrypt.epoch
    decreases i - j
  {
    StepAtSuccession(net, actions, states, i - 1, toB);
    if j + 1 < i {
      ReceiveEpochsGrow(net, actions, states, j + 1, i - 1, toB);
      ReceiveEpochsGrow(net, actions, states, i - 1, i, toB);
      PreviousEpochRetires(net, actions, states, j, i - 1, toB);
    }
  }

  /** A packet on record that its receiver has a usable key and room for. */
  ghost predicate Openable(c: Cipher, b: Peer, x: Sent, capacity: nat) {
    && (x.epoch == b.decrypt.epoch || (x.epoch == b.retiring.epoch && b.retiring.epoch != 0))
    && (if x.epoch == b.decrypt.epoch then b.decrypt else b.retiring).failedVerifications <= VERIFY_FAIL_LIMIT
    && |x.body| - 8 + c.blockSize <= capacity
  }

  /** Such a packet is opened to what was sent, and the window of its epoch alone decides. */
  lemma OpenableOutcome(net: Net, actions: seq<Action>, states: seq<World>, i: nat, toB: bool, k: nat, capacity: nat, now: nat)
    requires net.Valid() && Run(net, actions, states) && i < |states| && k < |LogTo(states[i], toB)| && now > R.SEQ_EXPIRED
    requires Openable(net.cipher, Receiver(states[i], toB), LogTo(states[i], toB)[k], capacity)
    ensures var b, x := Receiver(states[i], toB), LogTo(states[i], toB)[k];
            && Ready(b)
            && var r := Decrypt(SessionAt(net, toB), net.cipher, b, x.header, x.body, capacity, now);
            && (r.Delivered? ==> r.payload == x.payload)
            && (r.Delivered? <==>
                  R.Check(if x.epoch == b.decrypt.epoch then b.rec else b.retiringRec, R.PacketId(x.id, 0), now).1)
  {
    RunInv(net, actions, states, i);
    GenuinePacketOutcome(net, actions, states, i, k, capacity, now);
  }

  /** A packet of the current epoch that the window would take just before the receiver moves to a later epoch
      is delivered just after it. */
  lemma LatePacketIsDelivered(net: Net, actions: seq<Action>, states: seq<World>, i: nat, toB: bool, k: nat,
                              capacity: nat, now: nat)
    requires net.Valid() && Run(net, actions, states) && i < |actions| && k < |LogTo(states[i], toB)| && now > R.SEQ_EXPIRED
    requires Receiver(states[i], toB).decrypt.epoch < Receiver(states[i + 1], toB).decrypt.epoch
    requires var b, x := Receiver(states[i], toB), LogTo(states[i], toB)[k];
             && x.epoch == b.decrypt.epoch && Openable(net.cipher, b, x, capacity)
             && |b.rec.seen| <= b.rec.backtrack && R.Check(b.rec, R.PacketId(x.id, 0), now).1
    ensures var b', x := Receiver(states[i + 1], toB), LogTo(states[i], toB)[k];
            && Ready(b')
            && var r := Decrypt(SessionAt(net, toB), net.cipher, b', x.header, x.body, capacity, now);
               r.Delivered? && r.payload == x.payload
  {
    RunInv(net, actions, states, i);
    StepAtMovesWindow(net, actions, states, i, toB);
    StepAtSuccession(net, actions, states, i, toB);
    StepAtKeepsLog(net, actions, states, i, toB, k);
    OpenableOutcome(net, actions, states, i + 1, toB, k, capacity, now);
  }

  lemma StepAtKeepsLog(net: Net, actions: seq<Action>, states: seq<World>, i: nat, toB: bool, k: nat)
    requires net.Valid() && Run(net, actions, states) && i < |actions| && k < |LogTo(states[i], toB)|
    ensures k < |LogTo(states[i + 1], toB)| && LogTo(states[i + 1], toB)[k] == LogTo(states[i], toB)[k]
  {
    assert StepAt(net, actions, states, i);
  }

  /** A step that moves the receive epoch leaves the old key and its window behind as they were. */
  ghost predicate Moved(p: Peer, p': Peer) {
    p'.decrypt.epoch != p.decrypt.epoch ==>
      && p'.retiring == p.decrypt && p'.retiringRec == p.rec
      && p'.encrypt.epoch == Max(p.encrypt.epoch, p'.decrypt.epoch)
      && (p'.encrypt.epoch == p.encrypt.epoch ==> p'.encrypt == p.encrypt && p'.sendId == p.sendId)
  }

  lemma DecryptMoves(s: Session, c: Cipher, p: Peer, header: Bytes, body: Bytes, capacity: nat, now: nat)
    requires Inv(s, p) && Ready(p)
    ensures match Decrypt(s, c, p, header, body, capacity, now)
            case Aborted => true
            case Dropped(q) => Moved(p, q)
            case Delivered(q, payload) => Moved(p, q)
  {
    DecryptCases(s, c, p, header, body, capacity, now);
    if |body| >= MinBody(Epoch) {
      var (ref, epoch, id) := Selected(p, body);
      if epoch != 0 && ref.Future? && CheckReplay(s, p, epoch, id, now).Checked? {
        SwitchKeepsThePreviousKey(s, p, epoch, id, now);
      }
    }
  }

  lemma StepAtMovesWindow(net: Net, actions: seq<Action>, states: seq<World>, i: nat, toB: bool)
    requires net.Valid() && Run(net, actions, states) && i < |actions|
    ensures Moved(Receiver(states[i], toB), Receiver(states[i + 1], toB))
  {
    RunInv(net, actions, states, i);
    assert StepAt(net, actions, states, i);
    var w, c := states[i], net.cipher;
    match actions[i] {
      case ASends(header, payload, capacity) => SendingKeepsReceiveSide(net.SessionA(), c, w.a, header, payload, capacity);
      case BSends(header, payload, capacity) => SendingKeepsReceiveSide(net.SessionB(), c, w.b, header, payload, capacity);
      case AReceives(header, body, capacity, now) => DecryptMoves(net.SessionA(), c, w.a, header, body, capacity, now);
      case BReceives(header, body, capacity, now) => DecryptMoves(net.SessionB(), c, w.b, header, body, capacity, now);
    }
  }

  // ---- Delivery by what was handed up before -------------------------------------------------------

  /** The packets of one epoch among those handed up, as its window sees them. */
  function Pins(got: seq<Got>, epoch: nat): (pins: seq<R.PacketId>) {
    if got == [] then []
    else
      var g := got[|got| - 1];
      var before := Pins(got[..|got| - 1], epoch);
      if g.epoch == epoch then before + [R.PacketId(g.id, 0)] else before
  }

  lemma {:induction false} PinsOfNone(got: seq<Got>, epoch: nat)
    requires forall i :: 0 <= i < |got| ==> got[i].epoch != epoch
    ensures Pins(got, epoch) == []
  {
    if got != [] {
      PinsOfNone(got[..|got| - 1], epoch);
    }
  }

  lemma PinsOfOneMore(got: seq<Got>, g: Got, epoch: nat)
    ensures Pins(got + [g], epoch)
         == if g.epoch == epoch then Pins(got, epoch) + [R.PacketId(g.id, 0)] else Pins(got, epoch)
  {
    assert (got + [g])[..|got|] == got;
  }

  lemma {:induction false} PinsAre(got: seq<Got>, epoch: nat, x: R.PacketId)
    ensures x in Pins(got, epoch) <==> exists i :: 0 <= i < |got| && got[i].epoch == epoch && R.PacketId(got[i].id, 0) == x
  {
    if got != [] {
      var init, g := got[..|got| - 1], got[|got| - 1];
      PinsAre(init, epoch, x);
      if exists i :: 0 <= i < |got| && got[i].epoch == epoch && R.PacketId(got[i].id, 0) == x {
        var i :| 0 <= i < |got| && got[i].epoch == epoch && R.PacketId(got[i].id, 0) == x;
        assert i < |init| ==> init[i] == got[i];
      }
    }
  }

  ghost predicate Clocked(arrivals: seq<R.Arrival>) {
    forall i :: 0 <= i < |arrivals| ==> arrivals[i].now > R.SEQ_EXPIRED
  }

  /** The window is what these arrivals make of an empty one, and they made it accept just what was handed up. */
  ghost predicate Explains(net: Net, arrivals: seq<R.Arrival>, rec: R.Window, pins: seq<R.PacketId>) {
    Clocked(arrivals) && R.Run(R.Empty(net.backtrack, net.timeBacktrack), arrivals) == (rec, pins)
  }

  ghost predicate Explained(net: Net, rec: R.Window, pins: seq<R.PacketId>) {
    exists arrivals :: Explains(net, arrivals, rec, pins)
  }

  /** Both windows of a receiver are explained by what it handed up. */
  ghost predicate WindowsOk(net: Net, b: Peer, got: seq<Got>) {
    && (forall i :: 0 <= i < |got| ==> got[i].epoch <= b.decrypt.epoch)
    && Explained(net, b.rec, Pins(got, b.decrypt.epoch))
    && (b.retiring.epoch != 0 ==> Explained(net, b.retiringRec, Pins(got, b.retiring.epoch)))
  }

  lemma ExplainedCheck(net: Net, rec: R.Window, pins: seq<R.PacketId>, pin: R.PacketId, now: nat)
    requires Explained(net, rec, pins) && now > R.SEQ_EXPIRED
    ensures |rec.seen| <= rec.backtrack
    ensures var (w, isFresh) := R.Check(rec, pin, now); Explained(net, w, if isFresh then pins + [pin] else pins)
  {
    var e := R.Empty(net.backtrack, net.timeBacktrack);
    var arrivals :| Explains(net, arrivals, rec, pins);
    var more := arrivals + [R.Arrival(pin, now)];
    assert more[..|arrivals|] == arrivals;
    var (w, isFresh) := R.Check(rec, pin, now);
    assert Explains(net, more, w, if isFresh then pins + [pin] else pins);
  }

  lemma {:induction false} RunKeepsLimits(w: R.Window, arrivals: seq<R.Arrival>)
    requires |w.seen| <= w.backtrack
    ensures var r := R.Run(w, arrivals).0; r.backtrack == w.backtrack && r.timeBacktrack == w.timeBacktrack
    decreases |arrivals|
  {
    if arrivals != [] {
      RunKeepsLimits(w, arrivals[..|arrivals| - 1]);
    }
  }

  lemma ExplainedAfresh(net: Net, rec: R.Window, pins: seq<R.PacketId>)
    requires Explained(net, rec, pins)
    ensures Explained(net, R.Empty(rec.backtrack, rec.timeBacktrack), [])
  {
    var e := R.Empty(net.backtrack, net.timeBacktrack);
    var arrivals :| Explains(net, arrivals, rec, pins);
    RunKeepsLimits(e, arrivals);
    assert R.Empty(rec.backtrack, rec.timeBacktrack) == e;
    assert Explains(net, [], e, []);
  }

  lemma ReplayKeepsWindows(net: Net, s: Session, b: Peer, got: seq<Got>, epoch: nat, id: nat, now: nat, payload: Bytes)
    requires Inv(s, b) && Ready(b) && WindowsOk(net, b, got) && now > R.SEQ_EXPIRED
    requires epoch != 0 && !Lookup(b, epoch).NoKey? && CheckReplay(s, b, epoch, id, now).Checked?
    ensures var Checked(q, isFresh) := CheckReplay(s, b, epoch, id, now);
            WindowsOk(net, q, if isFresh then got + [Got(epoch, id, payload)] else got)
  {
    var pin, g := R.PacketId(id, 0), Got(epoch, id, payload);
    var Checked(q, isFresh) := CheckReplay(s, b, epoch, id, now);
    PinsOfOneMore(got, g, q.decrypt.epoch);
    PinsOfOneMore(got, g, q.retiring.epoch);
    match Lookup(b, epoch) {
      case Current => ExplainedCheck(net, b.rec, Pins(got, epoch), pin, now);
      case Retiring => ExplainedCheck(net, b.retiringRec, Pins(got, epoch), pin, now);
      case Future(_) =>
        SwitchKeepsThePreviousKey(s, b, epoch, id, now);
        PinsOfNone(got, epoch);
        ExplainedAfresh(net, b.rec, Pins(got, b.decrypt.epoch));
        ExplainedCheck(net, R.Empty(b.rec.backtrack, b.rec.timeBacktrack), [], pin, now);
    }
  }

  lemma ReceiveKeepsWindows(net: Net, s: Session, b: Peer, log: seq<Sent>, got: seq<Got>,
                            header: Bytes, body: Bytes, capacity: nat, now: nat, b': Peer, got': seq<Got>)
    requires Inv(s, b) && Ready(b) && WindowsOk(net, b, got)
    requires ReceiveStep(s, net.cipher, b, log, got, header, body, capacity, now, b', got')
    ensures WindowsOk(net, b', got')
  {
    DecryptCases(s, net.cipher, b, header, body, capacity, now);
    var r := Decrypt(s, net.cipher, b, header, body, capacity, now);
    if r != Dropped(b) {
      var (ref, epoch, id) := Selected(b, body);
      if PassesTag(net.cipher, b, header, body) {
        ReplayKeepsWindows(net, s, b, got, epoch, id, now, if r.Delivered? then r.payload else []);
      }
    }
  }

  lemma StepKeepsWindows(net: Net, w: World, action: Action, w': World, toB: bool)
    requires WorldInv(net, w) && Step(net, w, action, w') && WindowsOk(net, Receiver(w, toB), GotBy(w, toB))
    ensures WindowsOk(net, Receiver(w', toB), GotBy(w', toB))
  {
    var c := net.cipher;
    match action {
      case ASends(header, payload, capacity) => SendingKeepsReceiveSide(net.SessionA(), c, w.a, header, payload, capacity);
      case BSends(header, payload, capacity) => SendingKeepsReceiveSide(net.SessionB(), c, w.b, header, payload, capacity);
      case AReceives(header, body, capacity, now) =>
        if !toB {
          ReceiveKeepsWindows(net, net.SessionA(), w.a, w.sentB, w.gotA, header, body, capacity, now, w'.a, w'.gotA);
        }
      case BReceives(header, body, capacity, now) =>
        if toB {
          ReceiveKeepsWindows(net, net.SessionB(), w.b, w.sentA, w.gotB, header, body, capacity, now, w'.b, w'.gotB);
        }
    }
  }

  lemma {:induction false} RunKeepsWindows(net: Net, actions: seq<Action>, states: seq<World>, i: nat, toB: bool)
    requires net.Valid() && Run(net, actions, states) && i < |states|
    ensures WindowsOk(net, Receiver(states[i], toB), GotBy(states[i], toB))
  {
    if i == 0 {
      StartExplained(net, toB);
    } else {
      RunKeepsWindows(net, actions, states, i - 1, toB);
      StepAtKeepsWindows(net, actions, states, i - 1, toB);
    }
  }

  lemma StartExplained(net: Net, toB: bool)
    requires net.Valid()
    ensures WindowsOk(net, Receiver(Start(net), toB), GotBy(Start(net), toB))
  {
    assert Explains(net, [], R.Empty(net.backtrack, net.timeBacktrack), []);
  }

  lemma StepAtKeepsWindows(net: Net, actions: seq<Action>, states: seq<World>, i: nat, toB: bool)
    requires net.Valid() && Run(net, actions, states) && i < |actions|
    requires WindowsOk(net, Receiver(states[i], toB), GotBy(states[i], toB))
    ensures WindowsOk(net, Receiver(states[i + 1], toB), GotBy(states[i + 1], toB))
  {
    RunInv(net, actions, states, i);
    assert StepAt(net, actions, states, i);
    StepKeepsWindows(net, states[i], actions[i], states[i + 1], toB);
  }

  /** The packet that comes next after those handed up, by a window without a list. */
  predicate Follows(pins: seq<R.PacketId>, id: nat) {
    pins == [] || id == pins[|pins| - 1].id + 1
  }

  /** When a packet of an epoch is taken, by the arrivals that explain its window. */
  ghost predicate Taken(net: Net, arrivals: seq<R.Arrival>, pins: seq<R.PacketId>, id: nat, now: nat) {
    var pin := R.PacketId(id, 0);
    if net.backtrack == 0 then Follows(pins, id)
    else
      R.Fresh(R.Accepted(R.Empty(net.backtrack, net.timeBacktrack), arrivals), net.backtrack, net.timeBacktrack,
              R.LastReap(arrivals + [R.Arrival(pin, now)]), pin)
  }

  lemma {:induction false} PinsHaveNoTime(got: seq<Got>, epoch: nat)
    ensures forall i :: 0 <= i < |Pins(got, epoch)| ==> Pins(got, epoch)[i].time == 0
  {
    if got != [] {
      PinsHaveNoTime(got[..|got| - 1], epoch);
    }
  }

  lemma ExplainedTakes(net: Net, arrivals: seq<R.Arrival>, rec: R.Window, got: seq<Got>, epoch: nat, id: nat, now: nat)
    requires net.Valid() && Explains(net, arrivals, rec, Pins(got, epoch)) && id != 0
    ensures |rec.seen| <= rec.backtrack
    ensures R.Check(rec, R.PacketId(id, 0), now).1 <==> Taken(net, arrivals, Pins(got, epoch), id, now)
  {
    var next := R.Arrival(R.PacketId(id, 0), now);
    if net.backtrack == 0 {
      R.AcceptsExactlyTheNext(arrivals, next);
      PinsHaveNoTime(got, epoch);
    } else {
      R.AcceptsExactlyTheFresh(net.backtrack, net.timeBacktrack, arrivals, next);
    }
  }

  /** In every state of every run, for every packet ever sent of the receiver's current or previous epoch for
      which it has room and credit: some arrivals explain what the receiver handed up of that epoch, and the packet
      is delivered exactly when it is fresh after them. */
  lemma FreshPacketsAreDelivered(net: Net, actions: seq<Action>, states: seq<World>, i: nat, toB: bool, k: nat,
                                 capacity: nat, now: nat) returns (arrivals: seq<R.Arrival>)
    requires net.Valid() && Run(net, actions, states) && i < |states| && k < |LogTo(states[i], toB)| && now > R.SEQ_EXPIRED
    requires Openable(net.cipher, Receiver(states[i], toB), LogTo(states[i], toB)[k], capacity)
    ensures var b, x := Receiver(states[i], toB), LogTo(states[i], toB)[k];
            var pins := Pins(GotBy(states[i], toB), x.epoch);
            && Ready(b) && Clocked(arrivals)
            && R.Run(R.Empty(net.backtrack, net.timeBacktrack), arrivals).1 == pins
            && (Decrypt(SessionAt(net, toB), net.cipher, b, x.header, x.body, capacity, now).Delivered?
                <==> Taken(net, arrivals, pins, x.id, now))
  {
    var b, x, got := Receiver(states[i], toB), LogTo(states[i], toB)[k], GotBy(states[i], toB);
    RunInv(net, actions, states, i);
    RunKeepsWindows(net, actions, states, i, toB);
    OpenableOutcome(net, actions, states, i, toB, k, capacity, now);
    var rec := if x.epoch == b.decrypt.epoch then b.rec else b.retiringRec;
    arrivals :| Explains(net, arrivals, rec, Pins(got, x.epoch));
    ExplainedTakes(net, arrivals, rec, got, x.epoch, x.id, now);
  }

  /** Without a time limit, by what was handed up alone: such a packet is delivered exactly when it was not
      handed up before and nothing of its epoch that was lies `backtrack` or more ahead of it. */
  lemma DeliveredExactly(net: Net, actions: seq<Action>, states: seq<World>, i: nat, toB: bool, k: nat,
                         capacity: nat, now: nat)
    requires net.Valid() && net.backtrack > 0 && net.timeBacktrack == 0 && now > R.SEQ_EXPIRED
    requires Run(net, actions, states) && i < |states| && k < |LogTo(states[i], toB)|
    requires Openable(net.cipher, Receiver(states[i], toB), LogTo(states[i], toB)[k], capacity)
    ensures var b, x, got := Receiver(states[i], toB), LogTo(states[i], toB)[k], GotBy(states[i], toB);
            && Ready(b)
            && (Decrypt(SessionAt(net, toB), net.cipher, b, x.header, x.body, capacity, now).Delivered? <==>
                forall j :: 0 <= j < |got| && got[j].epoch == x.epoch ==> got[j].id != x.id && got[j].id < x.id + net.backtrack)
  {
    var x, got := LogTo(states[i], toB)[k], GotBy(states[i], toB);
    RunInv(net, actions, states, i);
    var arrivals := FreshPacketsAreDelivered(net, actions, states, i, toB, k, capacity, now);
    TakenWithoutTimeLimit(net, arrivals, got, x.epoch, x.id, now);
  }

  lemma TakenWithoutTimeLimit(net: Net, arrivals: seq<R.Arrival>, got: seq<Got>, epoch: nat, id: nat, now: nat)
    requires net.Valid() && net.backtrack > 0 && net.timeBacktrack == 0 && id != 0
    requires R.Run(R.Empty(net.backtrack, net.timeBacktrack), arrivals).1 == Pins(got, epoch)
    ensures Taken(net, arrivals, Pins(got, epoch), id, now) <==>
            forall j :: 0 <= j < |got| && got[j].epoch == epoch ==> got[j].id != id && got[j].id < id + net.backtrack
  {
    var accepted := R.Accepted(R.Empty(net.backtrack, net.timeBacktrack), arrivals);
    forall x: R.PacketId
      ensures x in accepted <==> exists j :: 0 <= j < |got| && got[j].epoch == epoch && R.PacketId(got[j].id, 0) == x
    {
      R.AcceptedAreRemembered(R.Empty(net.backtrack, net.timeBacktrack), arrivals, x);
      PinsAre(got, epoch, x);
    }
    forall j | 0 <= j < |got| && got[j].epoch == epoch
      ensures R.PacketId(got[j].id, 0) in accepted
    {
    }
  }

  // ---- Changes of the send key ---------------------------------------------------------------------

  /** In every run a send changes the key to that of the next epoch exactly when it must and there is one. */
  lemma SendChangesKeyExactly(net: Net, actions: seq<Action>, states: seq<World>, i: nat)
    requires net.Valid() && Run(net, actions, states) && i < |actions|
    ensures actions[i].ASends? ==>
              states[i + 1].a.encrypt.epoch
              == states[i].a.encrypt.epoch + if MustStep(states[i].a) && states[i].a.encrypt.epoch < UINT16_MAX then 1 else 0
    ensures actions[i].BSends? ==>
              states[i + 1].b.encrypt.epoch
              == states[i].b.encrypt.epoch + if MustStep(states[i].b) && states[i].b.encrypt.epoch < UINT16_MAX then 1 else 0
  {
    RunInv(net, actions, states, i);
    assert StepAt(net, actions, states, i);
    var w, c := states[i], net.cipher;
    match actions[i] {
      case ASends(header, payload, capacity) =>
        CheckSendStepsExactly(net.SessionA(), w.a);
        EncryptCases(net.SessionA(), c, w.a, header, payload, capacity);
      case BSends(header, payload, capacity) =>
        CheckSendStepsExactly(net.SessionB(), w.b);
        EncryptCases(net.SessionB(), c, w.b, header, payload, capacity);
      case _ =>
    }
  }

  /** A packet of a later epoch that is delivered takes the receiver along: its receive key is then that of the
      packet, and its send key at least of that epoch, changed only if it was behind. */
  lemma ReceiverFollows(net: Net, actions: seq<Action>, states: seq<World>, i: nat, toB: bool, k: nat,
                        capacity: nat, now: nat)
    requires net.Valid() && Run(net, actions, states) && i < |states| && k < |LogTo(states[i], toB)|
    requires LogTo(states[i], toB)[k].epoch > Receiver(states[i], toB).decrypt.epoch
    ensures var b, x := Receiver(states[i], toB), LogTo(states[i], toB)[k];
            && Ready(b)
            && var r := Decrypt(SessionAt(net, toB), net.cipher, b, x.header, x.body, capacity, now);
            r.Delivered? ==>
              r.peer.decrypt.epoch == x.epoch && r.peer.encrypt.epoch == Max(b.encrypt.epoch, x.epoch)
  {
    var b, x, c := Receiver(states[i], toB), LogTo(states[i], toB)[k], net.cipher;
    RunInv(net, actions, states, i);
    InvUsable(SessionAt(net, toB), b);
    OpensWithTheSealingKey(SessionAt(net, !toB), SessionAt(net, toB), c, b, x);
    PeerFollows(SessionAt(net, toB), c, b, x, capacity, now);
  }

  lemma PeerFollows(s: Session, c: Cipher, b: Peer, x: Sent, capacity: nat, now: nat)
    requires Inv(s, b) && Ready(b) && MinBody(Epoch) <= |x.body| && x.epoch > b.decrypt.epoch
    requires Selected(b, x.body) == (Lookup(b, x.epoch), x.epoch, x.id)
    ensures var r := Decrypt(s, c, b, x.header, x.body, capacity, now);
            r.Delivered? ==> r.peer.decrypt.epoch == x.epoch && r.peer.encrypt.epoch == Max(b.encrypt.epoch, x.epoch)
  {
    DecryptCases(s, c, b, x.header, x.body, capacity, now);
    if Lookup(b, x.epoch).Future? && CheckReplay(s, b, x.epoch, x.id, now).Checked? {
      SwitchKeepsThePreviousKey(s, b, x.epoch, x.id, now);
    }
  }

  // ---- Failed checks -------------------------------------------------------------------------------

  /** No receive key has failed more often than the limit and once more. */
  ghost predicate FewFailures(p: Peer) {
    && p.decrypt.failedVerifications <= 0x10_0000_0001 && p.retiring.failedVerifications <= 0x10_0000_0001
    && forall i :: 0 <= i < |p.future| ==> p.future[i].failedVerifications <= 0x10_0000_0001
  }

  lemma DecryptFewFailures(s: Session, c: Cipher, p: Peer, header: Bytes, body: Bytes, capacity: nat, now: nat)
    requires Ready(p) && FewFailures(p)
    ensures match Decrypt(s, c, p, header, body, capacity, now)
            case Aborted => true
            case Dropped(q) => FewFailures(q)
            case Delivered(q, payload) => FewFailures(q)
  {
    DecryptCases(s, c, p, header, body, capacity, now);
    if |body| >= MinBody(Epoch) {
      var (ref, epoch, id) := Selected(p, body);
      if epoch != 0 && ref.Future? && ReplaceCompletes(p, epoch) {
        ReplacedFewFailures(s, p, epoch);
      }
    }
  }

  lemma ReplacedFewFailures(s: Session, p: Peer, epoch: nat)
    requires FewFailures(p) && 1 <= p.decrypt.epoch < epoch <= p.decrypt.epoch + |p.future|
    ensures FewFailures(Replaced(s, p, epoch))
  {
  }

  lemma StepFewFailures(net: Net, w: World, action: Action, w': World)
    requires Step(net, w, action, w') && FewFailures(w.a) && FewFailures(w.b)
    ensures FewFailures(w'.a) && FewFailures(w'.b)
  {
    var c := net.cipher;
    match action {
      case ASends(header, payload, capacity) => SendingKeepsReceiveSide(net.SessionA(), c, w.a, header, payload, capacity);
      case BSends(header, payload, capacity) => SendingKeepsReceiveSide(net.SessionB(), c, w.b, header, payload, capacity);
      case AReceives(header, body, capacity, now) => DecryptFewFailures(net.SessionA(), c, w.a, header, body, capacity, now);
      case BReceives(header, body, capacity, now) => DecryptFewFailures(net.SessionB(), c, w.b, header, body, capacity, now);
    }
  }

  /** In every state of every run, whatever the network invents, no receive key of either peer has been tried
      on more than 2^36 + 1 packets that failed. */
  lemma {:induction false} FailuresStayWithinLimit(net: Net, actions: seq<Action>, states: seq<World>, i: nat)
    requires net.Valid() && Run(net, actions, states) && i < |states|
    ensures FewFailures(states[i].a) && FewFailures(states[i].b)
  {
    if i == 0 {
      StartFewFailures(net);
    } else {
      FailuresStayWithinLimit(net, actions, states, i - 1);
      StepAtFewFailures(net, actions, states, i - 1);
    }
  }

  lemma StartFewFailures(net: Net)
    requires net.Valid()
    ensures FewFailures(Start(net).a) && FewFailures(Start(net).b)
  {
  }

  lemma StepAtFewFailures(net: Net, actions: seq<Action>, states: seq<World>, i: nat)
    requires Steps(net, actions, states) && i < |actions| && FewFailures(states[i].a) && FewFailures(states[i].b)
    ensures FewFailures(states[i + 1].a) && FewFailures(states[i + 1].b)
  {
    assert StepAt(net, actions, states, i);
    StepFewFailures(net, states[i], actions[i], states[i + 1]);
  }

  /** A packet that fails its check counts against the key of its epoch, if that key may still be tried, and
      changes nothing else. */
  lemma FailureIsCounted(s: Session, c: Cipher, p: Peer, header: Bytes, body: Bytes, capacity: nat, now: nat)
    requires Inv(s, p) && Ready(p) && MinBody(Epoch) <= |body| && !PassesTag(c, p, header, body)
    ensures var (ref, epoch, id) := Selected(p, body);
            Decrypt(s, c, p, header, body, capacity, now)
            == if || ref.NoKey? || KeyOf(p, ref).failedVerifications > 0x10_0000_0000
                  || |body| - 8 + c.blockSize > capacity
               then Dropped(p)
               else Dropped(WithKey(p, ref, KeyOf(p, ref).(failedVerifications := KeyOf(p, ref).failedVerifications + 1)))
  {
  }
}

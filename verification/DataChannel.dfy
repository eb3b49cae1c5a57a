/** Two peers exchanging epoch data packets over a network that loses, reorders, repeats and
    invents packets. Whatever passes the tag check is a packet the other peer sealed; nothing
    else is assumed about the network. */
module DataChannel {
  import opened Bytes
  import opened Aead
  import opened EpochKeys
  import R = ReplayWindow

  /** A packet that left a peer; `used` is the usage of its key when encryption started. */
  datatype Sent = Sent(epoch: nat, id: nat, header: Bytes, payload: Bytes, body: Bytes, used: nat)

  /** A payload handed up by a peer, with the epoch and counter of its packet. */
  datatype Got = Got(epoch: nat, id: nat, payload: Bytes)

  datatype Net = Net(
    schedule: Schedule, cipher: Cipher,
    e1AtoB: Bytes, e1BtoA: Bytes,
    futureKeys: nat, limit: nat, backtrack: nat, timeBacktrack: nat)
  {
    ghost predicate Valid() {
      && Sound(cipher)
      && 1 <= futureKeys < UINT16_MAX
      && backtrack <= R.MAX_SEQ_BACKTRACK && timeBacktrack <= R.MAX_TIME_BACKTRACK
    }

    function SessionA(): Session {
      Session(schedule, e1AtoB, e1BtoA)
    }

    function SessionB(): Session {
      Session(schedule, e1BtoA, e1AtoB)
    }
  }

  datatype World = World(a: Peer, b: Peer, sentA: seq<Sent>, sentB: seq<Sent>, gotA: seq<Got>, gotB: seq<Got>)

  datatype Action =
    | ASends(header: Bytes, payload: Bytes, capacity: nat)
    | BSends(header: Bytes, payload: Bytes, capacity: nat)
    | AReceives(header: Bytes, body: Bytes, capacity: nat, now: nat)
    | BReceives(header: Bytes, body: Bytes, capacity: nat, now: nat)

  function Start(net: Net): World
    requires 1 <= net.futureKeys
  {
    World(Initial(net.SessionA(), net.futureKeys, net.limit, net.backtrack, net.timeBacktrack),
          Initial(net.SessionB(), net.futureKeys, net.limit, net.backtrack, net.timeBacktrack),
          [], [], [], [])
  }

  /** A peer encrypts a payload, does not abort, and the packet goes on record. */
  ghost predicate SendStep(s: Session, c: Cipher, p: Peer, log: seq<Sent>,
                           header: Bytes, payload: Bytes, capacity: nat, p': Peer, log': seq<Sent>)
    requires Usable(p)
  {
    var (q, body) := Encrypt(s, c, p, header, payload, capacity);
    && payload != [] && !EncryptAborts(s, p, header, capacity)
    && p' == q
    && log' == match body
               case None => log
               case Some(bytes) =>
                 log + [Sent(q.encrypt.epoch, q.sendId, header, payload, bytes,
                             CheckSend(s, p).encrypt.plaintextBlocks + CheckSend(s, p).sendId)]
  }

  /** The bytes pass the tag check under the key that the peer selects for them. */
  ghost predicate PassesTag(c: Cipher, p: Peer, header: Bytes, body: Bytes)
    requires Usable(p) && p.format.Epoch?
  {
    && MinBody(Epoch) <= |body|
    && var (ref, epoch, id) := Selected(p, body);
       && !ref.NoKey?
       && OpenBody(c, Epoch, KeyOf(p, ref).cipherKey, KeyOf(p, ref).implicitIv, header, body).Some?
  }

  ghost predicate OnRecord(log: seq<Sent>, header: Bytes, body: Bytes) {
    exists k :: 0 <= k < |log| && log[k].header == header && log[k].body == body
  }

  /** A peer receives bytes from the network and does not abort. */
  ghost predicate ReceiveStep(s: Session, c: Cipher, p: Peer, log: seq<Sent>, got: seq<Got>,
                              header: Bytes, body: Bytes, capacity: nat, now: nat, p': Peer, got': seq<Got>)
    requires Usable(p) && p.format.Epoch? && 1 <= p.decrypt.epoch
  {
    && now > R.SEQ_EXPIRED
    && (PassesTag(c, p, header, body) ==> OnRecord(log, header, body))
    && match Decrypt(s, c, p, header, body, capacity, now)
       case Aborted => false
       case Dropped(q) => p' == q && got' == got
       case Delivered(q, payload) =>
         var (ref, epoch, id) := Selected(p, body);
         p' == q && got' == got + [Got(epoch, id, payload)]
  }

  ghost predicate Ready(p: Peer) {
    Usable(p) && p.format.Epoch? && 1 <= p.decrypt.epoch
  }

  ghost predicate Step(net: Net, w: World, action: Action, w': World) {
    Ready(w.a) && Ready(w.b) &&
    match action
    case ASends(header, payload, capacity) =>
      && SendStep(net.SessionA(), net.cipher, w.a, w.sentA, header, payload, capacity, w'.a, w'.sentA)
      && w' == w.(a := w'.a, sentA := w'.sentA)
    case BSends(header, payload, capacity) =>
      && SendStep(net.SessionB(), net.cipher, w.b, w.sentB, header, payload, capacity, w'.b, w'.sentB)
      && w' == w.(b := w'.b, sentB := w'.sentB)
    case AReceives(header, body, capacity, now) =>
      && ReceiveStep(net.SessionA(), net.cipher, w.a, w.sentB, w.gotA, header, body, capacity, now, w'.a, w'.gotA)
      && w' == w.(a := w'.a, gotA := w'.gotA)
    case BReceives(header, body, capacity, now) =>
      && ReceiveStep(net.SessionB(), net.cipher, w.b, w.sentA, w.gotB, header, body, capacity, now, w'.b, w'.gotB)
      && w' == w.(b := w'.b, gotB := w'.gotB)
  }

  /** A run: `states` starts at `Start` and each action leads from one state to the next. */
  ghost predicate Run(net: Net, actions: seq<Action>, states: seq<World>)
    requires net.Valid()
  {
    Steps(net, actions, states) && states[0] == Start(net)
  }

  ghost predicate Steps(net: Net, actions: seq<Action>, states: seq<World>) {
    && |states| == |actions| + 1
    && forall i :: 0 <= i < |actions| ==> StepAt(net, actions, states, i)
  }

  ghost predicate StepAt(net: Net, actions: seq<Action>, states: seq<World>, i: nat)
    requires i < |actions| && |states| == |actions| + 1
  {
    Step(net, states[i], actions[i], states[i + 1])
  }

  /** A record in the log is a packet sealed with the key of its epoch. */
  ghost predicate Genuine(s: Session, c: Cipher, x: Sent) {
    && 1 <= x.epoch <= UINT16_MAX && 1 <= x.id <= PACKET_ID_EPOCH_MAX && x.payload != []
    && var key := KeyAt(s, s.sendE1, x.epoch);
       x.body == SealBody(c, Epoch, key.cipherKey, key.implicitIv, x.header, IdBytes(Epoch, x.epoch, x.id), x.payload)
  }

  /** Lexicographic order on epoch and counter. */
  predicate Earlier(epoch1: nat, id1: nat, epoch2: nat, id2: nat) {
    epoch1 < epoch2 || (epoch1 == epoch2 && id1 < id2)
  }

  ghost predicate LogOk(s: Session, c: Cipher, a: Peer, log: seq<Sent>) {
    && (forall k :: 0 <= k < |log| ==> Genuine(s, c, log[k]))
    && (forall j, k :: 0 <= j < k < |log| ==> Earlier(log[j].epoch, log[j].id, log[k].epoch, log[k].id))
    && (forall k :: 0 <= k < |log| ==> !Earlier(a.encrypt.epoch, a.sendId, log[k].epoch, log[k].id))
    && (forall k :: 0 <= k < |log| && log[k].epoch < UINT16_MAX && a.limit > 0 ==> log[k].used <= a.limit)
  }

  /** Everything handed up is marked in the window of its epoch, or its epoch is out of reach. */
  ghost predicate Marked(b: Peer, g: Got) {
    && 1 <= g.epoch <= b.decrypt.epoch
    && (g.epoch == b.decrypt.epoch ==> R.Spent(b.rec, R.PacketId(g.id, 0)))
    && (g.epoch == b.retiring.epoch ==> R.Spent(b.retiringRec, R.PacketId(g.id, 0)))
  }

  ghost predicate SentAs(x: Sent, g: Got) {
    x.epoch == g.epoch && x.id == g.id && x.payload == g.payload
  }

  ghost predicate AllMarked(b: Peer, got: seq<Got>) {
    forall i :: 0 <= i < |got| ==> Marked(b, got[i])
  }

  ghost predicate SamePacket(g: Got, h: Got) {
    g.epoch == h.epoch && g.id == h.id
  }

  ghost predicate Distinct(got: seq<Got>) {
    forall i, j :: 0 <= i < j < |got| ==> !SamePacket(got[i], got[j])
  }

  ghost predicate WasSent(log: seq<Sent>, g: Got) {
    exists k :: 0 <= k < |log| && SentAs(log[k], g)
  }

  ghost predicate GotOk(b: Peer, log: seq<Sent>, got: seq<Got>) {
    && AllMarked(b, got)
    && Distinct(got)
    && forall i :: 0 <= i < |got| ==> WasSent(log, got[i])
  }

  /** One direction of the channel, from `a` to `b`. */
  ghost predicate Direction(sa: Session, sb: Session, c: Cipher, a: Peer, b: Peer, log: seq<Sent>, got: seq<Got>) {
    && LogOk(sa, c, a, log)
    && GotOk(b, log, got)
    && b.decrypt.epoch <= a.encrypt.epoch
  }

  ghost predicate SetUp(net: Net, p: Peer) {
    p.limit == net.limit && |p.future| == net.futureKeys
  }

  ghost predicate WorldInv(net: Net, w: World) {
    && SetUp(net, w.a) && SetUp(net, w.b)
    && Inv(net.SessionA(), w.a) && Inv(net.SessionB(), w.b)
    && Direction(net.SessionA(), net.SessionB(), net.cipher, w.a, w.b, w.sentA, w.gotB)
    && Direction(net.SessionB(), net.SessionA(), net.cipher, w.b, w.a, w.sentB, w.gotA)
    && WithinBudget(net.cipher, w.a, w.sentA) && WithinBudget(net.cipher, w.b, w.sentB)
  }

  lemma InvUsable(s: Session, p: Peer)
    requires Inv(s, p)
    ensures Ready(p)
  {
    forall i | 0 <= i < |p.future|
      ensures MIN_IV_LENGTH <= |p.future[i].implicitIv|
    {
      assert IsKeyAt(s, s.recvE1, p.future[i], p.decrypt.epoch + 1 + i);
    }
  }

  /** The send position of a peer never goes back. */
  ghost predicate SendAdvanced(p: Peer, q: Peer) {
    q.limit == p.limit && |q.future| == |p.future| && !Earlier(q.encrypt.epoch, q.sendId, p.encrypt.epoch, p.sendId)
  }

  /** The send key of a peer is as it was, or a later one not used yet. */
  ghost predicate SendKept(p: Peer, q: Peer) {
    && q.limit == p.limit && |q.future| == |p.future|
    && (|| (q.encrypt == p.encrypt && q.sendId == p.sendId)
        || (q.encrypt.epoch > p.encrypt.epoch && q.encrypt.plaintextBlocks == 0 && q.sendId == 0))
  }

  /** What the last packet on record cost the key of `epoch`. */
  function LastCost(c: Cipher, log: seq<Sent>, epoch: nat): nat {
    if log == [] || log[|log| - 1].epoch != epoch then 0 else Cost(c, log[|log| - 1].payload)
  }

  /** The usage of the send key: with a limit, packets and blocks together stay within one packet of it. */
  ghost predicate WithinBudget(c: Cipher, p: Peer, log: seq<Sent>) {
    p.limit > 0 && p.encrypt.epoch < UINT16_MAX ==>
      p.encrypt.plaintextBlocks + p.sendId <= p.limit + 1 + LastCost(c, log, p.encrypt.epoch)
  }

  lemma SendKeepsBudget(s: Session, c: Cipher, p: Peer, log: seq<Sent>,
                        header: Bytes, payload: Bytes, capacity: nat, p': Peer, log': seq<Sent>)
    requires Inv(s, p) && Usable(p) && SendStep(s, c, p, log, header, payload, capacity, p', log')
    ensures WithinBudget(c, p', log')
  {
    CheckSendBounds(s, p);
    EncryptCases(s, c, p, header, payload, capacity);
  }

  lemma LogSurvivesAdvance(s: Session, c: Cipher, p: Peer, q: Peer, log: seq<Sent>)
    requires LogOk(s, c, p, log) && SendAdvanced(p, q)
    ensures LogOk(s, c, q, log)
  {
  }

  /** A key that has counted more blocks is still the key of its epoch. */
  lemma UseKeepsInv(s: Session, p: Peer, id: nat, blocks: nat)
    requires Inv(s, p) && id <= PACKET_ID_EPOCH_MAX
    ensures Inv(s, p.(sendId := id, encrypt := p.encrypt.(plaintextBlocks := blocks)))
  {
  }

  /** The three ways encryption ends, after the check of the send key. */
  lemma EncryptCases(s: Session, c: Cipher, p: Peer, header: Bytes, payload: Bytes, capacity: nat)
    requires Usable(p) && p.format.Epoch?
    ensures var p1 := CheckSend(s, p);
            var (q, body) := Encrypt(s, c, p, header, payload, capacity);
            if p1.sendId == PACKET_ID_EPOCH_MAX then q == p1 && body.None?
            else
              var used := if body.None? then 0 else Cost(c, payload);
              && q == p1.(sendId := p1.sendId + 1,
                          encrypt := p1.encrypt.(plaintextBlocks := p1.encrypt.plaintextBlocks + used))
              && (body.None?
                  || body.value == SealBody(c, Epoch, p1.encrypt.cipherKey, p1.encrypt.implicitIv, header,
                                            IdBytes(Epoch, p1.encrypt.epoch, p1.sendId + 1), payload))
  {
  }

  /** What encrypting does to the peer, to the position and to the key usage. */
  lemma EncryptEffect(s: Session, c: Cipher, p: Peer, header: Bytes, payload: Bytes, capacity: nat)
    requires Inv(s, p) && Usable(p) && payload != []
    ensures var (q, body) := Encrypt(s, c, p, header, payload, capacity);
            && Inv(s, q) && SendAdvanced(p, q)
            && q == p.(encrypt := q.encrypt, sendKey := q.sendKey, sendId := q.sendId)
            && (body.Some? ==>
                  && Earlier(p.encrypt.epoch, p.sendId, q.encrypt.epoch, q.sendId)
                  && (q.encrypt.epoch < UINT16_MAX && p.limit > 0 ==>
                        CheckSend(s, p).encrypt.plaintextBlocks + CheckSend(s, p).sendId <= p.limit))
  {
    CheckSendBounds(s, p);
    EncryptCases(s, c, p, header, payload, capacity);
    var p1 := CheckSend(s, p);
    var (q, body) := Encrypt(s, c, p, header, payload, capacity);
    if p1.sendId < PACKET_ID_EPOCH_MAX {
      UseKeepsInv(s, p1, p1.sendId + 1, q.encrypt.plaintextBlocks);
      assert q == p1.(sendId := p1.sendId + 1, encrypt := p1.encrypt.(plaintextBlocks := q.encrypt.plaintextBlocks));
    }
  }

  lemma EncryptIsGenuine(s: Session, c: Cipher, p: Peer, header: Bytes, payload: Bytes, capacity: nat, used: nat)
    requires Inv(s, p) && Usable(p) && payload != []
    ensures var (q, body) := Encrypt(s, c, p, header, payload, capacity);
            body.Some? ==> Genuine(s, c, Sent(q.encrypt.epoch, q.sendId, header, payload, body.value, used))
  {
    CheckSendBounds(s, p);
    EncryptCases(s, c, p, header, payload, capacity);
    var p1 := CheckSend(s, p);
    assert IsKeyAt(s, s.sendE1, p1.encrypt, p1.encrypt.epoch);
  }

  lemma SendKeepsLog(s: Session, c: Cipher, p: Peer, log: seq<Sent>,
                     header: Bytes, payload: Bytes, capacity: nat, p': Peer, log': seq<Sent>)
    requires Inv(s, p) && Usable(p) && LogOk(s, c, p, log)
    requires SendStep(s, c, p, log, header, payload, capacity, p', log')
    ensures Inv(s, p') && LogOk(s, c, p', log') && SendAdvanced(p, p') && log <= log'
    ensures p' == p.(encrypt := p'.encrypt, sendKey := p'.sendKey, sendId := p'.sendId)
  {
    EncryptEffect(s, c, p, header, payload, capacity);
    LogSurvivesAdvance(s, c, p, p', log);
    var (q, body) := Encrypt(s, c, p, header, payload, capacity);
    if body.Some? {
      var used := CheckSend(s, p).encrypt.plaintextBlocks + CheckSend(s, p).sendId;
      EncryptIsGenuine(s, c, p, header, payload, capacity, used);
      LogGrows(s, c, p, p', log, Sent(q.encrypt.epoch, q.sendId, header, payload, body.value, used));
    }
  }

  /** A packet at the new position of the sender goes behind those at or before the old one. */
  lemma LogGrows(s: Session, c: Cipher, p: Peer, q: Peer, log: seq<Sent>, x: Sent)
    requires LogOk(s, c, p, log) && LogOk(s, c, q, log) && Genuine(s, c, x)
    requires x.epoch == q.encrypt.epoch && x.id == q.sendId && Earlier(p.encrypt.epoch, p.sendId, x.epoch, x.id)
    requires x.epoch < UINT16_MAX && q.limit > 0 ==> x.used <= q.limit
    ensures LogOk(s, c, q, log + [x])
  {
  }

  /** The receiver opens a packet on record with the material it was sealed with. */
  lemma OpensWithTheSealingKey(sa: Session, sb: Session, c: Cipher, b: Peer, x: Sent)
    requires Sound(c) && Inv(sb, b) && Ready(b) && Genuine(sa, c, x)
    requires sa.schedule == sb.schedule && sa.sendE1 == sb.recvE1
    ensures MinBody(Epoch) <= |x.body|
    ensures Selected(b, x.body) == (Lookup(b, x.epoch), x.epoch, x.id)
    ensures var ref := Lookup(b, x.epoch);
            !ref.NoKey? ==>
              && IsKeyAt(sa, sa.sendE1, KeyOf(b, ref), x.epoch)
              && OpenBody(c, Epoch, KeyOf(b, ref).cipherKey, KeyOf(b, ref).implicitIv, x.header, x.body) == Some(x.payload)
  {
    var key := KeyAt(sa, sa.sendE1, x.epoch);
    var id := IdBytes(Epoch, x.epoch, x.id);
    OpenUndoesSeal(c, Epoch, key.cipherKey, key.implicitIv, x.header, id, x.payload);
    ReadEpochUndoesWrite(x.epoch, x.id);
    LookupFindsTheEpochKey(sb, b, x.epoch);
    SameKeys(sa, sb, x.epoch);
  }

  lemma SameKeys(sa: Session, sb: Session, n: nat)
    requires sa.schedule == sb.schedule && sa.sendE1 == sb.recvE1 && n >= 1
    ensures KeyAt(sa, sa.sendE1, n) == KeyAt(sb, sb.recvE1, n)
  {
  }

  /** The invariant, the send side and everything the marks depend on are kept. */
  ghost predicate Unmoved(s: Session, b: Peer, q: Peer) {
    && Inv(s, q) && SendKept(b, q)
    && q.decrypt.epoch == b.decrypt.epoch && q.retiring.epoch == b.retiring.epoch
    && q.rec == b.rec && q.retiringRec == b.retiringRec
  }

  lemma ReceiveFailureKeepsInv(s: Session, b: Peer, failures: nat)
    requires Inv(s, b)
    ensures Unmoved(s, b, b.(decrypt := b.decrypt.(failedVerifications := failures)))
    ensures Unmoved(s, b, b.(retiring := b.retiring.(failedVerifications := failures)))
  {
  }

  lemma FutureFailureKeepsInv(s: Session, b: Peer, k: nat, failures: nat)
    requires Inv(s, b) && k < |b.future|
    ensures Unmoved(s, b, b.(future := b.future[k := b.future[k].(failedVerifications := failures)]))
  {
    var future := b.future[k := b.future[k].(failedVerifications := failures)];
    forall i | 0 <= i < |future|
      ensures IsKeyAt(s, s.recvE1, future[i], b.decrypt.epoch + 1 + i)
    {
      assert IsKeyAt(s, s.recvE1, b.future[i], b.decrypt.epoch + 1 + i);
    }
  }

  /** Counting a failed verification keeps invariant and marks. */
  lemma FailureKeepsInv(s: Session, b: Peer, ref: KeyRef, failures: nat)
    requires Inv(s, b) && !ref.NoKey? && (ref.Future? ==> ref.index < |b.future|)
    ensures Unmoved(s, b, WithKey(b, ref, KeyOf(b, ref).(failedVerifications := failures)))
  {
    match ref {
      case Current => ReceiveFailureKeepsInv(s, b, failures);
      case Retiring => ReceiveFailureKeepsInv(s, b, failures);
      case Future(i) => FutureFailureKeepsInv(s, b, i, failures);
    }
  }

  /** A window that has been checked keeps the invariant of the peer. */
  lemma WindowsKeepInv(s: Session, p: Peer, rec: R.Window, retiringRec: R.Window)
    requires Inv(s, p) && rec.Valid() && retiringRec.Valid()
    ensures Inv(s, p.(rec := rec, retiringRec := retiringRec))
  {
  }

  /** The replay check as seen by the records of the receiver: nothing handed up before is
      fresh again, and a fresh packet is marked. */
  lemma ReplayMarks(s: Session, b: Peer, epoch: nat, id: nat, now: nat, g: Got, payload: Bytes)
    requires Inv(s, b) && Ready(b) && 1 <= epoch <= UINT16_MAX && !Lookup(b, epoch).NoKey? && now > R.SEQ_EXPIRED
    requires CheckReplay(s, b, epoch, id, now).Checked?
    ensures var Checked(q, isFresh) := CheckReplay(s, b, epoch, id, now);
            && (Marked(b, g) ==> Marked(q, g))
            && (isFresh && Marked(b, g) ==> !SamePacket(g, Got(epoch, id, payload)))
            && (isFresh ==> Marked(q, Got(epoch, id, payload)))
  {
    var pin := R.PacketId(id, 0);
    var old_ := R.PacketId(g.id, 0);
    if b.decrypt.epoch == epoch {
      R.CheckIsMonotone(b.rec, pin, now, old_);
      if R.Spent(b.rec, old_) { R.SpentIsRejected(b.rec, old_); }
    } else if epoch == b.retiring.epoch {
      R.CheckIsMonotone(b.retiringRec, pin, now, old_);
      if R.Spent(b.retiringRec, old_) { R.SpentIsRejected(b.retiringRec, old_); }
    } else {
      var q := Replaced(s, b, epoch);
      ReplacedInv(s, b, epoch);
      R.CheckIsMonotone(q.rec, pin, now, old_);
    }
  }

  lemma ReplayKeepsInv(s: Session, b: Peer, epoch: nat, id: nat, now: nat)
    requires Inv(s, b) && Ready(b) && 1 <= epoch <= UINT16_MAX && !Lookup(b, epoch).NoKey? && now > R.SEQ_EXPIRED
    requires CheckReplay(s, b, epoch, id, now).Checked?
    ensures var q := CheckReplay(s, b, epoch, id, now).peer;
            && Inv(s, q) && SendKept(b, q)
            && (q.decrypt.epoch == b.decrypt.epoch || q.decrypt.epoch == epoch)
  {
    var pin := R.PacketId(id, 0);
    if b.decrypt.epoch == epoch {
      R.CheckIsMonotone(b.rec, pin, now, pin);
      WindowsKeepInv(s, b, R.Check(b.rec, pin, now).0, b.retiringRec);
    } else if epoch == b.retiring.epoch {
      R.CheckIsMonotone(b.retiringRec, pin, now, pin);
      WindowsKeepInv(s, b, b.rec, R.Check(b.retiringRec, pin, now).0);
    } else {
      var q := Replaced(s, b, epoch);
      ReplacedInv(s, b, epoch);
      R.CheckIsMonotone(q.rec, pin, now, pin);
      WindowsKeepInv(s, q, R.Check(q.rec, pin, now).0, q.retiringRec);
    }
  }

  /** The ways decryption ends: nothing happens, a failure is counted, or the replay check decides. */
  lemma DecryptCases(s: Session, c: Cipher, b: Peer, header: Bytes, body: Bytes, capacity: nat, now: nat)
    requires Ready(b)
    ensures var r := Decrypt(s, c, b, header, body, capacity, now);
            || r == Dropped(b)
            || (&& MinBody(Epoch) <= |body|
                && var (ref, epoch, id) := Selected(b, body);
                   && ref == Lookup(b, epoch) && !ref.NoKey? && epoch != 0
                   && if PassesTag(c, b, header, body) then
                        var payload := OpenBody(c, Epoch, KeyOf(b, ref).cipherKey, KeyOf(b, ref).implicitIv, header, body).value;
                        r == Finished(CheckReplay(s, b, epoch, id, now), Blocks(c.finalLength(|payload|)), payload)
                      else
                        r == Dropped(WithKey(b, ref, KeyOf(b, ref).(failedVerifications := KeyOf(b, ref).failedVerifications + 1))))
  {
  }

  lemma SameMarks(b: Peer, b': Peer, log: seq<Sent>, got: seq<Got>)
    requires GotOk(b, log, got)
    requires b'.decrypt.epoch == b.decrypt.epoch && b'.retiring.epoch == b.retiring.epoch
    requires b'.rec == b.rec && b'.retiringRec == b.retiringRec
    ensures GotOk(b', log, got)
  {
    forall i | 0 <= i < |got|
      ensures Marked(b', got[i])
    {
      assert Marked(b, got[i]);
    }
  }

  /** One receive step of `b` keeps the direction from `a` to `b`. */
  lemma ReceiveKeepsDirection(sa: Session, sb: Session, c: Cipher, a: Peer, b: Peer, log: seq<Sent>, got: seq<Got>,
                              header: Bytes, body: Bytes, capacity: nat, now: nat, b': Peer, got': seq<Got>)
    requires Sound(c) && sa.schedule == sb.schedule && sa.sendE1 == sb.recvE1
    requires Inv(sb, b) && Ready(b) && Direction(sa, sb, c, a, b, log, got)
    requires ReceiveStep(sb, c, b, log, got, header, body, capacity, now, b', got')
    ensures Inv(sb, b') && SendKept(b, b')
    ensures Direction(sa, sb, c, a, b', log, got')
  {
    ReceiveCases(sb, c, b, log, got, header, body, capacity, now, b', got');
    if b' == b && got' == got {
    } else if PassesTag(c, b, header, body) {
      PassedKeepsDirection(sa, sb, c, a, b, log, got, header, body, capacity, now, b', got');
    } else {
      var (ref, epoch, id) := Selected(b, body);
      FailedKeepsDirection(sa, sb, c, a, b, log, got, ref, epoch, b');
    }
  }

  /** A received packet changes nothing, or passes the tag check, or counts as a failure of the selected key. */
  lemma ReceiveCases(s: Session, c: Cipher, b: Peer, log: seq<Sent>, got: seq<Got>,
                     header: Bytes, body: Bytes, capacity: nat, now: nat, b': Peer, got': seq<Got>)
    requires Ready(b) && ReceiveStep(s, c, b, log, got, header, body, capacity, now, b', got')
    ensures || (b' == b && got' == got)
            || (PassesTag(c, b, header, body) && Decrypt(s, c, b, header, body, capacity, now) != Dropped(b))
            || (&& !PassesTag(c, b, header, body) && got' == got && MinBody(Epoch) <= |body|
                && var (ref, epoch, id) := Selected(b, body);
                   && ref == Lookup(b, epoch) && !ref.NoKey? && epoch != 0 && Failed(b, ref, b'))
  {
    DecryptCases(s, c, b, header, body, capacity, now);
  }

  ghost predicate Failed(b: Peer, ref: KeyRef, b': Peer)
    requires Usable(b) && !ref.NoKey? && (ref.Future? ==> ref.index < |b.future|)
  {
    b' == WithKey(b, ref, KeyOf(b, ref).(failedVerifications := KeyOf(b, ref).failedVerifications + 1))
  }

  /** A packet that passes the tag check is one from the log. */
  lemma PassedKeepsDirection(sa: Session, sb: Session, c: Cipher, a: Peer, b: Peer, log: seq<Sent>, got: seq<Got>,
                             header: Bytes, body: Bytes, capacity: nat, now: nat, b': Peer, got': seq<Got>)
    requires Sound(c) && sa.schedule == sb.schedule && sa.sendE1 == sb.recvE1
    requires Inv(sb, b) && Ready(b) && Direction(sa, sb, c, a, b, log, got)
    requires ReceiveStep(sb, c, b, log, got, header, body, capacity, now, b', got')
    requires PassesTag(c, b, header, body) && Decrypt(sb, c, b, header, body, capacity, now) != Dropped(b)
    ensures Inv(sb, b') && SendKept(b, b')
    ensures Direction(sa, sb, c, a, b', log, got')
  {
    DecryptCases(sb, c, b, header, body, capacity, now);
    var k :| 0 <= k < |log| && log[k].header == header && log[k].body == body;
    OpensWithTheSealingKey(sa, sb, c, b, log[k]);
    var q := CheckReplay(sb, b, log[k].epoch, log[k].id, now).peer;
    AcceptedKeepsDirection(sa, sb, c, a, b, log, got, k, now, q, got');
    CountedKeepsDirection(sa, sb, c, a, q, log, got', Blocks(c.finalLength(|log[k].payload|)));
  }

  lemma CountedKeepsDirection(sa: Session, sb: Session, c: Cipher, a: Peer, b: Peer, log: seq<Sent>, got: seq<Got>, blocks: nat)
    requires Inv(sb, b) && Direction(sa, sb, c, a, b, log, got)
    ensures Inv(sb, Counted(b, blocks)) && SendKept(b, Counted(b, blocks))
    ensures Direction(sa, sb, c, a, Counted(b, blocks), log, got)
  {
    CountedKeepsInv(sb, b, blocks);
    SameMarks(b, Counted(b, blocks), log, got);
  }

  /** One that fails it only counts against its key. */
  lemma FailedKeepsDirection(sa: Session, sb: Session, c: Cipher, a: Peer, b: Peer, log: seq<Sent>, got: seq<Got>,
                             ref: KeyRef, epoch: nat, b': Peer)
    requires Inv(sb, b) && Ready(b) && Direction(sa, sb, c, a, b, log, got)
    requires ref == Lookup(b, epoch) && !ref.NoKey? && epoch != 0 && Failed(b, ref, b')
    ensures Inv(sb, b') && SendKept(b, b') && Direction(sa, sb, c, a, b', log, got)
  {
    FailureKeepsInv(sb, b, ref, KeyOf(b, ref).failedVerifications + 1);
    SameMarks(b, b', log, got);
  }

  lemma AcceptedKeepsDirection(sa: Session, sb: Session, c: Cipher, a: Peer, b: Peer, log: seq<Sent>, got: seq<Got>,
                               k: nat, now: nat, b': Peer, got': seq<Got>)
    requires Inv(sb, b) && Ready(b) && Direction(sa, sb, c, a, b, log, got)
    requires k < |log| && now > R.SEQ_EXPIRED && !Lookup(b, log[k].epoch).NoKey?
    requires CheckReplay(sb, b, log[k].epoch, log[k].id, now).Checked?
    requires var Checked(q, isFresh) := CheckReplay(sb, b, log[k].epoch, log[k].id, now);
             b' == q && got' == if isFresh then got + [Got(log[k].epoch, log[k].id, log[k].payload)] else got
    ensures Inv(sb, b') && SendKept(b, b')
    ensures Direction(sa, sb, c, a, b', log, got')
  {
    assert Genuine(sa, c, log[k]) && log[k].epoch <= a.encrypt.epoch;
    ReplayKeepsInv(sb, b, log[k].epoch, log[k].id, now);
    AcceptedKeepsGot(sb, b, log, got, k, now);
  }

  lemma AcceptedKeepsGot(sb: Session, b: Peer, log: seq<Sent>, got: seq<Got>, k: nat, now: nat)
    requires Inv(sb, b) && Ready(b) && GotOk(b, log, got)
    requires k < |log| && 1 <= log[k].epoch <= UINT16_MAX && now > R.SEQ_EXPIRED && !Lookup(b, log[k].epoch).NoKey?
    requires CheckReplay(sb, b, log[k].epoch, log[k].id, now).Checked?
    ensures var Checked(q, isFresh) := CheckReplay(sb, b, log[k].epoch, log[k].id, now);
            GotOk(q, log, if isFresh then got + [Got(log[k].epoch, log[k].id, log[k].payload)] else got)
  {
    var x := log[k];
    var g := Got(x.epoch, x.id, x.payload);
    var Checked(q, isFresh) := CheckReplay(sb, b, x.epoch, x.id, now);
    forall i | 0 <= i < |got|
      ensures Marked(q, got[i]) && (isFresh ==> !SamePacket(got[i], g))
    {
      ReplayMarks(sb, b, x.epoch, x.id, now, got[i], x.payload);
    }
    ReplayMarks(sb, b, x.epoch, x.id, now, g, x.payload);
    assert SentAs(x, g);
    assert WasSent(log, g);
  }

  lemma GotSurvivesLonger(b: Peer, log: seq<Sent>, log': seq<Sent>, got: seq<Got>)
    requires GotOk(b, log, got) && log <= log'
    ensures GotOk(b, log', got)
  {
    forall i | 0 <= i < |got|
      ensures WasSent(log', got[i])
    {
      var k :| 0 <= k < |log| && SentAs(log[k], got[i]);
      assert log'[k] == log[k];
    }
  }

  /** Sending by `a` keeps both directions. */
  lemma SendKeepsDirections(sa: Session, sb: Session, c: Cipher, a: Peer, b: Peer,
                            logA: seq<Sent>, logB: seq<Sent>, gotA: seq<Got>, gotB: seq<Got>,
                            header: Bytes, payload: Bytes, capacity: nat, a': Peer, logA': seq<Sent>)
    requires Inv(sa, a) && Usable(a)
    requires Direction(sa, sb, c, a, b, logA, gotB) && Direction(sb, sa, c, b, a, logB, gotA)
    requires SendStep(sa, c, a, logA, header, payload, capacity, a', logA')
    ensures Inv(sa, a') && SendAdvanced(a, a')
    ensures Direction(sa, sb, c, a', b, logA', gotB) && Direction(sb, sa, c, b, a', logB, gotA)
  {
    SendKeepsLog(sa, c, a, logA, header, payload, capacity, a', logA');
    GotSurvivesLonger(b, logA, logA', gotB);
    SameMarks(a, a', logB, gotA);
  }

  /** Receiving by `b` keeps both directions. */
  lemma ReceiveKeepsDirections(sa: Session, sb: Session, c: Cipher, a: Peer, b: Peer,
                               logA: seq<Sent>, logB: seq<Sent>, gotA: seq<Got>, gotB: seq<Got>,
                               header: Bytes, body: Bytes, capacity: nat, now: nat, b': Peer, gotB': seq<Got>)
    requires Sound(c) && sa.schedule == sb.schedule && sa.sendE1 == sb.recvE1
    requires Inv(sb, b) && Ready(b)
    requires Direction(sa, sb, c, a, b, logA, gotB) && Direction(sb, sa, c, b, a, logB, gotA)
    requires ReceiveStep(sb, c, b, logA, gotB, header, body, capacity, now, b', gotB')
    ensures Inv(sb, b') && SendKept(b, b')
    ensures Direction(sa, sb, c, a, b', logA, gotB') && Direction(sb, sa, c, b', a, logB, gotA)
  {
    ReceiveKeepsDirection(sa, sb, c, a, b, logA, gotB, header, body, capacity, now, b', gotB');
    LogSurvivesAdvance(sb, c, b, b', logB);
  }

  /** Every step keeps the invariant of the whole system. */
  lemma StepKeepsInv(net: Net, w: World, action: Action, w': World)
    requires net.Valid() && WorldInv(net, w) && Step(net, w, action, w')
    ensures WorldInv(net, w')
  {
    var sa, sb, c := net.SessionA(), net.SessionB(), net.cipher;
    match action {
      case ASends(header, payload, capacity) =>
        SendKeepsDirections(sa, sb, c, w.a, w.b, w.sentA, w.sentB, w.gotA, w.gotB, header, payload, capacity, w'.a, w'.sentA);
        SendKeepsBudget(sa, c, w.a, w.sentA, header, payload, capacity, w'.a, w'.sentA);
      case BSends(header, payload, capacity) =>
        SendKeepsDirections(sb, sa, c, w.b, w.a, w.sentB, w.sentA, w.gotB, w.gotA, header, payload, capacity, w'.b, w'.sentB);
        SendKeepsBudget(sb, c, w.b, w.sentB, header, payload, capacity, w'.b, w'.sentB);
      case AReceives(header, body, capacity, now) =>
        ReceiveKeepsDirections(sb, sa, c, w.b, w.a, w.sentB, w.sentA, w.gotB, w.gotA, header, body, capacity, now, w'.a, w'.gotA);
      case BReceives(header, body, capacity, now) =>
        ReceiveKeepsDirections(sa, sb, c, w.a, w.b, w.sentA, w.sentB, w.gotA, w.gotB, header, body, capacity, now, w'.b, w'.gotB);
    }
  }

  lemma StartInv(net: Net)
    requires net.Valid()
    ensures WorldInv(net, Start(net))
  {
    InitialInv(net.SessionA(), net.futureKeys, net.limit, net.backtrack, net.timeBacktrack);
    InitialInv(net.SessionB(), net.futureKeys, net.limit, net.backtrack, net.timeBacktrack);
  }

  lemma {:induction false} StepsCarryInv(net: Net, actions: seq<Action>, states: seq<World>, i: nat)
    requires net.Valid() && Steps(net, actions, states) && i < |states| && WorldInv(net, states[0])
    ensures WorldInv(net, states[i])
  {
    if i > 0 {
      StepsCarryInv(net, actions, states, i - 1);
      StepCarriesInv(net, actions, states, i - 1);
    }
  }

  lemma StepCarriesInv(net: Net, actions: seq<Action>, states: seq<World>, i: nat)
    requires net.Valid() && Steps(net, actions, states) && i < |actions| && WorldInv(net, states[i])
    ensures WorldInv(net, states[i + 1])
  {
    assert StepAt(net, actions, states, i);
    StepKeepsInv(net, states[i], actions[i], states[i + 1]);
  }

  /** The invariant holds in every state of every run. */
  lemma RunInv(net: Net, actions: seq<Action>, states: seq<World>, i: nat)
    requires net.Valid() && Run(net, actions, states) && i < |states|
    ensures WorldInv(net, states[i])
  {
    StartInv(net);
    StepsCarryInv(net, actions, states, i);
  }

  /** In every state of every run each send epoch is at least the receive epoch of the same peer,
      and no receive epoch is ahead of the send epoch of the other peer. */
  lemma EpochsStayOrdered(net: Net, actions: seq<Action>, states: seq<World>, i: nat)
    requires net.Valid() && Run(net, actions, states) && i < |states|
    ensures var w := states[i];
            && w.a.decrypt.epoch <= w.a.encrypt.epoch && w.b.decrypt.epoch <= w.b.encrypt.epoch
            && w.b.decrypt.epoch <= w.a.encrypt.epoch && w.a.decrypt.epoch <= w.b.encrypt.epoch
  {
    RunInv(net, actions, states, i);
  }

  /** Whatever a peer hands up was sent by the other one, byte for byte, and each packet sent is
      handed up at most once, in every run. */
  lemma DeliveredOnceAndIntact(net: Net, actions: seq<Action>, states: seq<World>, i: nat)
    requires net.Valid() && Run(net, actions, states) && i < |states|
    ensures Faithful(states[i].sentA, states[i].gotB) && Faithful(states[i].sentB, states[i].gotA)
  {
    RunInv(net, actions, states, i);
    GotIsFaithful(states[i].b, states[i].sentA, states[i].gotB);
    GotIsFaithful(states[i].a, states[i].sentB, states[i].gotA);
  }

  lemma GotIsFaithful(b: Peer, log: seq<Sent>, got: seq<Got>)
    requires GotOk(b, log, got)
    ensures Faithful(log, got)
  {
    forall k, i, j | 0 <= k < |log| && 0 <= i < j < |got|
      ensures !(SentAs(log[k], got[i]) && SentAs(log[k], got[j]))
    {
      assert !SamePacket(got[i], got[j]);
    }
  }

  ghost predicate Faithful(sent: seq<Sent>, got: seq<Got>) {
    && (forall i :: 0 <= i < |got| ==> WasSent(sent, got[i]))
    && (forall k, i, j :: 0 <= k < |sent| && 0 <= i < j < |got| ==> !(SentAs(sent[k], got[i]) && SentAs(sent[k], got[j])))
  }

  /** Two packets of one sender: epoch and counter grow, and under one epoch the nonces differ. */
  ghost predicate Unrepeated(s: Session, x: Sent, y: Sent) {
    && 1 <= x.epoch && 1 <= y.epoch
    && Earlier(x.epoch, x.id, y.epoch, y.id)
    && (x.epoch == y.epoch ==>
          Nonce(IdBytes(Epoch, x.epoch, x.id), KeyAt(s, s.sendE1, x.epoch).implicitIv)
          != Nonce(IdBytes(Epoch, y.epoch, y.id), KeyAt(s, s.sendE1, y.epoch).implicitIv))
  }

  lemma LogIsUnrepeated(s: Session, c: Cipher, a: Peer, log: seq<Sent>, j: nat, k: nat)
    requires LogOk(s, c, a, log) && j < k < |log|
    ensures Unrepeated(s, log[j], log[k])
  {
    var x, y := log[j], log[k];
    assert Genuine(s, c, x) && Genuine(s, c, y);
    if x.epoch == y.epoch {
      var idX, idY := IdBytes(Epoch, x.epoch, x.id), IdBytes(Epoch, y.epoch, y.id);
      var iv := KeyAt(s, s.sendE1, x.epoch).implicitIv;
      ReadEpochUndoesWrite(x.epoch, x.id);
      ReadEpochUndoesWrite(y.epoch, y.id);
      if Nonce(idX, iv) == Nonce(idY, iv) {
        NonceInjective(idX, idY, iv);
      }
    }
  }

  /** No sender repeats a nonce within an epoch, in every run: packets of one sender and epoch differ in the
      nonce, and epoch and counter strictly increase from packet to packet, for both peers. */
  lemma NoncesNeverRepeat(net: Net, actions: seq<Action>, states: seq<World>, i: nat, j: nat, k: nat)
    requires net.Valid() && Run(net, actions, states) && i < |states| && j < k
    ensures k < |states[i].sentA| ==> Unrepeated(net.SessionA(), states[i].sentA[j], states[i].sentA[k])
    ensures k < |states[i].sentB| ==> Unrepeated(net.SessionB(), states[i].sentB[j], states[i].sentB[k])
  {
    RunInv(net, actions, states, i);
    if k < |states[i].sentA| {
      LogIsUnrepeated(net.SessionA(), net.cipher, states[i].a, states[i].sentA, j, k);
    }
    if k < |states[i].sentB| {
      LogIsUnrepeated(net.SessionB(), net.cipher, states[i].b, states[i].sentB, j, k);
    }
  }

  /** With a usage limit, in every state of every run, except under the very last epoch: a key's packets and
      blocks together never exceed the limit by more than one packet, and every packet ever sent was begun with
      its key within the limit. */
  lemma UsageStaysWithinLimit(net: Net, actions: seq<Action>, states: seq<World>, i: nat, k: nat)
    requires net.Valid() && Run(net, actions, states) && i < |states|
    requires net.limit > 0
    ensures var w := states[i];
            && (w.a.encrypt.epoch < UINT16_MAX ==>
                  w.a.encrypt.plaintextBlocks + w.a.sendId
                  <= net.limit + 1 + LastCost(net.cipher, w.sentA, w.a.encrypt.epoch))
            && (w.b.encrypt.epoch < UINT16_MAX ==>
                  w.b.encrypt.plaintextBlocks + w.b.sendId
                  <= net.limit + 1 + LastCost(net.cipher, w.sentB, w.b.encrypt.epoch))
    ensures k < |states[i].sentA| && states[i].sentA[k].epoch < UINT16_MAX ==> states[i].sentA[k].used <= net.limit
    ensures k < |states[i].sentB| && states[i].sentB[k].epoch < UINT16_MAX ==> states[i].sentB[k].used <= net.limit
  {
    RunInv(net, actions, states, i);
  }

  /** What becomes of a packet on record at a peer with `n` future keys: the process aborts exactly when the
      packet lies one whole window of future keys ahead, and otherwise the packet is opened to the payload that
      was sent and the replay window alone decides. */
  ghost predicate Outcome(s: Session, c: Cipher, b: Peer, n: nat, x: Sent, capacity: nat, now: nat)
    requires Ready(b)
  {
    var ref := Lookup(b, x.epoch);
    var r := Decrypt(s, c, b, x.header, x.body, capacity, now);
    if || ref.NoKey?
       || KeyOf(b, ref).failedVerifications > VERIFY_FAIL_LIMIT
       || |x.body| - 8 + c.blockSize > capacity
    then r == Dropped(b)
    else
      && (r.Aborted? <==> x.epoch == b.decrypt.epoch + n)
      && (r.Delivered? ==> r.payload == x.payload)
      && (r.Delivered? <==>
            if x.epoch > b.decrypt.epoch then x.epoch < b.decrypt.epoch + n
            else R.Check(if x.epoch == b.decrypt.epoch then b.rec else b.retiringRec, R.PacketId(x.id, 0), now).1)
  }

  lemma DirectionOutcome(sa: Session, sb: Session, c: Cipher, b: Peer, x: Sent, capacity: nat, now: nat)
    requires Sound(c) && sa.schedule == sb.schedule && sa.sendE1 == sb.recvE1
    requires Inv(sb, b) && Ready(b) && Genuine(sa, c, x) && now > R.SEQ_EXPIRED
    ensures Outcome(sb, c, b, |b.future|, x, capacity, now)
  {
    OpensWithTheSealingKey(sa, sb, c, b, x);
    LookupFindsTheEpochKey(sb, b, x.epoch);
    FirstIsFresh(b.rec.backtrack, b.rec.timeBacktrack, R.PacketId(x.id, 0), now);
  }

  /** Every packet ever sent, at its receiver, in every reachable state. */
  lemma GenuinePacketOutcome(net: Net, actions: seq<Action>, states: seq<World>, i: nat, k: nat, capacity: nat, now: nat)
    requires net.Valid() && Run(net, actions, states) && i < |states| && now > R.SEQ_EXPIRED
    ensures Ready(states[i].a) && Ready(states[i].b)
    ensures k < |states[i].sentA| ==>
              Outcome(net.SessionB(), net.cipher, states[i].b, net.futureKeys, states[i].sentA[k], capacity, now)
    ensures k < |states[i].sentB| ==>
              Outcome(net.SessionA(), net.cipher, states[i].a, net.futureKeys, states[i].sentB[k], capacity, now)
  {
    RunInv(net, actions, states, i);
    InvUsable(net.SessionA(), states[i].a);
    InvUsable(net.SessionB(), states[i].b);
    if k < |states[i].sentA| {
      DirectionOutcome(net.SessionA(), net.SessionB(), net.cipher, states[i].b, states[i].sentA[k], capacity, now);
    }
    if k < |states[i].sentB| {
      DirectionOutcome(net.SessionB(), net.SessionA(), net.cipher, states[i].a, states[i].sentB[k], capacity, now);
    }
  }

  /** A window that was just started accepts any non-zero id. */
  lemma FirstIsFresh(backtrack: nat, timeBacktrack: nat, pin: R.PacketId, now: nat)
    requires pin.id != 0 && pin.time == 0
    ensures R.Check(R.Empty(backtrack, timeBacktrack), pin, now).1
  {
  }

  // ---- The count on the receive keys --------------------------------------------------------------------

  /** No block is counted on any receive key. */
  ghost predicate Uncounted(p: Peer) {
    && p.decrypt.plaintextBlocks == 0 && p.retiring.plaintextBlocks == 0
    && forall i :: 0 <= i < |p.future| ==> p.future[i].plaintextBlocks == 0
  }

  ghost predicate NoFinalOutput(c: Cipher) {
    forall n: nat :: c.finalLength(n) == 0
  }

  lemma ReplacedUncounted(s: Session, p: Peer, epoch: nat)
    requires Uncounted(p) && 1 <= p.decrypt.epoch < epoch <= p.decrypt.epoch + |p.future|
    ensures Uncounted(Replaced(s, p, epoch))
  {
  }

  lemma DecryptUncounted(s: Session, c: Cipher, p: Peer, header: Bytes, body: Bytes, capacity: nat, now: nat)
    requires Ready(p) && Uncounted(p) && NoFinalOutput(c)
    ensures match Decrypt(s, c, p, header, body, capacity, now)
            case Aborted => true
            case Dropped(q) => Uncounted(q)
            case Delivered(q, payload) => Uncounted(q)
  {
    DecryptCases(s, c, p, header, body, capacity, now);
    if |body| >= MinBody(Epoch) {
      var (ref, epoch, id) := Selected(p, body);
      if epoch != 0 && !ref.NoKey? {
        if ReplaceCompletes(p, epoch) {
          ReplacedUncounted(s, p, epoch);
        }
        assert Blocks(0) == 0;
      }
    }
  }

  lemma EncryptUncounted(s: Session, c: Cipher, p: Peer, header: Bytes, payload: Bytes, capacity: nat)
    requires Ready(p) && Uncounted(p)
    ensures Uncounted(Encrypt(s, c, p, header, payload, capacity).0)
  {
    EncryptCases(s, c, p, header, payload, capacity);
  }

  lemma StepUncounted(net: Net, w: World, action: Action, w': World)
    requires NoFinalOutput(net.cipher) && Step(net, w, action, w') && Uncounted(w.a) && Uncounted(w.b)
    ensures Uncounted(w'.a) && Uncounted(w'.b)
  {
    var c := net.cipher;
    match action {
      case ASends(header, payload, capacity) => EncryptUncounted(net.SessionA(), c, w.a, header, payload, capacity);
      case BSends(header, payload, capacity) => EncryptUncounted(net.SessionB(), c, w.b, header, payload, capacity);
      case AReceives(header, body, capacity, now) => DecryptUncounted(net.SessionA(), c, w.a, header, body, capacity, now);
      case BReceives(header, body, capacity, now) => DecryptUncounted(net.SessionB(), c, w.b, header, body, capacity, now);
    }
  }

  lemma {:induction false} StepsUncounted(net: Net, actions: seq<Action>, states: seq<World>, i: nat)
    requires NoFinalOutput(net.cipher) && Steps(net, actions, states) && i < |states|
    requires Uncounted(states[0].a) && Uncounted(states[0].b)
    ensures Uncounted(states[i].a) && Uncounted(states[i].b)
  {
    if i > 0 {
      StepsUncounted(net, actions, states, i - 1);
      StepAtUncounted(net, actions, states, i - 1);
    }
  }

  lemma StepAtUncounted(net: Net, actions: seq<Action>, states: seq<World>, i: nat)
    requires NoFinalOutput(net.cipher) && Steps(net, actions, states) && i < |actions|
    requires Uncounted(states[i].a) && Uncounted(states[i].b)
    ensures Uncounted(states[i + 1].a) && Uncounted(states[i + 1].b)
  {
    assert StepAt(net, actions, states, i);
    StepUncounted(net, states[i], actions[i], states[i + 1]);
  }

  /** If the final call of the cipher gives out nothing, no block is ever counted on a receive key, in every state
      of every run, and the test of the receive key against the usage limit is one of the packet counter alone. */
  lemma ReceiveLimitCountsPacketsOnly(net: Net, actions: seq<Action>, states: seq<World>, i: nat)
    requires net.Valid() && NoFinalOutput(net.cipher) && Run(net, actions, states) && i < |states|
    ensures Uncounted(states[i].a) && Uncounted(states[i].b)
    ensures UsageReached(net.limit, states[i].a.decrypt, states[i].a.rec.id) <==> 0 < net.limit < states[i].a.rec.id
    ensures UsageReached(net.limit, states[i].b.decrypt, states[i].b.rec.id) <==> 0 < net.limit < states[i].b.rec.id
  {
    StepsUncounted(net, actions, states, i);
  }

  /** The first packet of a peer, one byte long. */
  lemma FirstProbe(s: Session, c: Cipher, n: nat, limit: nat, backtrack: nat, timeBacktrack: nat) returns (x: Sent)
    requires 1 <= n < UINT16_MAX && backtrack <= R.MAX_SEQ_BACKTRACK && timeBacktrack <= R.MAX_TIME_BACKTRACK
    ensures var p := Initial(s, n, limit, backtrack, timeBacktrack);
            && Ready(p) && Genuine(s, c, x) && x.epoch == 1 && x.header == [] && x.payload == [0]
            && Encrypt(s, c, p, [], [0], Room(c)).1 == Some(x.body)
  {
    var p := Initial(s, n, limit, backtrack, timeBacktrack);
    InitialInv(s, n, limit, backtrack, timeBacktrack);
    InvUsable(s, p);
    EncryptCases(s, c, p, [], [0], Room(c));
    EncryptIsGenuine(s, c, p, [], [0], Room(c), 0);
    var (q, body) := Encrypt(s, c, p, [], [0], Room(c));
    x := Sent(q.encrypt.epoch, q.sendId, [], [0], body.value, 0);
  }

  /** A packet that is delivered and not counted: with a final call that gives out nothing of one byte, the first
      packet of a session, as `FirstProbe` makes it, leaves the count of the receive key at zero. */
  lemma UncountedWitness(net: Net, x: Sent, now: nat)
    requires net.Valid() && net.cipher.finalLength(1) == 0 && now > R.SEQ_EXPIRED
    requires Genuine(net.SessionA(), net.cipher, x) && x.epoch == 1 && x.payload == [0]
    ensures var b, c := Start(net).b, net.cipher;
            && Ready(b)
            && var r := Decrypt(net.SessionB(), c, b, x.header, x.body, |x.body| + c.blockSize, now);
            && r.Delivered? && r.payload == x.payload
            && r.peer.decrypt.plaintextBlocks == 0 < Blocks(|x.payload|)
  {
    ProbeIsDelivered(net, x, now);
    InitialInv(net.SessionB(), net.futureKeys, net.limit, net.backtrack, net.timeBacktrack);
    NothingIsCounted(net.SessionB(), net.cipher, Start(net).b, x, now);
    BlocksOfNothing(1);
  }

  lemma NothingIsCounted(s: Session, c: Cipher, b: Peer, x: Sent, now: nat)
    requires Inv(s, b) && Ready(b) && MinBody(Epoch) <= |x.body| && Selected(b, x.body).0 == Current
    requires var r := Decrypt(s, c, b, x.header, x.body, |x.body| + c.blockSize, now);
             r.Delivered? && c.finalLength(|r.payload|) == 0
    ensures var r := Decrypt(s, c, b, x.header, x.body, |x.body| + c.blockSize, now);
            r.peer.decrypt.plaintextBlocks == b.decrypt.plaintextBlocks
  {
    CountGoesToCurrentKey(s, c, b, x.header, x.body, |x.body| + c.blockSize, now);
    BlocksOfNothing(0);
  }

  lemma ProbeIsDelivered(net: Net, x: Sent, now: nat)
    requires net.Valid() && now > R.SEQ_EXPIRED && Genuine(net.SessionA(), net.cipher, x) && x.epoch == 1
    ensures var b, c := Start(net).b, net.cipher;
            && Ready(b) && MinBody(Epoch) <= |x.body| && Selected(b, x.body).0 == Current
            && var r := Decrypt(net.SessionB(), c, b, x.header, x.body, |x.body| + c.blockSize, now);
            r.Delivered? && r.payload == x.payload
  {
    var sa, sb, c, b := net.SessionA(), net.SessionB(), net.cipher, Start(net).b;
    InitialInv(sb, net.futureKeys, net.limit, net.backtrack, net.timeBacktrack);
    InvUsable(sb, b);
    OpensWithTheSealingKey(sa, sb, c, b, x);
    DirectionOutcome(sa, sb, c, b, x, |x.body| + c.blockSize, now);
    FirstIsFresh(net.backtrack, net.timeBacktrack, R.PacketId(x.id, 0), now);
  }

  // ---- A run to the edge -----------------------------------------------------------------------------

  /** A work buffer that holds a packet with one byte of payload. */
  function Room(c: Cipher): nat {
    8 + 1 + TAG_LENGTH + c.blockSize
  }

  /** Packets and blocks counted on the send key. */
  function Usage(p: Peer): nat {
    p.encrypt.plaintextBlocks + p.sendId
  }

  /** With a usage limit a send either changes the key, or was begun within the limit and uses it up further. */
  lemma ProbeIsSent(s: Session, c: Cipher, p: Peer)
    requires Inv(s, p) && Ready(p) && p.limit > 0 && p.encrypt.epoch < UINT16_MAX
    ensures var (q, body) := Encrypt(s, c, p, [], [0], Room(c));
            && body.Some? && !EncryptAborts(s, p, [], Room(c))
            && (|| q.encrypt.epoch == p.encrypt.epoch + 1
                || (q.encrypt.epoch == p.encrypt.epoch && Usage(p) < Usage(q) && Usage(p) <= p.limit))
  {
    CheckSendBounds(s, p);
    EncryptCases(s, c, p, [], [0], Room(c));
  }

  lemma OneMoreSend(net: Net, w: World) returns (w': World)
    requires net.Valid() && net.limit > 0 && WorldInv(net, w) && w.a.encrypt.epoch < UINT16_MAX
    ensures Step(net, w, ASends([], [0], Room(net.cipher)), w') && w'.b == w.b
    ensures w'.sentA != [] && w'.sentA[|w'.sentA| - 1].epoch == w'.a.encrypt.epoch
    ensures || w'.a.encrypt.epoch == w.a.encrypt.epoch + 1
            || (w'.a.encrypt.epoch == w.a.encrypt.epoch && Usage(w.a) < Usage(w'.a) && Usage(w.a) <= net.limit)
  {
    var s, c := net.SessionA(), net.cipher;
    InvUsable(s, w.a);
    InvUsable(net.SessionB(), w.b);
    ProbeIsSent(s, c, w.a);
    var (q, body) := Encrypt(s, c, w.a, [], [0], Room(c));
    var used := CheckSend(s, w.a).encrypt.plaintextBlocks + CheckSend(s, w.a).sendId;
    w' := w.(a := q, sentA := w.sentA + [Sent(q.encrypt.epoch, q.sendId, [], [0], body.value, used)]);
  }

  lemma RunGrows(net: Net, actions: seq<Action>, states: seq<World>, action: Action, w': World)
    requires net.Valid() && Run(net, actions, states) && Step(net, states[|actions|], action, w')
    ensures Run(net, actions + [action], states + [w'])
  {
    var actions', states' := actions + [action], states + [w'];
    forall i | 0 <= i < |actions'|
      ensures StepAt(net, actions', states', i)
    {
      if i < |actions| {
        assert StepAt(net, actions, states, i);
      }
    }
  }

  /** `w2` comes after `w` by one send of the first peer: a later key, or less left of the same one. */
  ghost predicate SentOneMore(limit: nat, w: World, w2: World) {
    && w2.b == w.b && w2.sentA != [] && w2.sentA[|w2.sentA| - 1].epoch == w2.a.encrypt.epoch
    && (|| w2.a.encrypt.epoch == w.a.encrypt.epoch + 1
        || (w2.a.encrypt.epoch == w.a.encrypt.epoch && Usage(w.a) < Usage(w2.a) && Usage(w.a) <= limit))
  }

  lemma RunSendsOneMore(net: Net, actions: seq<Action>, states: seq<World>)
    returns (actions': seq<Action>, states': seq<World>)
    requires net.Valid() && net.limit > 0 && Run(net, actions, states)
    requires states[|actions|].a.encrypt.epoch < UINT16_MAX
    ensures Run(net, actions', states') && |actions'| == |actions| + 1
    ensures SentOneMore(net.limit, states[|actions|], states'[|actions'|])
  {
    var w := states[|actions|];
    RunInv(net, actions, states, |actions|);
    var w' := OneMoreSend(net, w);
    var action := ASends([], [0], Room(net.cipher));
    RunGrows(net, actions, states, action, w');
    actions', states' := actions + [action], states + [w'];
  }

  /** A peer that keeps sending reaches every epoch, and the other peer need not take part. */
  lemma {:induction false} SendingReachesEpoch(net: Net, actions: seq<Action>, states: seq<World>, target: nat)
    returns (actions': seq<Action>, states': seq<World>)
    requires net.Valid() && net.limit > 0 && Run(net, actions, states)
    requires states[|actions|].a.encrypt.epoch < target <= UINT16_MAX
    ensures Run(net, actions', states')
    ensures var w, w' := states[|actions|], states'[|actions'|];
            && w'.b == w.b && w'.a.encrypt.epoch == target
            && w'.sentA != [] && w'.sentA[|w'.sentA| - 1].epoch == target
    decreases target - states[|actions|].a.encrypt.epoch, Max(0, net.limit + 1 - Usage(states[|actions|].a))
  {
    actions', states' := RunSendsOneMore(net, actions, states);
    if states'[|actions'|].a.encrypt.epoch < target {
      actions', states' := SendingReachesEpoch(net, actions', states', target);
    }
  }

  /** The edge is reached by a run: the sender works through its keys while the receiver hears nothing, and
      then the first packet that arrives, genuine as it is, makes the receiver abort. */
  lemma EdgeIsReached(net: Net, capacity: nat, now: nat) returns (actions: seq<Action>, states: seq<World>)
    requires net.Valid() && net.limit > 0 && 2 * net.futureKeys + 2 <= UINT16_MAX && now > R.SEQ_EXPIRED
    ensures Run(net, actions, states)
    ensures var w := states[|actions|];
            && w.sentA != [] && Ready(w.b)
            && var x := w.sentA[|w.sentA| - 1];
            && x.epoch == 1 + net.futureKeys
            && (|x.body| - 8 + net.cipher.blockSize <= capacity ==>
                  Decrypt(net.SessionB(), net.cipher, w.b, x.header, x.body, capacity, now) == Aborted)
  {
    actions, states := SendingReachesEpoch(net, [], [Start(net)], 1 + net.futureKeys);
    var w := states[|actions|];
    RunInv(net, actions, states, |actions|);
    InvUsable(net.SessionB(), w.b);
    if |w.sentA[|w.sentA| - 1].body| - 8 + net.cipher.blockSize <= capacity {
      EdgeAborts(net, actions, states, capacity, now);
    }
  }

  lemma EdgeAborts(net: Net, actions: seq<Action>, states: seq<World>, capacity: nat, now: nat)
    requires net.Valid() && 2 * net.futureKeys + 2 <= UINT16_MAX && now > R.SEQ_EXPIRED
    requires Run(net, actions, states)
    requires var w := states[|actions|];
             w.b == Start(net).b && w.sentA != [] && w.sentA[|w.sentA| - 1].epoch == 1 + net.futureKeys
    requires var w := states[|actions|]; |w.sentA[|w.sentA| - 1].body| - 8 + net.cipher.blockSize <= capacity
    ensures var w := states[|actions|];
            && Ready(w.b)
            && var x := w.sentA[|w.sentA| - 1];
            Decrypt(net.SessionB(), net.cipher, w.b, x.header, x.body, capacity, now) == Aborted
  {
    var w := states[|actions|];
    GenuinePacketOutcome(net, actions, states, |actions|, |w.sentA| - 1, capacity, now);
    FreshPeerAborts(net.SessionB(), net.cipher, w.b, net, w.sentA[|w.sentA| - 1], capacity, now);
  }

  lemma FreshPeerAborts(s: Session, c: Cipher, b: Peer, net: Net, x: Sent, capacity: nat, now: nat)
    requires net.Valid() && 2 * net.futureKeys + 2 <= UINT16_MAX
    requires b == Initial(s, net.futureKeys, net.limit, net.backtrack, net.timeBacktrack) && Ready(b)
    requires x.epoch == 1 + net.futureKeys && Outcome(s, c, b, net.futureKeys, x, capacity, now)
    requires |x.body| - 8 + c.blockSize <= capacity
    ensures Decrypt(s, c, b, x.header, x.body, capacity, now) == Aborted
  {
    InitialInv(s, net.futureKeys, net.limit, net.backtrack, net.timeBacktrack);
    LookupFindsTheEpochKey(s, b, 1 + net.futureKeys);
  }
}

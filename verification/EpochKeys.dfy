/** Epoch data channel keys as values: what the key steps, encryption and decryption do to
    the security parameters of one peer. */
module EpochKeys {
  import opened Bytes
  import opened Aead
  import R = ReplayWindow

  const UINT16_MAX := 65535
  const PACKET_ID_MAX := 0xffff_ffff
  const PACKET_ID_EPOCH_MAX := 0xffff_ffff_ffff
  const EPOCH_SHIFT := 0x1_0000_0000_0000
  const VERIFY_FAIL_WARN := 0x8_0000_0000
  const VERIFY_FAIL_LIMIT := 0x10_0000_0000
  const AEAD_LIMIT_BLOCKSIZE := 16

  type Iv = iv: Bytes | MIN_IV_LENGTH <= |iv| <= MAX_IV_LENGTH witness Zeros(MIN_IV_LENGTH)

  /** How keys are derived from the secret of an epoch: the secret of the next epoch, the cipher
      key and the implicit IV. */
  datatype Schedule = Schedule(update: Bytes -> Bytes, cipherKey: Bytes -> Bytes, implicitIv: Bytes -> Iv)

  /** What one peer derives all its keys from: the schedule and the first epoch secret of each
      direction. */
  datatype Session = Session(schedule: Schedule, sendE1: Bytes, recvE1: Bytes)

  datatype EpochKey = EpochKey(secret: Bytes, epoch: nat)

  datatype KeyCtx = KeyCtx(
    epoch: nat,
    cipherKey: Bytes,
    implicitIv: Bytes,
    plaintextBlocks: nat,
    failedVerifications: nat)

  const CLEARED := KeyCtx(0, [], [], 0, 0)

  /** `epoch_key_iterate`; the epoch is 16 bits wide. */
  function Iterated(schedule: Schedule, k: EpochKey): EpochKey {
    EpochKey(schedule.update(k.secret), (k.epoch + 1) % 65536)
  }

  /** E_n: n - 1 updates of E_1, whatever the width of an epoch number. */
  function EpochKeyAt(schedule: Schedule, e1: Bytes, n: nat): (k: EpochKey)
    requires n >= 1
    ensures k.epoch == n
  {
    if n == 1 then EpochKey(e1, 1)
    else EpochKey(schedule.update(EpochKeyAt(schedule, e1, n - 1).secret), n)
  }

  /** `epoch_data_key_derive` and the key context made from it. */
  function DataKey(schedule: Schedule, k: EpochKey): (ctx: KeyCtx) {
    KeyCtx(k.epoch, schedule.cipherKey(k.secret), schedule.implicitIv(k.secret), 0, 0)
  }

  /** The unused data key of epoch `n`. */
  function KeyAt(s: Session, e1: Bytes, n: nat): (ctx: KeyCtx)
    requires n >= 1
    ensures ctx.epoch == n && MIN_IV_LENGTH <= |ctx.implicitIv| <= MAX_IV_LENGTH
  {
    DataKey(s.schedule, EpochKeyAt(s.schedule, e1, n))
  }

  /** `ctx` holds the key material of epoch `n`, however much it has been used. */
  predicate IsKeyAt(s: Session, e1: Bytes, ctx: KeyCtx, n: nat)
    requires n >= 1
  {
    ctx == KeyAt(s, e1, n).(plaintextBlocks := ctx.plaintextBlocks, failedVerifications := ctx.failedVerifications)
  }

  /** The part of `struct crypto_options` the data channel works on. */
  datatype Peer = Peer(
    format: Format,
    limit: nat,
    encrypt: KeyCtx,
    decrypt: KeyCtx,
    retiring: KeyCtx,
    future: seq<KeyCtx>,
    sendKey: EpochKey,
    recvKey: EpochKey,
    sendId: nat,
    rec: R.Window,
    retiringRec: R.Window)

  /** What holds between any two operations once the epoch keys are set up. */
  ghost predicate Inv(s: Session, p: Peer) {
    var n := |p.future|;
    && p.format.Epoch?
    && n >= 1
    && 1 <= p.decrypt.epoch && p.decrypt.epoch + n <= UINT16_MAX
    && p.decrypt.epoch <= p.encrypt.epoch <= UINT16_MAX
    && IsKeyAt(s, s.recvE1, p.decrypt, p.decrypt.epoch)
    && (p.retiring.epoch != 0 ==>
          p.retiring.epoch < p.decrypt.epoch && IsKeyAt(s, s.recvE1, p.retiring, p.retiring.epoch))
    && (forall i :: 0 <= i < n ==> IsKeyAt(s, s.recvE1, p.future[i], p.decrypt.epoch + 1 + i))
    && p.recvKey == EpochKeyAt(s.schedule, s.recvE1, p.decrypt.epoch + n)
    && IsKeyAt(s, s.sendE1, p.encrypt, p.encrypt.epoch)
    && p.sendKey == EpochKeyAt(s.schedule, s.sendE1, p.encrypt.epoch)
    && p.sendId <= PACKET_ID_EPOCH_MAX
    && p.rec.Valid() && p.retiringRec.Valid()
  }

  /** The keys of `count` consecutive epochs. */
  function Keys(s: Session, e1: Bytes, first: nat, count: nat): (ks: seq<KeyCtx>)
    requires first >= 1
    ensures |ks| == count
    ensures forall i :: 0 <= i < count ==> ks[i] == KeyAt(s, e1, first + i)
    decreases count
  {
    if count == 0 then [] else Keys(s, e1, first, count - 1) + [KeyAt(s, e1, first + count - 1)]
  }

  /** `epoch_init_key_ctx` with `n` future keys. */
  function Initial(s: Session, n: nat, limit: nat, backtrack: nat, timeBacktrack: nat): Peer
    requires n >= 1
  {
    Peer(Epoch, limit,
         KeyAt(s, s.sendE1, 1), KeyAt(s, s.recvE1, 1), CLEARED, Keys(s, s.recvE1, 2, n),
         EpochKeyAt(s.schedule, s.sendE1, 1), EpochKeyAt(s.schedule, s.recvE1, 1 + n),
         0, R.Empty(backtrack, timeBacktrack), R.Empty(0, 0))
  }

  lemma InitialInv(s: Session, n: nat, limit: nat, backtrack: nat, timeBacktrack: nat)
    requires 1 <= n < UINT16_MAX
    requires backtrack <= R.MAX_SEQ_BACKTRACK && timeBacktrack <= R.MAX_TIME_BACKTRACK
    ensures Inv(s, Initial(s, n, limit, backtrack, timeBacktrack))
  {
  }

  /** Where a decryption key was found. */
  datatype KeyRef = Current | Retiring | Future(index: nat) | NoKey

  /** `epoch_lookup_decrypt_key`. */
  function Lookup(p: Peer, epoch: nat): (r: KeyRef)
    ensures r.Future? ==> r.index < |p.future|
  {
    if p.decrypt.epoch == epoch then Current
    else if p.retiring.epoch != 0 && p.retiring.epoch == epoch then Retiring
    else if epoch > p.decrypt.epoch && epoch <= p.decrypt.epoch + |p.future| then
      var index := epoch - (p.decrypt.epoch + 1);
      if epoch > UINT16_MAX - |p.future| - 1 then NoKey else Future(index)
    else NoKey
  }

  function KeyOf(p: Peer, r: KeyRef): KeyCtx
    requires !r.NoKey? && (r.Future? ==> r.index < |p.future|)
  {
    match r
    case Current => p.decrypt
    case Retiring => p.retiring
    case Future(i) => p.future[i]
  }

  function WithKey(p: Peer, r: KeyRef, ctx: KeyCtx): Peer
    requires !r.NoKey? && (r.Future? ==> r.index < |p.future|)
  {
    match r
    case Current => p.(decrypt := ctx)
    case Retiring => p.(retiring := ctx)
    case Future(i) => p.(future := p.future[i := ctx])
  }

  /** A key that lookup returns is the key of exactly the epoch asked for, and lookup fails only
      for epochs outside the known ones or behind the edge of the epoch space. */
  lemma LookupFindsTheEpochKey(s: Session, p: Peer, epoch: nat)
    requires Inv(s, p) && 1 <= epoch <= UINT16_MAX
    ensures var r := Lookup(p, epoch);
            && (!r.NoKey? ==> IsKeyAt(s, s.recvE1, KeyOf(p, r), epoch))
            && (r.NoKey? <==>
                && epoch != p.decrypt.epoch && epoch != p.retiring.epoch
                && !(p.decrypt.epoch < epoch <= Min(p.decrypt.epoch + |p.future|, UINT16_MAX - |p.future| - 1)))
  {
  }

  /** The state after a successful `epoch_replace_update_recv_key`, in closed form: keys already
      derived move down, keys of the epochs that come into reach are added behind them, and the
      send key is brought up to `epoch` if it was behind. */
  function Replaced(s: Session, p: Peer, epoch: nat): Peer
    requires 1 <= p.decrypt.epoch < epoch <= p.decrypt.epoch + |p.future|
  {
    var shift := epoch - p.decrypt.epoch;
    var n := |p.future|;
    var behind := p.encrypt.epoch < epoch;
    p.(
      encrypt := if behind then KeyAt(s, s.sendE1, epoch) else p.encrypt,
      sendKey := if behind then EpochKeyAt(s.schedule, s.sendE1, epoch) else p.sendKey,
      sendId := if behind then 0 else p.sendId,
      retiring := p.decrypt,
      retiringRec := p.rec,
      rec := R.Empty(p.rec.backtrack, p.rec.timeBacktrack),
      decrypt := p.future[shift - 1],
      future := p.future[shift..] + Keys(s, s.recvE1, p.decrypt.epoch + n + 1, shift),
      recvKey := EpochKeyAt(s.schedule, s.recvE1, epoch + n))
  }

  /** The condition under which no ASSERT of the receive key replacement trips. */
  predicate ReplaceCompletes(p: Peer, epoch: nat) {
    p.decrypt.epoch < epoch < p.decrypt.epoch + |p.future| && epoch + |p.future| <= UINT16_MAX
  }

  /** Lookup hands out keys for epochs that the replacement then refuses: of the future keys it
      returns, exactly the last one makes the replacement trip its ASSERT. */
  lemma ReplaceFailsOnlyAtTheEdge(s: Session, p: Peer, epoch: nat)
    requires Inv(s, p) && Lookup(p, epoch).Future?
    ensures ReplaceCompletes(p, epoch) <==> epoch != p.decrypt.epoch + |p.future|
  {
  }

  /** The edge is reached: with 16 future keys a peer in its first epoch finds the key of epoch 17. */
  lemma EdgeWitness(s: Session)
    ensures var p := Initial(s, 16, 0, 64, 15);
            Inv(s, p) && Lookup(p, 17) == Future(15) && !ReplaceCompletes(p, 17)
  {
    InitialInv(s, 16, 0, 64, 15);
  }

  lemma ReplacedFuture(s: Session, p: Peer, epoch: nat, i: nat)
    requires 1 <= p.decrypt.epoch < epoch <= p.decrypt.epoch + |p.future| && i < |p.future|
    requires forall k :: 0 <= k < |p.future| ==> IsKeyAt(s, s.recvE1, p.future[k], p.decrypt.epoch + 1 + k)
    ensures IsKeyAt(s, s.recvE1, Replaced(s, p, epoch).future[i], epoch + 1 + i)
  {
    var shift := epoch - p.decrypt.epoch;
    if i + shift < |p.future| {
      assert IsKeyAt(s, s.recvE1, p.future[i + shift], p.decrypt.epoch + 1 + (i + shift));
    } else {
      var k := i + shift - |p.future|;
      assert Keys(s, s.recvE1, p.decrypt.epoch + |p.future| + 1, shift)[k]
          == KeyAt(s, s.recvE1, p.decrypt.epoch + |p.future| + 1 + k);
    }
  }

  lemma ReplacedKeys(s: Session, p: Peer, epoch: nat)
    requires 1 <= p.decrypt.epoch < epoch <= p.decrypt.epoch + |p.future|
    requires forall k :: 0 <= k < |p.future| ==> IsKeyAt(s, s.recvE1, p.future[k], p.decrypt.epoch + 1 + k)
    ensures var q := Replaced(s, p, epoch);
            && |q.future| == |p.future| && q.decrypt.epoch == epoch && IsKeyAt(s, s.recvE1, q.decrypt, epoch)
            && forall i :: 0 <= i < |q.future| ==> IsKeyAt(s, s.recvE1, q.future[i], epoch + 1 + i)
  {
    var k := epoch - p.decrypt.epoch - 1;
    assert IsKeyAt(s, s.recvE1, p.future[k], p.decrypt.epoch + 1 + k);
    forall i | 0 <= i < |p.future|
      ensures IsKeyAt(s, s.recvE1, Replaced(s, p, epoch).future[i], epoch + 1 + i)
    {
      ReplacedFuture(s, p, epoch, i);
    }
  }

  lemma ReplacedInv(s: Session, p: Peer, epoch: nat)
    requires Inv(s, p) && ReplaceCompletes(p, epoch)
    ensures Inv(s, Replaced(s, p, epoch))
  {
    ReplacedKeys(s, p, epoch);
  }

  /** `epoch_iterate_send_key`. */
  function SendStepped(s: Session, p: Peer): Peer
  {
    var k := Iterated(s.schedule, p.sendKey);
    p.(sendKey := k, encrypt := DataKey(s.schedule, k), sendId := 0)
  }

  lemma SendSteppedInv(s: Session, p: Peer)
    requires Inv(s, p) && p.sendKey.epoch < UINT16_MAX
    ensures Inv(s, SendStepped(s, p))
    ensures SendStepped(s, p).encrypt == KeyAt(s, s.sendE1, p.encrypt.epoch + 1)
  {
    assert Iterated(s.schedule, p.sendKey) == EpochKeyAt(s.schedule, s.sendE1, p.encrypt.epoch + 1);
  }

  /** `aead_usage_limit_reached`. */
  predicate UsageReached(limit: nat, ctx: KeyCtx, highestId: nat) {
    limit > 0 && ctx.plaintextBlocks + highestId > limit
  }

  /** `epoch_check_send_iterate`. */
  function CheckSend(s: Session, p: Peer): Peer
  {
    if p.sendKey.epoch == UINT16_MAX then p
    else
      var p1 :=
        if p.limit == 0 then p
        else if UsageReached(p.limit, p.encrypt, p.sendId) then SendStepped(s, p)
        else if p.encrypt.epoch == p.decrypt.epoch
                && (UsageReached(p.limit, p.decrypt, p.rec.id) || p.decrypt.failedVerifications > VERIFY_FAIL_WARN)
        then SendStepped(s, p)
        else p;
      if p1.sendId == PACKET_ID_EPOCH_MAX then SendStepped(s, p1) else p1
  }

  /** One check moves the send key by at most one epoch, never past the last one; with a limit
      the key it leaves behind is within the limit, unless it is the last key there is. */
  lemma CheckSendBounds(s: Session, p: Peer)
    requires Inv(s, p)
    ensures var q := CheckSend(s, p);
            && Inv(s, q)
            && p.encrypt.epoch <= q.encrypt.epoch <= p.encrypt.epoch + 1
            && (q.encrypt.epoch == p.encrypt.epoch ==> q == p)
            && (q.encrypt.epoch > p.encrypt.epoch ==> q.sendId == 0 && q.encrypt == KeyAt(s, s.sendE1, q.encrypt.epoch))
            && (p.sendKey.epoch < UINT16_MAX ==>
                  q.sendId < PACKET_ID_EPOCH_MAX && !UsageReached(p.limit, q.encrypt, q.sendId))
            && q == p.(encrypt := q.encrypt, sendKey := q.sendKey, sendId := q.sendId)
  {
    if p.sendKey.epoch < UINT16_MAX {
      SendSteppedInv(s, p);
    }
  }

  /** When the check of `epoch_check_send_iterate` changes the send key: the packet ids of the key are used up, or
      there is a usage limit and the send key is over it, or both keys are of one epoch and the receive key is
      over the limit or over the warning limit for failed checks. */
  predicate MustStep(p: Peer) {
    || p.sendId == 0xffff_ffff_ffff
    || (p.limit > 0 && p.encrypt.plaintextBlocks + p.sendId > p.limit)
    || (&& p.limit > 0 && p.encrypt.epoch == p.decrypt.epoch
        && (|| p.decrypt.plaintextBlocks + p.rec.id > p.limit
            || p.decrypt.failedVerifications > 0x8_0000_0000))
  }

  /** The check moves on to the next epoch exactly when it must and there is one. */
  lemma CheckSendStepsExactly(s: Session, p: Peer)
    requires Inv(s, p)
    ensures CheckSend(s, p).encrypt.epoch
         == if MustStep(p) && p.encrypt.epoch < 65535 then p.encrypt.epoch + 1 else p.encrypt.epoch
  {
    CheckSendBounds(s, p);
  }

  function IdBytes(format: Format, epoch: nat, id: nat): (b: Bytes)
    ensures |b| == IdLength(format)
  {
    if format.Epoch? then BigEndian(epoch * EPOCH_SHIFT + id, 8) else BigEndian(id, 4)
  }

  /** `packet_id_read_epoch`. */
  function ReadEpoch(b: Bytes): (r: (nat, nat)) {
    (FromBigEndian(b) / EPOCH_SHIFT, FromBigEndian(b) % EPOCH_SHIFT)
  }

  /** Epoch and counter come back from the wire, so they are unique to the bytes. */
  lemma ReadEpochUndoesWrite(epoch: nat, id: nat)
    requires epoch <= UINT16_MAX && id <= PACKET_ID_EPOCH_MAX
    ensures ReadEpoch(IdBytes(Epoch, epoch, id)) == (epoch, id)
  {
    var x := epoch * EPOCH_SHIFT + id;
    assert Pow256(8) == 65536 * EPOCH_SHIFT by {
      assert Pow256(4) == 0x1_0000_0000;
    }
    BigEndianRoundTrip(x, 8);
  }

  /** The two fields on the wire: two bytes of epoch, then six of counter. */
  lemma EpochOnWire(epoch: nat, id: nat)
    requires epoch <= UINT16_MAX && id <= PACKET_ID_EPOCH_MAX
    ensures IdBytes(Epoch, epoch, id)[..2] == BigEndian(epoch, 2) && IdBytes(Epoch, epoch, id)[2..] == BigEndian(id, 6)
  {
    assert Pow256(6) == EPOCH_SHIFT by {
      assert Pow256(3) == 0x100_0000;
    }
    SplitBigEndian(epoch, id, 2, 6);
  }

  lemma {:induction false} SplitBigEndian(high: nat, low: nat, m: nat, n: nat)
    requires low < Pow256(n)
    ensures BigEndian(high * Pow256(n) + low, m + n)[..m] == BigEndian(high, m)
    ensures BigEndian(high * Pow256(n) + low, m + n)[m..] == BigEndian(low, n)
  {
    if n == 0 {
      assert high * Pow256(0) + low == high;
    } else {
      var x := high * Pow256(n) + low;
      ShiftByte(high, low, n);
      SplitBigEndian(high, low / 256, m, n - 1);
      assert BigEndian(x, m + n) == BigEndian(x / 256, m + n - 1) + [x % 256];
    }
  }

  lemma ShiftByte(high: nat, low: nat, n: nat)
    requires n > 0
    ensures var x := high * Pow256(n) + low;
            x / 256 == high * Pow256(n - 1) + low / 256 && x % 256 == low % 256
  {
    var y := high * Pow256(n - 1);
    assert high * Pow256(n) == 256 * y;
  }

  function Blocks(length: nat): nat {
    (length + (AEAD_LIMIT_BLOCKSIZE - 1)) / AEAD_LIMIT_BLOCKSIZE
  }

  predicate Usable(p: Peer) {
    && MIN_IV_LENGTH <= |p.encrypt.implicitIv|
    && MIN_IV_LENGTH <= |p.decrypt.implicitIv|
    && (p.retiring.epoch != 0 ==> MIN_IV_LENGTH <= |p.retiring.implicitIv|)
    && (forall i :: 0 <= i < |p.future| ==> MIN_IV_LENGTH <= |p.future[i].implicitIv|)
    && |p.rec.seen| <= p.rec.backtrack && |p.retiringRec.seen| <= p.retiringRec.backtrack
  }

  /** The plaintext blocks that encrypting a payload counts: those the update call gives out. */
  function Cost(c: Cipher, payload: Bytes): nat {
    Blocks(UpdateLength(c, |payload|))
  }

  function IdLimit(format: Format): nat {
    if format.Epoch? then PACKET_ID_EPOCH_MAX else PACKET_ID_MAX
  }

  /** The assertion of `openvpn_encrypt_aead` that the packet id fits the work buffer behind the header fails. */
  predicate EncryptAborts(s: Session, p: Peer, header: Bytes, capacity: nat) {
    && (if p.format.Epoch? then CheckSend(s, p) else p).sendId != IdLimit(p.format)
    && |header| + IdLength(p.format) > capacity
  }

  /** `openvpn_encrypt_aead` where it does not abort: the packet after its header, or nothing when the packet
      ids are used up or the work buffer of `capacity` bytes is too small. */
  function Encrypt(s: Session, c: Cipher, p: Peer, header: Bytes, payload: Bytes, capacity: nat)
    : (r: (Peer, Option<Bytes>))
    requires Usable(p)
  {
    var p1 := if p.format.Epoch? then CheckSend(s, p) else p;
    if p1.sendId == IdLimit(p.format) then (p1, None)
    else
      var p2 := p1.(sendId := p1.sendId + 1);
      if |header| + IdLength(p.format) + |payload| + TAG_LENGTH + c.blockSize > capacity then (p2, None)
      else
        var id := IdBytes(p.format, p2.encrypt.epoch, p2.sendId);
        var body := SealBody(c, p.format, p2.encrypt.cipherKey, p2.encrypt.implicitIv, header, id, payload);
        var used := p2.encrypt.(plaintextBlocks := p2.encrypt.plaintextBlocks + Cost(c, payload));
        (p2.(encrypt := used), Some(body))
  }

  /** A packet that is made fits the work buffer, header and one more block included. */
  lemma PacketFits(s: Session, c: Cipher, p: Peer, header: Bytes, payload: Bytes, capacity: nat)
    requires Sound(c) && Usable(p) && payload != [] && Encrypt(s, c, p, header, payload, capacity).1.Some?
    requires MIN_IV_LENGTH <= |CheckSend(s, p).encrypt.implicitIv|
    ensures |header| + |Encrypt(s, c, p, header, payload, capacity).1.value| + c.blockSize <= capacity
  {
    var p1 := if p.format.Epoch? then CheckSend(s, p) else p;
    SealedParts(c, p.format, p1.encrypt.cipherKey, p1.encrypt.implicitIv, header,
                IdBytes(p.format, p1.encrypt.epoch, p1.sendId + 1), payload);
  }

  datatype Replay = ReplayAborted | Checked(peer: Peer, isFresh: bool)

  datatype Received = Aborted | Dropped(peer: Peer) | Delivered(peer: Peer, payload: Bytes)

  /** `crypto_check_replay` on an authenticated packet. */
  function CheckReplay(s: Session, p: Peer, epoch: nat, id: nat, now: nat): Replay
    requires Usable(p)
    requires epoch != 0 ==> 1 <= p.decrypt.epoch && !Lookup(p, epoch).NoKey?
  {
    var pin := R.PacketId(id, 0);
    if epoch == 0 || p.decrypt.epoch == epoch then
      var (w, ok) := R.Check(p.rec, pin, now);
      Checked(p.(rec := w), ok)
    else if epoch == p.retiring.epoch then
      var (w, ok) := R.Check(p.retiringRec, pin, now);
      Checked(p.(retiringRec := w), ok)
    else if !ReplaceCompletes(p, epoch) then ReplayAborted
    else
      var q := Replaced(s, p, epoch);
      var (w, ok) := R.Check(q.rec, pin, now);
      Checked(q.(rec := w), ok)
  }

  /** The move to a future epoch: its key becomes the current one with an empty window, the current key retires
      with the window it had, and the send key follows if it was behind and is left alone otherwise. */
  lemma SwitchKeepsThePreviousKey(s: Session, p: Peer, epoch: nat, id: nat, now: nat)
    requires Inv(s, p) && Usable(p) && Lookup(p, epoch).Future? && CheckReplay(s, p, epoch, id, now).Checked?
    ensures var Checked(q, isFresh) := CheckReplay(s, p, epoch, id, now);
            && Lookup(q, epoch) == Current && KeyOf(q, Current) == KeyOf(p, Lookup(p, epoch))
            && Lookup(q, p.decrypt.epoch) == Retiring && KeyOf(q, Retiring) == p.decrypt && q.retiringRec == p.rec
            && (q.rec, isFresh) == R.Check(R.Empty(p.rec.backtrack, p.rec.timeBacktrack), R.PacketId(id, 0), now)
            && q.encrypt.epoch == Max(p.encrypt.epoch, epoch)
            && (if p.encrypt.epoch < epoch then q.encrypt == KeyAt(s, s.sendE1, epoch) && q.sendId == 0
                else q.encrypt == p.encrypt && q.sendId == p.sendId)
  {
  }

  /** The key a packet is to be opened with, the epoch and the counter it carries. */
  function Selected(p: Peer, body: Bytes): (r: (KeyRef, nat, nat))
    requires MinBody(p.format) <= |body|
    ensures r.0.Future? ==> r.0.index < |p.future|
  {
    if p.format.Epoch? then
      var (epoch, id) := ReadEpoch(body[..8]);
      (if epoch == 0 then NoKey else Lookup(p, epoch), epoch, id)
    else (Current, 0, FromBigEndian(body[..4]))
  }

  /** The length that the check of the work buffer counts. */
  function Buffered(format: Format, body: Bytes): int {
    |body| - IdLength(format) - if format.Epoch? then 0 else TAG_LENGTH
  }

  /** `openvpn_decrypt_aead` on what follows the header. */
  function Decrypt(s: Session, c: Cipher, p: Peer, header: Bytes, body: Bytes, capacity: nat, now: nat): Received
    requires Usable(p) && (p.format.Epoch? ==> 1 <= p.decrypt.epoch)
  {
    if p.format.Legacy? && p.decrypt.failedVerifications > VERIFY_FAIL_LIMIT then Dropped(p)
    else if |body| < MinBody(p.format) then Dropped(p)
    else
      var (ref, epoch, id) := Selected(p, body);
      if ref.NoKey? then Dropped(p)
      else
        var key := KeyOf(p, ref);
        if p.format.Epoch? && key.failedVerifications > VERIFY_FAIL_LIMIT then Dropped(p)
        else if Buffered(p.format, body) + c.blockSize > capacity then Dropped(p)
        else
          match OpenBody(c, p.format, key.cipherKey, key.implicitIv, header, body)
          case None => Dropped(WithKey(p, ref, key.(failedVerifications := key.failedVerifications + 1)))
          case Some(payload) =>
            Finished(CheckReplay(s, p, epoch, id, now), Blocks(c.finalLength(|payload|)), payload)
  }

  /** A body with no byte besides packet id and tag is dropped unread, in both formats. */
  lemma EmptyPacketIsDropped(s: Session, c: Cipher, p: Peer, header: Bytes, body: Bytes, capacity: nat, now: nat)
    requires Usable(p) && (p.format.Epoch? ==> 1 <= p.decrypt.epoch)
    requires |body| <= (if p.format.Epoch? then 8 else 4) + 16
    ensures Decrypt(s, c, p, header, body, capacity, now) == Dropped(p)
  {
  }

  /** What the replay check makes of a payload that passed the tag check. */
  function Finished(replay: Replay, blocks: nat, payload: Bytes): Received {
    match replay
    case ReplayAborted => Aborted
    case Checked(q, true) => Delivered(Counted(q, blocks), payload)
    case Checked(q, false) => Dropped(q)
  }

  /** The current receive key with some more blocks counted. The source counts what the final call of the
      cipher gave out, on the current key, whichever key opened the packet. */
  function Counted(p: Peer, blocks: nat): Peer {
    p.(decrypt := p.decrypt.(plaintextBlocks := p.decrypt.plaintextBlocks + blocks))
  }

  lemma CountedKeepsInv(s: Session, p: Peer, blocks: nat)
    requires Inv(s, p)
    ensures Inv(s, Counted(p, blocks))
  {
  }

  /** The key that opened a packet, once the packet has been dealt with. */
  function OpenedWith(q: Peer, ref: KeyRef): KeyCtx {
    if ref.Retiring? then q.retiring else q.decrypt
  }

  /** Where a delivered packet is counted: on the current key, with the blocks of the final call, also if the
      retiring key opened it. */
  lemma CountGoesToCurrentKey(s: Session, c: Cipher, p: Peer, header: Bytes, body: Bytes, capacity: nat, now: nat)
    requires Inv(s, p) && Usable(p) && Decrypt(s, c, p, header, body, capacity, now).Delivered?
    ensures MinBody(Epoch) <= |body|
    ensures var ref := Selected(p, body).0;
            var Delivered(q, payload) := Decrypt(s, c, p, header, body, capacity, now);
            var n := Blocks(c.finalLength(|payload|));
            && !ref.NoKey?
            && (ref.Retiring? ==> q.retiring == p.retiring && q.decrypt == Counted(p, n).decrypt)
            && (!ref.Retiring? ==> q.decrypt.plaintextBlocks == KeyOf(p, ref).plaintextBlocks + n)
  {
  }

  /** A delivered packet adds the blocks of its payload to the key that opened it exactly when that key was not
      the retiring one and the final call gives out as many blocks as the payload has. */
  lemma CountIsRightExactly(s: Session, c: Cipher, p: Peer, header: Bytes, body: Bytes, capacity: nat, now: nat)
    requires Inv(s, p) && Usable(p) && Decrypt(s, c, p, header, body, capacity, now).Delivered?
    ensures MinBody(Epoch) <= |body| && !Selected(p, body).0.NoKey?
    ensures var ref := Selected(p, body).0;
            var Delivered(q, payload) := Decrypt(s, c, p, header, body, capacity, now);
            payload != [] ==>
              (OpenedWith(q, ref).plaintextBlocks == KeyOf(p, ref).plaintextBlocks + Blocks(|payload|)
               <==> !ref.Retiring? && Blocks(c.finalLength(|payload|)) == Blocks(|payload|))
  {
    CountGoesToCurrentKey(s, c, p, header, body, capacity, now);
    BlocksOfNothing(|Decrypt(s, c, p, header, body, capacity, now).payload|);
  }

  /** The number of blocks of 16 bytes begun. */
  lemma BlocksBegun(n: nat)
    ensures 16 * Blocks(n) - 16 < n <= 16 * Blocks(n) || n == 0 == Blocks(n)
  {
  }

  lemma BlocksOfNothing(n: nat)
    ensures Blocks(n) == 0 <==> n == 0
  {
  }

  /** The send key against the key from which the last future receive key came: the send epoch is behind unless
      it is a whole window of future keys ahead of the current receive key. */
  lemma SendKeyAgainstReceiveKey(s: Session, p: Peer)
    requires Inv(s, p)
    ensures p.sendKey.epoch >= p.recvKey.epoch <==> p.encrypt.epoch >= p.decrypt.epoch + |p.future|
  {
  }

  /** It is behind from the start. */
  lemma SendKeyStartsBehind(s: Session, n: nat, limit: nat, backtrack: nat, timeBacktrack: nat)
    requires 1 <= n < UINT16_MAX
    ensures var p := Initial(s, n, limit, backtrack, timeBacktrack); p.sendKey.epoch < p.recvKey.epoch
  {
  }

  /** In the legacy format, from one peer to another with the same key: what `openvpn_encrypt_aead` makes,
      `openvpn_decrypt_aead` opens to the payload, and delivers exactly when the replay window takes the id. */
  lemma LegacyRoundTrip(s: Session, t: Session, c: Cipher, p: Peer, q: Peer, header: Bytes, payload: Bytes,
                        capacity: nat, room: nat, now: nat)
    requires Sound(c) && Usable(p) && Usable(q) && p.format.Legacy? && q.format.Legacy? && payload != []
    requires q.decrypt.cipherKey == p.encrypt.cipherKey && q.decrypt.implicitIv == p.encrypt.implicitIv
    requires q.decrypt.failedVerifications <= VERIFY_FAIL_LIMIT && p.sendId < PACKET_ID_MAX
    requires Encrypt(s, c, p, header, payload, capacity).1.Some? && |payload| + c.blockSize <= room
    ensures var (p1, body) := Encrypt(s, c, p, header, payload, capacity);
            var r := Decrypt(t, c, q, header, body.value, room, now);
            var (w, isFresh) := R.Check(q.rec, R.PacketId(p1.sendId, 0), now);
            r == if isFresh then Delivered(Counted(q.(rec := w), Blocks(c.finalLength(|payload|))), payload)
                 else Dropped(q.(rec := w))
  {
    var (p1, body) := Encrypt(s, c, p, header, payload, capacity);
    var id := IdBytes(Legacy, p1.encrypt.epoch, p1.sendId);
    OpenUndoesSeal(c, Legacy, p.encrypt.cipherKey, p.encrypt.implicitIv, header, id, payload);
    assert Pow256(4) == 0x1_0000_0000;
    BigEndianRoundTrip(p1.sendId, 4);
    SealedLength(c, p, header, id, payload);
  }

  lemma SealedLength(c: Cipher, p: Peer, header: Bytes, id: Bytes, payload: Bytes)
    requires Sound(c) && Usable(p) && |id| == IdLength(Legacy)
    ensures Buffered(Legacy, SealBody(c, Legacy, p.encrypt.cipherKey, p.encrypt.implicitIv, header, id, payload)) == |payload|
  {
    var iv := Nonce(id, p.encrypt.implicitIv);
    var x := c.seal(p.encrypt.cipherKey, iv, header + id, payload);
    assert |x.text| == |payload| && |x.tag| == TAG_LENGTH
           && c.open(p.encrypt.cipherKey, iv, header + id, x.text, x.tag) == Some(payload);
  }
}

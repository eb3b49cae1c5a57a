/** `struct crypto_options` updated in place by the epoch key steps and the AEAD packet paths. */
module CryptoOptionsModel {
  import opened Bytes
  import opened Aead
  import opened EpochKeys
  import R = ReplayWindow

  /** `free_key_ctx`. */
  function Freed(ctx: KeyCtx): KeyCtx {
    CLEARED.(failedVerifications := ctx.failedVerifications)
  }

  datatype Result = Abort | Drop | Deliver(payload: Bytes)

  class CryptoOptions {
    const schedule: Schedule
    const cipher: Cipher
    const format: Format
    const limit: nat
    var encrypt: KeyCtx
    var decrypt: KeyCtx
    var retiring: KeyCtx
    var future: array<KeyCtx>
    var sendKey: EpochKey
    var recvKey: EpochKey
    var sendId: nat
    var rec: R.Window
    var retiringRec: R.Window

    ghost function View(): Peer
      reads this, future
    {
      Peer(format, limit, encrypt, decrypt, retiring, future[..], sendKey, recvKey, sendId, rec, retiringRec)
    }

    /** A cleared structure after `packet_id_init`. */
    constructor (schedule: Schedule, cipher: Cipher, format: Format, limit: nat, backtrack: nat, timeBacktrack: nat)
      ensures fresh(future) && this.schedule == schedule && this.cipher == cipher
      ensures View() == Peer(format, limit, CLEARED, CLEARED, CLEARED, [], EpochKey([], 0), EpochKey([], 0), 0,
                             R.Empty(backtrack, timeBacktrack), R.Empty(0, 0))
    {
      this.schedule, this.cipher, this.format, this.limit := schedule, cipher, format, limit;
      encrypt, decrypt, retiring := CLEARED, CLEARED, CLEARED;
      future := new KeyCtx[0];
      sendKey, recvKey, sendId := EpochKey([], 0), EpochKey([], 0), 0;
      rec, retiringRec := R.Empty(backtrack, timeBacktrack), R.Empty(0, 0);
    }

    /** Frees the future keys older than the current receive key. */
    method FreeOldKeys()
      modifies future
      ensures forall i :: 0 <= i < future.Length ==>
                future[i] == if 0 < old(future[i]).epoch < decrypt.epoch then Freed(old(future[i])) else old(future[i])
    {
      for i := 0 to future.Length
        invariant forall k :: 0 <= k < i ==>
                    future[k] == if 0 < old(future[k]).epoch < decrypt.epoch then Freed(old(future[k])) else old(future[k])
        invariant forall k :: i <= k < future.Length ==> future[k] == old(future[k])
      {
        if future[i].epoch > 0 && future[i].epoch < decrypt.epoch {
          future[i] := Freed(future[i]);
        }
      }
    }

    /** Whether the first `count` slots are free. */
    method SlotsFree(count: nat) returns (ok: bool)
      requires count <= future.Length
      ensures ok <==> forall i :: 0 <= i < count ==> future[i].epoch == 0
    {
      for i := 0 to count
        invariant forall k :: 0 <= k < i ==> future[k].epoch == 0
      {
        if future[i].epoch != 0 {
          return false;
        }
      }
      return true;
    }

    /** Whether every slot holds a key. */
    method SlotsInitialised() returns (ok: bool)
      ensures ok <==> AllInitialised(future[..])
    {
      for i := 0 to future.Length
        invariant forall k :: 0 <= k < i ==> future[k].epoch > 0
      {
        if future[i].epoch == 0 {
          assert future[..][i].epoch == 0;
          return false;
        }
      }
      return true;
    }

    /** Fills the slots from `start` on with the keys of the epochs after `recvKey`. Epoch numbers
        wrap at 16 bits; `high` is the unwrapped epoch of `recvKey`. */
    method RegenerateFrom(start: nat, ghost e1: Bytes, ghost high: nat)
      requires start <= future.Length && 1 <= high
      requires recvKey == Wrapped(schedule, e1, high)
      modifies `recvKey, future
      ensures future[..] == old(future[..start]) + WrappedKeys(schedule, e1, high + 1, future.Length - start)
      ensures recvKey == Wrapped(schedule, e1, high + future.Length - start)
    {
      var i := start;
      while i < future.Length
        invariant start <= i <= future.Length
        invariant recvKey == Wrapped(schedule, e1, high + (i - start))
        invariant future[..i] == old(future[..start]) + WrappedKeys(schedule, e1, high + 1, i - start)
      {
        RegenerateSlot(i);
        WrappedStep(schedule, e1, high + (i - start));
        i := i + 1;
      }
      assert future[..] == future[..i];
    }

    /** One slot: it is cleared and takes the key of the next epoch. */
    method RegenerateSlot(i: nat)
      requires i < future.Length
      modifies `recvKey, future
      ensures recvKey == Iterated(schedule, old(recvKey))
      ensures future[..i + 1] == old(future[..i]) + [DataKey(schedule, recvKey)]
    {
      future[i] := CLEARED;
      recvKey := Iterated(schedule, recvKey);
      future[i] := DataKey(schedule, recvKey);
    }

    /** The `memmove` over the slots that are not needed any more. */
    method MoveDown(distance: nat)
      requires distance <= future.Length
      modifies future
      ensures future[..future.Length - distance] == old(future[distance..])
    {
      forall i | 0 <= i < future.Length - distance {
        future[i] := future[i + distance];
      }
    }

    /** First half of `epoch_generate_future_receive_keys`: the ASSERT on the highest key, freeing
        of old keys and the number of keys to generate, in 16-bit arithmetic. */
    method PrepareFutureKeys(ghost g: nat) returns (ok: bool, generate: nat)
      requires FutureShape(future[..], decrypt.epoch, recvKey.epoch, g)
      modifies future
      ensures ok <==> g < future.Length || recvKey.epoch == 1
      ensures ok ==> generate == g && future[g..] == old(future[g..])
      ensures ok ==> forall i :: 0 <= i < g ==> future[i].epoch == 0
    {
      var count := future.Length;
      if !(recvKey.epoch == 1 || future[count - 1].epoch == recvKey.epoch) {
        return false, 0;
      }
      FreeOldKeys();
      var highest := future[count - 1].epoch;
      var currentHighest := if highest != 0 then highest else 1;
      var desiredHighest := (decrypt.epoch + count) % 65536;
      generate := (desiredHighest - currentHighest) % 65536;
      assert currentHighest == decrypt.epoch + count - g;
      Distance(decrypt.epoch + count, currentHighest);
      ok := true;
    }

    /** Second half: the kept keys move down, the next epochs are derived, and the last ASSERT
        holds exactly when no epoch number wrapped. */
    method RefillFutureKeys(generate: nat, ghost s: Session, ghost high: nat) returns (ok: bool)
      requires generate <= future.Length && 1 <= high <= UINT16_MAX && s.schedule == schedule
      requires recvKey == EpochKeyAt(schedule, s.recvE1, high)
      requires AllInitialised(future[generate..])
      modifies `recvKey, future
      ensures ok <==> high + generate <= UINT16_MAX
      ensures ok ==> recvKey == EpochKeyAt(schedule, s.recvE1, high + generate)
      ensures ok ==> future[..] == old(future[generate..]) + Keys(s, s.recvE1, high + 1, generate)
    {
      var count := future.Length;
      ghost var kept := future[generate..];
      MoveDown(generate);
      RegenerateFrom(count - generate, s.recvE1, high);
      KeysInitialised(kept, future[..], s, high, generate);
      ok := SlotsInitialised();
    }

    /** `epoch_generate_future_receive_keys`: every ASSERT in it holds exactly under the stated
        condition, and then the kept keys move down and the next `g` epochs follow them. */
    method GenerateFutureReceiveKeys(ghost s: Session, ghost g: nat) returns (ok: bool)
      requires FutureShape(future[..], decrypt.epoch, recvKey.epoch, g) && s.schedule == schedule
      requires recvKey == EpochKeyAt(schedule, s.recvE1, recvKey.epoch)
      modifies `recvKey, future
      ensures ok <==> && (g < future.Length || old(recvKey).epoch == 1)
                      && decrypt.epoch + future.Length <= UINT16_MAX
      ensures ok ==>
                && recvKey == EpochKeyAt(schedule, s.recvE1, decrypt.epoch + future.Length)
                && future[..] == old(future[g..])
                               + Keys(s, s.recvE1, decrypt.epoch + future.Length - g + 1, g)
    {
      ghost var kept, high := future[g..], decrypt.epoch + future.Length - g;
      assert AllInitialised(kept);
      var generate;
      ok, generate := PrepareFutureKeys(g);
      if !ok {
        return;
      }
      var free := SlotsFree(generate);
      assert free;
      ok := RefillFutureKeys(generate, s, high);
    }

    /** `epoch_init_send_key_ctx`; its ASSERT is the precondition. */
    method InitSendKeyCtx()
      requires encrypt.epoch != sendKey.epoch
      modifies `encrypt, `sendId
      ensures encrypt == DataKey(schedule, sendKey) && sendId == 0
    {
      encrypt := DataKey(schedule, sendKey);
      sendId := 0;
    }

    /** `epoch_init_key_ctx` on a cleared structure: it passes its ASSERTs exactly when both keys
        are first epoch keys and the last future epoch fits 16 bits. */
    method InitKeyCtx(e1Send: EpochKey, e1Recv: EpochKey, count: nat, ghost s: Session) returns (ok: bool)
      requires encrypt.epoch == 0 && 1 <= count <= UINT16_MAX
      requires s == Session(schedule, e1Send.secret, e1Recv.secret)
      modifies this
      ensures ok <==> e1Send.epoch == 1 && e1Recv.epoch == 1 && count < UINT16_MAX
      ensures ok ==> fresh(future)
      ensures ok ==> View() == Initial(s, count, limit, 0, 0).(format := format, retiring := old(retiring),
                                                               rec := old(rec), retiringRec := old(retiringRec))
    {
      if !(e1Send.epoch == 1 && e1Recv.epoch == 1) {
        return false;
      }
      recvKey := e1Recv;
      sendKey := e1Send;
      InitSendKeyCtx();
      decrypt := DataKey(schedule, recvKey);
      future := new KeyCtx[count](_ => CLEARED);
      FirstFill(s, View());
      ok := RegenerateAfter(s, count);
    }

    /** `epoch_iterate_send_key`; its ASSERT on the epoch is the precondition. */
    method IterateSendKey()
      requires sendKey.epoch < UINT16_MAX
      modifies `encrypt, `sendKey, `sendId
      ensures sendKey == Iterated(schedule, old(sendKey))
      ensures encrypt == DataKey(schedule, sendKey) && sendId == 0
    {
      sendKey := Iterated(schedule, sendKey);
      encrypt := Freed(encrypt);
      InitSendKeyCtx();
    }

    /** `epoch_check_send_iterate`. */
    method CheckSendIterate(ghost s: Session)
      requires s.schedule == schedule && sendKey.epoch <= UINT16_MAX
      modifies `encrypt, `sendKey, `sendId
      ensures View() == CheckSend(s, old(View()))
      ensures Inv(s, old(View())) ==>
                encrypt.epoch == old(encrypt.epoch) + if MustStep(old(View())) && old(encrypt.epoch) < 65535 then 1 else 0
    {
      ghost var p := View();
      if Inv(s, p) {
        CheckSendStepsExactly(s, p);
      }
      if sendKey.epoch == UINT16_MAX {
        return;
      }
      if limit != 0 {
        if UsageReached(limit, encrypt, sendId) {
          IterateSendKey();
        } else if encrypt.epoch == decrypt.epoch
               && (UsageReached(limit, decrypt, rec.id) || decrypt.failedVerifications > VERIFY_FAIL_WARN) {
          IterateSendKey();
        }
      }
      if sendId == PACKET_ID_EPOCH_MAX {
        IterateSendKey();
      }
    }

    /** The first slot whose key belongs to `epoch`, or the number of slots. */
    method FindFuture(epoch: nat) returns (index: nat)
      ensures index <= future.Length
      ensures forall i :: 0 <= i < index ==> future[i].epoch != epoch
      ensures index < future.Length ==> future[index].epoch == epoch
    {
      index := 0;
      while index < future.Length
        invariant index <= future.Length
        invariant forall i :: 0 <= i < index ==> future[i].epoch != epoch
      {
        if future[index].epoch == epoch {
          break;
        }
        index := index + 1;
      }
    }

    /** The part of `epoch_replace_update_recv_key` that brings the send key up to the new epoch. */
    method DragSendKey(epoch: nat, ghost s: Session)
      requires s.schedule == schedule && 1 <= encrypt.epoch && epoch <= UINT16_MAX
      requires sendKey == EpochKeyAt(schedule, s.sendE1, encrypt.epoch)
      modifies `encrypt, `sendKey, `sendId
      ensures if old(encrypt).epoch < epoch
              then encrypt == KeyAt(s, s.sendE1, epoch) && sendKey == EpochKeyAt(schedule, s.sendE1, epoch) && sendId == 0
              else encrypt == old(encrypt) && sendKey == old(sendKey) && sendId == old(sendId)
    {
      if encrypt.epoch < epoch {
        encrypt := Freed(encrypt);
        while sendKey.epoch < epoch
          invariant encrypt.epoch == 0 && 1 <= sendKey.epoch <= epoch
          invariant sendKey == EpochKeyAt(schedule, s.sendE1, sendKey.epoch)
          decreases epoch - sendKey.epoch
        {
          sendKey := Iterated(schedule, sendKey);
        }
        InitSendKeyCtx();
      }
    }

    /** The part that moves the current key to the retiring one and a future key in its place. */
    method PromoteKey(epoch: nat, index: nat, ghost s: Session)
      requires index < future.Length && s.schedule == schedule && 1 <= encrypt.epoch && epoch <= UINT16_MAX
      requires sendKey == EpochKeyAt(schedule, s.sendE1, encrypt.epoch) && 1 <= epoch
      modifies this, future
      ensures future == old(future)
      ensures View() == Promoted(s, old(View()), epoch, index)
      ensures retiring == old(decrypt) && retiringRec == old(rec) && decrypt == old(future[index])
    {
      var newCtx := future[index];
      DragSendKey(epoch, s);
      retiring := decrypt;
      retiringRec := rec;
      rec := R.Empty(retiringRec.backtrack, retiringRec.timeBacktrack);
      decrypt := newCtx;
      future[index] := CLEARED;
      assert future[..] == old(future[..])[index := CLEARED];
    }

    /** The generator, on the whole state. */
    method RegenerateAfter(ghost s: Session, ghost g: nat) returns (ok: bool)
      requires FutureShape(future[..], decrypt.epoch, recvKey.epoch, g) && s.schedule == schedule
      requires recvKey == EpochKeyAt(schedule, s.recvE1, recvKey.epoch)
      modifies `recvKey, future
      ensures ok <==> && (g < future.Length || old(recvKey).epoch == 1)
                      && decrypt.epoch + future.Length <= UINT16_MAX
      ensures ok ==> View() == Refilled(s, old(View()), g)
    {
      ghost var kept := future[g..];
      assert kept == View().future[g..];
      ok := GenerateFutureReceiveKeys(s, g);
    }

    /** `epoch_replace_update_recv_key` for any 16-bit epoch: its ASSERTs hold exactly when
        `ReplaceCompletes`, and then the new state is the closed form. */
    method ReplaceUpdateRecvKey(epoch: nat, ghost s: Session) returns (ok: bool)
      requires s.schedule == schedule && Inv(s, View()) && epoch <= UINT16_MAX
      modifies this, future
      ensures future == old(future)
      ensures ok <==> ReplaceCompletes(old(View()), epoch)
      ensures ok ==> View() == Replaced(s, old(View()), epoch)
      ensures ok ==> retiring == old(decrypt) && retiringRec == old(rec) && decrypt.epoch == epoch
    {
      ghost var p := View();
      var index := FindFuture(epoch);
      FutureIndex(s, p, epoch, index);
      if index >= future.Length {
        return false;
      }
      PromoteKey(epoch, index, s);
      PromotedShape(s, p, epoch, index);
      ok := RegenerateAfter(s, index + 1);
    }

    /** `epoch_lookup_decrypt_key`. */
    method LookupDecryptKey(epoch: nat) returns (r: KeyRef)
      ensures r == Lookup(View(), epoch)
    {
      if decrypt.epoch == epoch {
        return Current;
      } else if retiring.epoch != 0 && retiring.epoch == epoch {
        return Retiring;
      } else if epoch > decrypt.epoch && epoch <= decrypt.epoch + future.Length {
        var index := epoch - (decrypt.epoch + 1);
        if epoch > UINT16_MAX - future.Length - 1 {
          return NoKey;
        } else {
          return Future(index);
        }
      } else {
        return NoKey;
      }
    }

    /** `crypto_check_replay`. */
    method CheckReplayId(epoch: nat, id: nat, now: nat, ghost s: Session) returns (aborted: bool, isFresh: bool)
      requires s.schedule == schedule && Usable(View()) && epoch <= UINT16_MAX
      requires epoch != 0 ==> Inv(s, View()) && !Lookup(View(), epoch).NoKey?
      modifies this, future
      ensures future == old(future)
      ensures aborted <==> CheckReplay(s, old(View()), epoch, id, now).ReplayAborted?
      ensures !aborted ==> CheckReplay(s, old(View()), epoch, id, now) == Checked(View(), isFresh)
    {
      aborted, isFresh := false, false;
      var pin := R.PacketId(id, 0);
      if epoch == 0 || decrypt.epoch == epoch {
        rec := R.ReapTest(rec, now);
        if R.Test(rec, pin) {
          rec := R.Add(rec, pin, now);
          isFresh := true;
        }
      } else if epoch == retiring.epoch {
        retiringRec := R.ReapTest(retiringRec, now);
        if R.Test(retiringRec, pin) {
          retiringRec := R.Add(retiringRec, pin, now);
          isFresh := true;
        }
      } else {
        var ok := ReplaceUpdateRecvKey(epoch, s);
        if !ok {
          return true, false;
        }
        rec := R.ReapTest(rec, now);
        if R.Test(rec, pin) {
          rec := R.Add(rec, pin, now);
          isFresh := true;
        }
      }
    }

    /** `openvpn_encrypt_aead`: header and packet id are written to the work buffer, which is the
        additional data, then ciphertext and tag in the order of the format. */
    method EncryptAead(header: Bytes, payload: Bytes, capacity: nat, ghost s: Session)
      returns (aborted: bool, body: Option<Bytes>)
      requires s.schedule == schedule && Usable(View()) && sendKey.epoch <= UINT16_MAX
      modifies `encrypt, `sendKey, `sendId
      ensures aborted <==> EncryptAborts(s, old(View()), header, capacity)
      ensures !aborted ==> (View(), body) == Encrypt(s, cipher, old(View()), header, payload, capacity)
    {
      if format.Epoch? {
        CheckSendIterate(s);
      }
      if sendId == (if format.Epoch? then PACKET_ID_EPOCH_MAX else PACKET_ID_MAX) {
        return false, None;
      }
      sendId := sendId + 1;
      var idBytes := if format.Epoch? then BigEndian(encrypt.epoch * EPOCH_SHIFT + sendId, 8) else BigEndian(sendId, 4);
      var work := header + idBytes;
      if |work| > capacity {
        return true, None;
      }
      var iv := BuildNonce(idBytes, encrypt.implicitIv);
      if |work| + |payload| + TAG_LENGTH + cipher.blockSize > capacity {
        return false, None;
      }
      var sealed := cipher.seal(encrypt.cipherKey, iv, work, payload);
      var outlen := UpdateLength(cipher, |payload|);
      encrypt := encrypt.(plaintextBlocks := encrypt.plaintextBlocks + Blocks(outlen));
      if format.Epoch? {
        return false, Some(idBytes + sealed.text + sealed.tag);
      } else {
        return false, Some(idBytes + sealed.tag + sealed.text);
      }
    }

    /** A failed tag check is counted on the key that was tried. */
    method CountFailure(r: KeyRef)
      requires !r.NoKey? && (r.Future? ==> r.index < future.Length)
      modifies this, future
      ensures future == old(future)
      ensures View() == WithKey(old(View()), r, KeyOf(old(View()), r).(
                failedVerifications := KeyOf(old(View()), r).failedVerifications + 1))
    {
      match r {
        case Current => decrypt := decrypt.(failedVerifications := decrypt.failedVerifications + 1);
        case Retiring => retiring := retiring.(failedVerifications := retiring.failedVerifications + 1);
        case Future(i) =>
          future[i] := future[i].(failedVerifications := future[i].failedVerifications + 1);
          assert future[..] == old(future[..])[i := future[i]];
      }
    }

    /** `openvpn_decrypt_aead` on what follows the header. */
    method DecryptAead(header: Bytes, body: Bytes, capacity: nat, now: nat, ghost s: Session) returns (r: Result)
      requires s.schedule == schedule && Usable(View()) && (format.Epoch? ==> Inv(s, View()))
      modifies this, future
      ensures future == old(future)
      ensures Agrees(r, Decrypt(s, cipher, old(View()), header, body, capacity, now))
    {
      if format.Legacy? && decrypt.failedVerifications > VERIFY_FAIL_LIMIT {
        return Drop;
      }
      if |body| < 4 + TAG_LENGTH + 1 + (if format.Epoch? then 4 else 0) {
        return Drop;
      }
      var ref, epoch, id := Current, 0, 0;
      if format.Epoch? {
        var packetId := FromBigEndian(body[..8]);
        EpochFits(body[..8]);
        epoch, id := packetId / EPOCH_SHIFT, packetId % EPOCH_SHIFT;
        if epoch == 0 {
          return Drop;
        }
        ref := LookupDecryptKey(epoch);
        if ref.NoKey? {
          return Drop;
        }
      } else {
        id := FromBigEndian(body[..4]);
      }
      assert (ref, epoch, id) == Selected(View(), body);
      r := OpenSelected(header, body, capacity, now, ref, epoch, id, s);
    }

    method SelectedKey(ref: KeyRef) returns (key: KeyCtx)
      requires !ref.NoKey? && (ref.Future? ==> ref.index < future.Length)
      ensures key == KeyOf(View(), ref)
    {
      match ref {
        case Current => return decrypt;
        case Retiring => return retiring;
        case Future(i) => return future[i];
      }
    }

    /** The fields of the packet, and what the cipher makes of them if the buffer is large enough. */
    method Unseal(key: KeyCtx, header: Bytes, body: Bytes, capacity: nat) returns (fits: bool, plain: Option<Bytes>)
      requires IdLength(format) <= |key.implicitIv| && MinBody(format) <= |body|
      ensures fits == (Buffered(format, body) + cipher.blockSize <= capacity)
      ensures fits ==> plain == OpenBody(cipher, format, key.cipherKey, key.implicitIv, header, body)
    {
      var idBytes, rest := body[..IdLength(format)], body[IdLength(format)..];
      var iv := BuildNonce(idBytes, key.implicitIv);
      var ad := header + idBytes;
      var tag, text;
      if format.Epoch? {
        text := rest[..|rest| - TAG_LENGTH];
        tag := rest[|rest| - TAG_LENGTH..];
      } else {
        tag := rest[..TAG_LENGTH];
        rest := rest[TAG_LENGTH..];
        text := rest;
      }
      if |rest| + cipher.blockSize > capacity {
        return false, None;
      }
      return true, cipher.open(key.cipherKey, iv, ad, text, tag);
    }

    /** The rest of `openvpn_decrypt_aead`, once the key is known. */
    method OpenSelected(header: Bytes, body: Bytes, capacity: nat, now: nat, ref: KeyRef, epoch: nat, id: nat,
                        ghost s: Session) returns (r: Result)
      requires s.schedule == schedule && Usable(View()) && (format.Epoch? ==> Inv(s, View()))
      requires MinBody(format) <= |body| && (ref, epoch, id) == Selected(View(), body) && !ref.NoKey?
      requires format.Legacy? ==> decrypt.failedVerifications <= VERIFY_FAIL_LIMIT
      requires epoch <= UINT16_MAX
      modifies this, future
      ensures future == old(future)
      ensures Agrees(r, Decrypt(s, cipher, old(View()), header, body, capacity, now))
    {
      var key := SelectedKey(ref);
      if format.Epoch? && key.failedVerifications > VERIFY_FAIL_LIMIT {
        return Drop;
      }
      var fits, plain := Unseal(key, header, body, capacity);
      if !fits {
        return Drop;
      }
      if plain.None? {
        CountFailure(ref);
        return Drop;
      }
      r := FinishPacket(plain.value, epoch, id, now, s);
    }

    /** The end of `openvpn_decrypt_aead`: the replay check and the count of blocks. */
    method FinishPacket(payload: Bytes, epoch: nat, id: nat, now: nat, ghost s: Session) returns (r: Result)
      requires s.schedule == schedule && Usable(View()) && epoch <= UINT16_MAX
      requires epoch != 0 ==> Inv(s, View()) && !Lookup(View(), epoch).NoKey?
      modifies this, future
      ensures future == old(future)
      ensures Agrees(r, Finished(CheckReplay(s, old(View()), epoch, id, now), Blocks(cipher.finalLength(|payload|)), payload))
    {
      var aborted, isFresh := CheckReplayId(epoch, id, now, s);
      if aborted {
        return Abort;
      }
      if !isFresh {
        return Drop;
      }
      var outlen := cipher.finalLength(|payload|);
      decrypt := decrypt.(plaintextBlocks := decrypt.plaintextBlocks + Blocks(outlen));
      return Deliver(payload);
    }

    /** The object stands where the result on values says. */
    ghost predicate Agrees(r: Result, x: Received)
      reads this, future
    {
      match x
      case Aborted => r.Abort?
      case Dropped(q) => r.Drop? && View() == q
      case Delivered(q, payload) => r == Deliver(payload) && View() == q
    }
  }

  lemma EpochFits(b: Bytes)
    requires |b| == 8
    ensures FromBigEndian(b) / EPOCH_SHIFT <= UINT16_MAX
  {
    FromBigEndianRoundTrip(b);
    assert Pow256(8) == 65536 * EPOCH_SHIFT by {
      assert Pow256(4) == 0x1_0000_0000;
    }
  }

  /** The state between moving the keys and deriving the missing ones. */
  ghost function Promoted(s: Session, p: Peer, epoch: nat, index: nat): Peer
    requires index < |p.future| && 1 <= epoch
  {
    var behind := p.encrypt.epoch < epoch;
    p.(
      encrypt := if behind then KeyAt(s, s.sendE1, epoch) else p.encrypt,
      sendKey := if behind then EpochKeyAt(s.schedule, s.sendE1, epoch) else p.sendKey,
      sendId := if behind then 0 else p.sendId,
      retiring := p.decrypt,
      retiringRec := p.rec,
      rec := R.Empty(p.rec.backtrack, p.rec.timeBacktrack),
      decrypt := p.future[index],
      future := p.future[index := CLEARED])
  }

  /** The first `g` slots dropped and the next `g` epochs added behind the others. */
  ghost function Refilled(s: Session, q: Peer, g: nat): Peer
    requires g <= |q.future| && 1 <= q.decrypt.epoch
  {
    var n := |q.future|;
    q.(future := q.future[g..] + Keys(s, s.recvE1, q.decrypt.epoch + n - g + 1, g),
       recvKey := EpochKeyAt(s.schedule, s.recvE1, q.decrypt.epoch + n))
  }

  /** Filling the cleared slots for the first time. */
  lemma FirstFill(s: Session, q: Peer)
    requires 1 <= |q.future| <= UINT16_MAX && forall i :: 0 <= i < |q.future| ==> q.future[i] == CLEARED
    requires q.sendKey == EpochKey(s.sendE1, 1) && q.encrypt == DataKey(s.schedule, q.sendKey) && q.sendId == 0
    requires q.recvKey == EpochKey(s.recvE1, 1) && q.decrypt == DataKey(s.schedule, q.recvKey)
    ensures var n := |q.future|;
            && FutureShape(q.future, 1, 1, n)
            && q.recvKey == EpochKeyAt(s.schedule, s.recvE1, 1)
            && Refilled(s, q, n) == Initial(s, n, q.limit, 0, 0).(format := q.format, retiring := q.retiring,
                                                                  rec := q.rec, retiringRec := q.retiringRec)
  {
    assert q.future[|q.future|..] == [];
  }

  /** After the promotion the slots have the shape the generator expects, and filling them up
      gives the closed form. */
  lemma PromotedShape(s: Session, p: Peer, epoch: nat, index: nat)
    requires Inv(s, p) && index < |p.future| && epoch == p.decrypt.epoch + 1 + index
    ensures var q := Promoted(s, p, epoch, index);
            && q.decrypt.epoch == epoch
            && FutureShape(q.future, epoch, q.recvKey.epoch, index + 1)
            && q.recvKey == EpochKeyAt(s.schedule, s.recvE1, q.recvKey.epoch)
            && (ReplaceCompletes(p, epoch) <==>
                  (index + 1 < |q.future| || q.recvKey.epoch == 1) && epoch + |q.future| <= UINT16_MAX)
            && Replaced(s, p, epoch) == Refilled(s, q, index + 1)
  {
    FutureEpochs(s, p);
  }

  lemma FutureEpochs(s: Session, p: Peer)
    requires Inv(s, p)
    ensures forall i :: 0 <= i < |p.future| ==> p.future[i].epoch == p.decrypt.epoch + 1 + i
  {
    forall i | 0 <= i < |p.future|
      ensures p.future[i].epoch == p.decrypt.epoch + 1 + i
    {
      assert IsKeyAt(s, s.recvE1, p.future[i], p.decrypt.epoch + 1 + i);
    }
  }

  /** Under the invariant a search by epoch finds the slot that the arithmetic gives. */
  lemma FutureIndex(s: Session, p: Peer, epoch: nat, index: nat)
    requires Inv(s, p) && index <= |p.future|
    requires forall i :: 0 <= i < index ==> p.future[i].epoch != epoch
    requires index < |p.future| ==> p.future[index].epoch == epoch
    ensures index < |p.future| ==> epoch == p.decrypt.epoch + 1 + index
    ensures index == |p.future| ==> !(p.decrypt.epoch < epoch <= p.decrypt.epoch + |p.future|)
  {
    FutureEpochs(s, p);
    var i := epoch - p.decrypt.epoch - 1;
    assert 0 <= i < |p.future| ==> p.future[i].epoch == epoch;
  }

  /** Of the slots, the first `g` hold keys older than the current receive key or none, the
      others hold consecutive epochs after it; the receive epoch key is at the last of these. */
  ghost predicate FutureShape(keys: seq<KeyCtx>, decryptEpoch: nat, recvEpoch: nat, g: nat) {
    && 1 <= g <= |keys| <= UINT16_MAX
    && 1 <= decryptEpoch && 1 <= recvEpoch <= UINT16_MAX
    && recvEpoch == decryptEpoch + |keys| - g
    && (forall i :: 0 <= i < g ==> keys[i].epoch < decryptEpoch)
    && (forall i :: g <= i < |keys| ==> keys[i].epoch == decryptEpoch + 1 + i - g)
  }

  ghost predicate AllInitialised(keys: seq<KeyCtx>) {
    forall i :: 0 <= i < |keys| ==> keys[i].epoch > 0
  }

  lemma Distance(desired: nat, current: nat)
    requires current <= desired <= current + UINT16_MAX
    ensures (desired % 65536 - current) % 65536 == desired - current
  {
  }

  /** The key of epoch `n` with its number cut to 16 bits. */
  function Wrapped(schedule: Schedule, e1: Bytes, n: nat): EpochKey
    requires n >= 1
  {
    EpochKey(EpochKeyAt(schedule, e1, n).secret, n % 65536)
  }

  lemma WrappedStep(schedule: Schedule, e1: Bytes, n: nat)
    requires n >= 1
    ensures Iterated(schedule, Wrapped(schedule, e1, n)) == Wrapped(schedule, e1, n + 1)
  {
  }

  function WrappedKeys(schedule: Schedule, e1: Bytes, first: nat, count: nat): (ks: seq<KeyCtx>)
    requires first >= 1
    ensures |ks| == count
    decreases count
  {
    if count == 0 then []
    else WrappedKeys(schedule, e1, first, count - 1) + [DataKey(schedule, Wrapped(schedule, e1, first + count - 1))]
  }

  lemma {:induction false} WrappedKeysBelow(s: Session, first: nat, count: nat)
    requires first >= 1 && first + count <= 65536
    ensures WrappedKeys(s.schedule, s.recvE1, first, count) == Keys(s, s.recvE1, first, count)
  {
    if count > 0 {
      WrappedKeysBelow(s, first, count - 1);
    }
  }

  lemma {:induction false} WrappedKeysEpoch(schedule: Schedule, e1: Bytes, first: nat, count: nat, i: nat)
    requires first >= 1 && i < count
    ensures WrappedKeys(schedule, e1, first, count)[i].epoch == (first + i) % 65536
  {
    if i < count - 1 {
      WrappedKeysEpoch(schedule, e1, first, count - 1, i);
    }
  }

  /** Regenerated keys all have a non-zero epoch exactly when their numbers did not wrap. */
  lemma KeysInitialised(kept: seq<KeyCtx>, all: seq<KeyCtx>, s: Session, high: nat, g: nat)
    requires AllInitialised(kept) && 1 <= high <= UINT16_MAX
    requires all == kept + WrappedKeys(s.schedule, s.recvE1, high + 1, g)
    ensures AllInitialised(all) <==> high + g <= UINT16_MAX
    ensures high + g <= UINT16_MAX ==>
              && all == kept + Keys(s, s.recvE1, high + 1, g)
              && Wrapped(s.schedule, s.recvE1, high + g) == EpochKeyAt(s.schedule, s.recvE1, high + g)
  {
    var made := WrappedKeys(s.schedule, s.recvE1, high + 1, g);
    if high + g <= UINT16_MAX {
      WrappedKeysBelow(s, high + 1, g);
    } else {
      var bad := 65535 - high;
      WrappedKeysEpoch(s.schedule, s.recvE1, high + 1, g, bad);
      assert all[|kept| + bad] == made[bad];
    }
  }
}

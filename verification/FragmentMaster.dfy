/** `struct fragment_master`, updated in place. */
module FragmentMasterModel {
  import opened Bytes
  import opened Arithmetic
  import opened FragmentHeader
  import opened Fragmentation
  import Modulo

  class FragmentMaster {
    const maxFragmentSize: nat
    const capacity: nat
    var outgoingSeqId: nat
    var outgoingFragSize: nat
    var outgoingFragId: nat
    var outgoing: Bytes
    var seqId: int
    var index: int
    const fragments: array<Slot>

    ghost predicate Valid()
      reads this, fragments
    {
      && ROUND <= maxFragmentSize < MAX_SIZE + ROUND
      && outgoingSeqId < N_SEQ_ID && outgoingFragSize <= maxFragmentSize
      && RingOk(List())
    }

    ghost function List(): Ring
      reads this, fragments
    {
      Ring(seqId, index, fragments[..])
    }

    /** `fragment_init` and `fragment_frame_init`; the first sequence number is random. */
    constructor (random: nat, maxFragmentSize: nat, capacity: nat)
      requires ROUND <= maxFragmentSize < MAX_SIZE + ROUND
      ensures Valid() && fresh(fragments) && outgoing == []
      ensures this.maxFragmentSize == maxFragmentSize && this.capacity == capacity
      ensures seqId == 0 && index == 0
      ensures forall j :: 0 <= j < N_FRAG_BUF ==> !fragments[j].defined && |fragments[j].data| == capacity
    {
      this.maxFragmentSize, this.capacity := maxFragmentSize, capacity;
      outgoingSeqId := random % N_SEQ_ID;
      outgoingFragSize, outgoingFragId, outgoing := 0, 0, [];
      seqId, index := 0, 0;
      fragments := new Slot[N_FRAG_BUF](_ => Slot(false, 0, {}, 0, Zeros(capacity), 0));
    }

    /** The loop that gives up every slot. */
    method UndefineAll()
      requires fragments.Length == N_FRAG_BUF
      modifies fragments
      ensures fragments[..] == AllUndefined(old(fragments[..]))
    {
      for i := 0 to N_FRAG_BUF
        invariant forall k :: 0 <= k < i ==> fragments[k] == Undefined(old(fragments[k]))
        invariant forall k :: i <= k < N_FRAG_BUF ==> fragments[k] == old(fragments[k])
      {
        fragments[i] := Undefined(fragments[i]);
      }
    }

    /** The loop that moves the window forward one sequence number at a time. */
    method SlideBy(steps: nat)
      requires RingOk(List()) && steps < N_FRAG_BUF
      modifies `seqId, `index, fragments
      ensures seqId == Modulo.Add(old(seqId), steps, N_SEQ_ID)
      ensures index == Modulo.Add(old(index), steps, N_FRAG_BUF)
      ensures fragments[..] == Cleared(old(fragments[..]), old(index), steps)
    {
      ghost var slots, start := fragments[..], index;
      var diff := steps;
      ClearedNone(slots, start);
      while diff > 0
        invariant 0 <= diff <= steps
        invariant seqId == Modulo.Add(old(seqId), steps - diff, N_SEQ_ID)
        invariant index == Modulo.Add(start, steps - diff, N_FRAG_BUF)
        invariant fragments[..] == Cleared(slots, start, steps - diff)
      {
        ClearedOneMore(slots, start, steps - diff);
        ghost var before := fragments[..];
        index := Modulo.Add(index, 1, N_FRAG_BUF);
        fragments[index] := Undefined(fragments[index]);
        assert fragments[..] == before[index := Undefined(before[index])];
        seqId := Modulo.Add(seqId, 1, N_SEQ_ID);
        diff := diff - 1;
      }
    }

    /** `fragment_list_get_buf`. */
    method GetBufSlot(id: int) returns (slot: int)
      requires RingOk(List()) && 0 <= id < N_SEQ_ID
      modifies `seqId, `index, fragments
      ensures (List(), slot) == GetBuf(old(List()), id)
    {
      var diff := Modulo.Subtract(id, seqId, N_SEQ_ID);
      if Modulo.Abs(diff) >= N_FRAG_BUF {
        UndefineAll();
        index := 0;
        seqId := id;
        diff := 0;
      }
      if diff > 0 {
        SlideBy(diff);
        diff := 0;
      }
      slot := Modulo.Add(index, diff, N_FRAG_BUF);
    }

    /** The part of `fragment_incoming` that works on one slot. */
    method InsertInto(j: int, kind: nat, n: nat, size: nat, content: Bytes, now: nat) returns (out: Bytes)
      requires 0 <= j < fragments.Length && fragments[j].len <= |fragments[j].data|
      modifies fragments
      ensures fragments[..] == old(fragments[..])[j := Insert(old(fragments[j]), kind, n, size, content, now).0]
      ensures out == Insert(old(fragments[j]), kind, n, size, content, now).1
    {
      var frag := fragments[j];
      if !frag.defined || frag.maxFragSize != size {
        frag := frag.(defined := true, maxFragSize := size, bits := {}, len := 0);
      }
      if n * size + |content| > |frag.data| {
        fragments[j] := frag;
        return [];
      }
      frag := frag.(data := Overwrite(frag.data, n * size, content));
      if n * size + |content| > frag.len {
        frag := frag.(len := n * size + |content|);
      }
      frag := frag.(bits := frag.bits + if kind == FRAG_YES_LAST then BitsFrom(n) else {n});
      frag := frag.(timestamp := now);
      if BitsFrom(0) <= frag.bits {
        frag := frag.(defined := false);
        out := frag.data[..frag.len];
      } else {
        out := [];
      }
      fragments[j] := frag;
    }

    /** `fragment_incoming`. */
    method FragmentIncoming(packet: Bytes, now: nat) returns (out: Bytes)
      requires RingOk(List())
      modifies `seqId, `index, fragments
      ensures (List(), out) == Incoming(old(List()), packet, now)
    {
      if |packet| < HEADER_LENGTH {
        return [];
      }
      var flags := FromBigEndian(packet[..HEADER_LENGTH]);
      var content := packet[HEADER_LENGTH..];
      var kind := Kind(flags);
      if kind == FRAG_WHOLE {
        if flags % 256 != 0 {
          return [];
        }
        return content;
      } else if kind == FRAG_YES_NOTLAST || kind == FRAG_YES_LAST {
        var size := if kind == FRAG_YES_LAST then Size(flags) else |content|;
        var j := GetBufSlot(SeqId(flags));
        if size % ROUND != 0 {
          return [];
        }
        out := InsertInto(j, kind, FragId(flags), size, content, now);
      } else {
        return [];
      }
    }

    /** `fragment_ttl_reap`. */
    method TtlReap(now: nat)
      requires RingOk(List())
      modifies fragments
      ensures List() == Reap(old(List()), now)
    {
      for i := 0 to N_FRAG_BUF
        invariant forall k :: 0 <= k < i ==> fragments[k] == Reaped(old(fragments[k]), now)
        invariant forall k :: i <= k < N_FRAG_BUF ==> fragments[k] == old(fragments[k])
      {
        if fragments[i].defined && fragments[i].timestamp + FRAG_TTL_SEC <= now {
          fragments[i] := Undefined(fragments[i]);
        }
      }
      assert fragments[..] == Reap(old(List()), now).slots;
    }

    /** What is still to be sent. */
    ghost function Out(): Outgoing
      reads this
    {
      Outgoing(outgoing, outgoingFragSize, outgoingSeqId, outgoingFragId)
    }

    /** `fragment_ready_to_send`: the next fragment while something is left to send, whatever it belongs to. */
    method FragmentReadyToSend() returns (ready: bool, packet: Bytes)
      modifies `outgoing, `outgoingFragId
      ensures ready <==> old(Out()).rest != []
      ensures ready ==> packet == NextPacket(old(Out())) && Out() == AfterNext(old(Out()))
      ensures !ready ==> packet == [] && Out() == old(Out())
      ensures old(Valid()) ==> Valid() && |packet| <= HEADER_LENGTH + maxFragmentSize
    {
      if |outgoing| > 0 {
        var size, last := outgoingFragSize, false;
        if |outgoing| <= size {
          size := |outgoing|;
          last := true;
        }
        var content := outgoing[..size];
        outgoing := outgoing[size..];
        packet := HeaderBytes(if last then FRAG_YES_LAST else FRAG_YES_NOTLAST,
                              outgoingSeqId, outgoingFragId, outgoingFragSize) + content;
        outgoingFragId := outgoingFragId + 1;
        assert last ==> outgoing == [];
        return true, packet;
      }
      return false, [];
    }

    /** `fragment_outgoing`: a small datagram goes out whole, one that would need too many fragments is dropped,
        and any other is split under the next sequence number, in place of what was still pending. A dropped
        one leaves its fragment size behind. */
    method FragmentOutgoing(buf: Bytes) returns (packet: Bytes)
      requires Valid() && |buf| <= capacity
      modifies `outgoing, `outgoingFragId, `outgoingFragSize, `outgoingSeqId
      ensures Valid() && |packet| <= HEADER_LENGTH + maxFragmentSize
      ensures match PlanFor(buf, maxFragmentSize)
              case Nothing => packet == [] && Out() == old(Out())
              case TooMany => packet == [] && Out() == Refused(old(Out()), buf, maxFragmentSize)
              case Whole => packet == HeaderBytes(FRAG_WHOLE, 0, 0, 0) + buf && Out() == old(Out())
              case Split(d) =>
                && Out().seqId == (old(Out()).seqId + 1) % N_SEQ_ID
                && packet == Packet(d, Out().seqId, 0)
                && Pending(Out(), d, 1)
    {
      packet := buf;
      if |buf| > 0 {
        if |buf| > maxFragmentSize {
          outgoingFragSize := OptimalSize(|buf|, maxFragmentSize);
          TooManyFragments(|buf|, maxFragmentSize);
          if |buf| > outgoingFragSize * MAX_FRAGS {
            return [];
          }
          packet := StartSplit(buf, PlanFor(buf, maxFragmentSize).d);
        } else {
          packet := HeaderBytes(FRAG_WHOLE, 0, 0, 0) + buf;
        }
      }
    }

    /** The end of `fragment_outgoing`: the datagram is taken over and its first fragment made. */
    method StartSplit(buf: Bytes, ghost d: Datagram) returns (packet: Bytes)
      requires d == RawDatagram(buf, outgoingFragSize) && outgoingSeqId < N_SEQ_ID && 2 <= Count(d)
      modifies `outgoing, `outgoingFragId, `outgoingSeqId
      ensures outgoingSeqId == (old(outgoingSeqId) + 1) % N_SEQ_ID
      ensures packet == Packet(d, outgoingSeqId, 0) && Pending(Out(), d, 1)
    {
      outgoing := buf;
      outgoingSeqId := Modulo.Add(outgoingSeqId, 1, N_SEQ_ID);
      outgoingFragId := 0;
      assert Lo(d, 0) == 0 && d.payload[0..] == buf;
      PendingNext(Out(), d, 0);
      var ready;
      ready, packet := FragmentReadyToSend();
    }
  }

  /** The sending half of the structure: what is left of the datagram, the fragment size, the sequence number and
      the number of the next fragment. */
  datatype Outgoing = Outgoing(rest: Bytes, size: nat, seqId: nat, fragId: nat)

  function Cut(o: Outgoing): nat {
    Min(o.size, |o.rest|)
  }

  function NextPacket(o: Outgoing): Bytes {
    HeaderBytes(if |o.rest| <= o.size then FRAG_YES_LAST else FRAG_YES_NOTLAST, o.seqId, o.fragId, o.size)
      + o.rest[..Cut(o)]
  }

  function AfterNext(o: Outgoing): Outgoing {
    o.(rest := o.rest[Cut(o)..], fragId := o.fragId + 1)
  }

  /** Fragments `i` and up of `d` are still to be sent. */
  ghost predicate Pending(o: Outgoing, d: Datagram, i: nat) {
    && o.size == d.size && o.fragId == i
    && i <= Count(d)
    && (if i < Count(d) then Lo(d, i) <= |d.payload| && o.rest == d.payload[Lo(d, i)..] else o.rest == [])
  }

  /** The next packet of a pending datagram is its next fragment, and then the following ones are pending. */
  lemma PendingNext(o: Outgoing, d: Datagram, i: nat)
    requires Pending(o, d, i)
    ensures o.rest != [] <==> i < Count(d)
    ensures i < Count(d) ==> NextPacket(o) == Packet(d, o.seqId, i) && Pending(AfterNext(o), d, i + 1)
  {
    if i < Count(d) {
      PieceBounds(d, i);
      NextPiece(d, i);
    }
  }

  /** A datagram refused as too long leaves the size it would have had. */
  function Refused(o: Outgoing, buf: Bytes, maxSize: nat): Outgoing
    requires maxSize >= ROUND
  {
    o.(size := OptimalSize(|buf|, maxSize))
  }

  /** What is pending stays pending over a refusal exactly when the sizes agree. */
  lemma RefusalKeepsPendingExactly(o: Outgoing, d: Datagram, i: nat, buf: Bytes, maxSize: nat)
    requires Pending(o, d, i) && maxSize >= ROUND
    ensures Pending(Refused(o, buf, maxSize), d, i) <==> OptimalSize(|buf|, maxSize) == d.size
  {
  }

  /** And if they do not, the next packet is not the next fragment. */
  lemma RefusalSpoilsTheNextPacket(o: Outgoing, d: Datagram, i: nat, buf: Bytes, maxSize: nat)
    requires Pending(o, d, i) && i < Count(d) && o.seqId < N_SEQ_ID
    requires ROUND <= maxSize < MAX_SIZE + ROUND && |buf| > maxSize && OptimalSize(|buf|, maxSize) != d.size
    ensures NextPacket(Refused(o, buf, maxSize)) != Packet(d, o.seqId, i)
  {
    var size := OptimalSize(|buf|, maxSize);
    TooManyFragments(|buf|, maxSize);
    PieceBounds(d, i);
    NextPiece(d, i);
    CountBounds(d);
    OtherSizeOtherPacket(o, d, i, size);
  }

  lemma OtherSizeOtherPacket(o: Outgoing, d: Datagram, i: nat, size: nat)
    requires Pending(o, d, i) && i < Count(d) <= MAX_FRAGS && o.seqId < N_SEQ_ID
    requires size != d.size && size % ROUND == 0 && size <= MAX_SIZE
    requires |o.rest| <= d.size <==> i == Count(d) - 1
    requires |Piece(d, i)| == Min(d.size, |o.rest|)
    ensures NextPacket(o.(size := size)) != Packet(d, o.seqId, i)
  {
    var p, q := NextPacket(o.(size := size)), Packet(d, o.seqId, i);
    if |p| == |q| {
      assert i == Count(d) - 1 && |o.rest| <= size;
      assert p[..HEADER_LENGTH] == HeaderBytes(FRAG_YES_LAST, o.seqId, i, size);
      assert q[..HEADER_LENGTH] == HeaderBytes(FRAG_YES_LAST, o.seqId, i, d.size);
      HeaderOnWire(FRAG_YES_LAST, o.seqId, i, size);
      HeaderOnWire(FRAG_YES_LAST, o.seqId, i, d.size);
      UnpackUndoesPack(FRAG_YES_LAST, o.seqId, i, size);
      UnpackUndoesPack(FRAG_YES_LAST, o.seqId, i, d.size);
    }
  }

  /** Sizes that do not agree: with fragments of at most 1000 bytes, 1001 bytes are sent in fragments of 504, and
      33000 bytes are refused at a size of 1000. */
  lemma RefusalWitness()
    ensures OptimalSize(1001, 1000) == 504 && OptimalSize(33000, 1000) == 1000
    ensures CountFor(33000, AlignDown(1000)) > MAX_FRAGS
  {
    assert AlignDown(1000) == 1000;
    assert 1001 / 1000 == 1 && 1001 % 1000 == 1 && 33000 / 1000 == 33 && 33000 % 1000 == 0;
    assert (1000 - 1) / 2 == 499;
    assert AlignDown(1000 - 499 + 3) == 504;
  }

  /** At the receiver a fragment of another size opens the slot anew; once the fragments with number 0 are gone,
      no later fragment brings anything out. */
  lemma OtherSizeLosesTheDatagram(slot: Slot, kind: nat, n: nat, size: nat, content: Bytes, now: nat)
    requires slot.len <= |slot.data| && n >= 1
    requires !slot.defined || slot.maxFragSize != size || 0 !in slot.bits
    ensures var (s, out) := Insert(slot, kind, n, size, content, now);
            out == [] && s.defined && s.maxFragSize == size && 0 !in s.bits
  {
    assert 0 in BitsFrom(0);
  }

  /** What becomes of a datagram to be sent. */
  datatype Plan = Nothing | Whole | TooMany | Split(d: Datagram)

  function PlanFor(buf: Bytes, maxSize: nat): (p: Plan)
    requires ROUND <= maxSize < MAX_SIZE + ROUND
    ensures p.Split? ==> 2 <= Count(p.d) && p.d == RawDatagram(buf, OptimalSize(|buf|, maxSize))
  {
    if buf == [] then Nothing
    else if |buf| <= maxSize then Whole
    else if CountFor(|buf|, AlignDown(maxSize)) > MAX_FRAGS then TooMany
    else
      TooManyFragments(|buf|, maxSize);
      var d: Datagram := RawDatagram(buf, OptimalSize(|buf|, maxSize));
      CountBounds(d);
      Split(d)
  }

  function AllUndefined(slots: seq<Slot>): (r: seq<Slot>)
    requires |slots| == N_FRAG_BUF
    ensures |r| == N_FRAG_BUF
  {
    seq(N_FRAG_BUF, j requires 0 <= j < N_FRAG_BUF => Undefined(slots[j]))
  }

  function Reaped(slot: Slot, now: nat): Slot {
    if slot.defined && slot.timestamp + FRAG_TTL_SEC <= now then Undefined(slot) else slot
  }

  lemma ClearedNone(slots: seq<Slot>, index: int)
    requires |slots| == N_FRAG_BUF && 0 <= index < N_FRAG_BUF
    ensures Cleared(slots, index, 0) == slots
  {
  }

  lemma ClearedOneMore(slots: seq<Slot>, index: int, count: int)
    requires |slots| == N_FRAG_BUF && 0 <= index < N_FRAG_BUF && 0 <= count < N_FRAG_BUF - 1
    ensures var next := Modulo.Add(Modulo.Add(index, count, N_FRAG_BUF), 1, N_FRAG_BUF);
            && next == Modulo.Add(index, count + 1, N_FRAG_BUF)
            && Cleared(slots, index, count + 1)
            == Cleared(slots, index, count)[next := Undefined(Cleared(slots, index, count)[next])]
  {
    var next := Modulo.Add(index, count + 1, N_FRAG_BUF);
    assert Ahead(index, next) == count + 1;
    var before, after := Cleared(slots, index, count), Cleared(slots, index, count + 1);
    forall j | 0 <= j < N_FRAG_BUF
      ensures after[j] == before[next := Undefined(before[next])][j]
    {
      if j != next {
        assert Ahead(index, j) != count + 1;
      }
    }
  }

  /** Cutting the front off what is left of a payload gives the next fragment. */
  lemma NextPiece(d: Datagram, i: nat)
    requires i < Count(d) && Lo(d, i) <= |d.payload|
    ensures var rest := d.payload[Lo(d, i)..];
            var size := Min(d.size, |rest|);
            && |rest| > 0
            && (|rest| <= d.size <==> i == Count(d) - 1)
            && rest[..size] == Piece(d, i)
            && (if i + 1 < Count(d) then Lo(d, i + 1) <= |d.payload| && rest[size..] == d.payload[Lo(d, i + 1)..]
                else rest[size..] == [])
  {
    PieceBounds(d, i);
    if i + 1 < Count(d) {
      PieceBounds(d, i + 1);
    }
  }

  /** The size check on the chosen size is a check on the number of fragments. */
  lemma TooManyFragments(length: nat, maxSize: nat)
    requires ROUND <= maxSize < MAX_SIZE + ROUND && length > maxSize
    ensures var size := OptimalSize(length, maxSize);
            && 0 < size <= MAX_SIZE && size % ROUND == 0 && size < length
            && (length > size * 32 <==> CountFor(length, AlignDown(maxSize)) > 32)
  {
    OptimalSizeKeepsCount(length, maxSize);
    CountLimit(length, AlignDown(maxSize));
  }

  lemma CountLimit(length: nat, size: nat)
    requires size > 0
    ensures length > size * MAX_FRAGS <==> CountFor(length, size) > MAX_FRAGS
  {
    var x := length + size - 1;
    var n := x / size;
    DivBounds(x, size);
    MulCommutes(size, MAX_FRAGS);
    MulDistributes(MAX_FRAGS, 1, size);
    if n > MAX_FRAGS {
      MulLe(MAX_FRAGS + 1, n, size);
    } else {
      MulLe(n, MAX_FRAGS, size);
    }
  }
}

/** Splitting datagrams into fragments and putting them together again in a sliding window of
    reassembly buffers. */
module Fragmentation {
  import opened Bytes
  import opened Arithmetic
  import opened FragmentHeader
  import Modulo

  const N_FRAG_BUF := 25
  const FRAG_TTL_SEC := 10

  /** A payload together with the fragment size chosen for it. */
  datatype RawDatagram = RawDatagram(payload: Bytes, size: nat)

  predicate ValidDatagram(d: RawDatagram) {
    0 < d.size <= MAX_SIZE && d.size % ROUND == 0 && d.size < |d.payload| <= d.size * MAX_FRAGS
  }

  type Datagram = d: RawDatagram | ValidDatagram(d) witness RawDatagram(Zeros(5), 4)

  function Count(d: Datagram): nat {
    CountFor(|d.payload|, d.size)
  }

  lemma CountBounds(d: Datagram)
    ensures 2 <= Count(d) <= MAX_FRAGS
    ensures (Count(d) - 1) * d.size < |d.payload| <= Count(d) * d.size
  {
    var x := |d.payload| + d.size - 1;
    var n := x / d.size;
    DivBounds(x, d.size);
    MulDistributes(n, -1, d.size);
    if n < 2 {
      MulLe(n, 1, d.size);
      assert false;
    }
    if n > MAX_FRAGS {
      MulLe(MAX_FRAGS, n - 1, d.size);
      MulCommutes(MAX_FRAGS, d.size);
      assert false;
    }
  }

  /** Where fragment `i` begins and ends in the payload. */
  function Lo(d: Datagram, i: nat): nat {
    i * d.size
  }

  function Hi(d: Datagram, i: nat): nat {
    Min(Lo(d, i + 1), |d.payload|)
  }

  lemma PieceBounds(d: Datagram, i: nat)
    requires i < Count(d)
    ensures Lo(d, i) < Hi(d, i) <= |d.payload|
    ensures i < Count(d) - 1 ==> Hi(d, i) == Lo(d, i + 1) == Lo(d, i) + d.size
    ensures i == Count(d) - 1 ==> Hi(d, i) == |d.payload|
    ensures Hi(d, i) <= Lo(d, i) + d.size
  {
    CountBounds(d);
    MulDistributes(i, 1, d.size);
    MulLe(i, Count(d) - 1, d.size);
    if i < Count(d) - 1 {
      MulLe(i + 1, Count(d) - 1, d.size);
    }
  }

  /** Different fragments do not overlap. */
  lemma PiecesApart(d: Datagram, i: nat, j: nat)
    requires i < j < Count(d)
    ensures Hi(d, i) <= Lo(d, j)
  {
    MulLe(i + 1, j, d.size);
  }

  function Piece(d: Datagram, i: nat): Bytes
    requires i < Count(d)
  {
    PieceBounds(d, i);
    d.payload[Lo(d, i)..Hi(d, i)]
  }

  function KindOf(d: Datagram, i: nat): nat {
    if i == Count(d) - 1 then FRAG_YES_LAST else FRAG_YES_NOTLAST
  }

  /** Fragment `i` as it goes over the wire. */
  function Packet(d: Datagram, seqId: nat, i: nat): Bytes
    requires i < Count(d)
  {
    HeaderBytes(KindOf(d, i), seqId, i, d.size) + Piece(d, i)
  }

  /** `struct fragment`: `bits` are the positions set in the 32-bit map, `data` is the buffer
      behind its headroom, of which the first `len` bytes count. */
  datatype Slot = Slot(
    defined: bool,
    maxFragSize: nat,
    bits: set<nat>,
    timestamp: nat,
    data: Bytes,
    len: nat)

  predicate Within(lo: nat, i: nat, hi: nat) {
    lo <= i < hi
  }

  /** The numbers from `lo` up to, not including, `hi`. */
  function Range(lo: nat, hi: nat): (r: set<nat>)
    ensures forall i :: i in r <==> lo <= i < hi
  {
    set i: nat | i < hi && Within(lo, i, hi)
  }

  /** The positions of a 32-bit map from `n` up. */
  function BitsFrom(n: nat): (r: set<nat>)
    ensures forall i :: i in r <==> n <= i < MAX_FRAGS
  {
    Range(n, MAX_FRAGS)
  }

  /** The bits one fragment sets. */
  function NewBits(kind: nat, n: nat): set<nat> {
    if kind == FRAG_YES_LAST then BitsFrom(n) else {n}
  }

  /** `buf_copy_range` of a whole packet to position `at`, where it fits. */
  function Overwrite(data: Bytes, at: nat, content: Bytes): (r: Bytes)
    requires at + |content| <= |data|
    ensures |r| == |data|
    ensures r[at..at + |content|] == content
    ensures forall k :: 0 <= k < at || at + |content| <= k < |data| ==> r[k] == data[k]
  {
    data[..at] + content + data[at + |content|..]
  }

  /** The slot when a fragment of another size, or the first one, arrives. */
  function Opened(slot: Slot, size: nat): Slot {
    if !slot.defined || slot.maxFragSize != size
    then slot.(defined := true, maxFragSize := size, bits := {}, len := 0)
    else slot
  }

  /** The part of `fragment_incoming` that works on the slot of the datagram. */
  function Insert(slot: Slot, kind: nat, n: nat, size: nat, content: Bytes, now: nat): (r: (Slot, Bytes))
    requires slot.len <= |slot.data|
    ensures r.0.len <= |r.0.data| == |slot.data|
  {
    var s1 := Opened(slot, size);
    var at := n * size;
    if at + |content| > |s1.data| then (s1, [])
    else
      var s2 := s1.(
        data := Overwrite(s1.data, at, content),
        len := Max(s1.len, at + |content|),
        bits := s1.bits + NewBits(kind, n),
        timestamp := now);
      if BitsFrom(0) <= s2.bits then (s2.(defined := false), s2.data[..s2.len])
      else (s2, [])
  }

  /** The slot holds the fragments `got` of `d`, whatever is in the gaps between them. */
  ghost predicate Holds(d: Datagram, slot: Slot, got: set<nat>) {
    && slot.maxFragSize == d.size
    && (forall i :: i in got ==> i < Count(d))
    && (forall b :: b in slot.bits <==> b in BitsOf(d, got))
    && slot.len <= |d.payload| <= |slot.data|
    && (forall i :: i in got ==> HasPiece(d, slot, i))
  }

  ghost predicate HasPiece(d: Datagram, slot: Slot, i: nat) {
    && Lo(d, i) <= Hi(d, i) <= slot.len <= |d.payload| <= |slot.data|
    && slot.data[Lo(d, i)..Hi(d, i)] == d.payload[Lo(d, i)..Hi(d, i)]
  }

  /** The bits that stand for a set of fragments: the last fragment sets all higher ones. */
  ghost function BitsOf(d: Datagram, got: set<nat>): set<nat> {
    (set i | i in got && i != Count(d) - 1) + (if Count(d) - 1 in got then BitsFrom(Count(d) - 1) else {})
  }

  ghost function Indices(d: Datagram): set<nat> {
    Range(0, Count(d))
  }

  /** The map is full exactly when every fragment has arrived. */
  lemma FullMapMeansComplete(d: Datagram, got: set<nat>)
    requires forall i :: i in got ==> i < Count(d)
    ensures BitsFrom(0) <= BitsOf(d, got) <==> got == Indices(d)
  {
    CountBounds(d);
    if BitsFrom(0) <= BitsOf(d, got) {
      forall i: nat | i < Count(d)
        ensures i in got
      {
        assert i in BitsFrom(0);
        if i == Count(d) - 1 {
          assert i in BitsOf(d, got);
        }
      }
    }
  }

  /** Inserting one fragment records it and disturbs none of the others. */
  lemma InsertPiece(d: Datagram, slot: Slot, got: set<nat>, i: nat, now: nat)
    requires i < Count(d) && |d.payload| <= |slot.data|
    requires slot.defined ==> Holds(d, slot, got)
    requires !slot.defined ==> got == {}
    ensures var s1 := Opened(slot, d.size);
            Lo(d, i) + |Piece(d, i)| <= |s1.data| &&
            var s2 := s1.(
                data := Overwrite(s1.data, Lo(d, i), Piece(d, i)),
                len := Max(s1.len, Lo(d, i) + |Piece(d, i)|),
                bits := s1.bits + NewBits(KindOf(d, i), i),
                timestamp := now);
            s2.defined && Holds(d, s2, got + {i})
  {
    PieceBounds(d, i);
    var s1 := Opened(slot, d.size);
    var s2 := s1.(
        data := Overwrite(s1.data, Lo(d, i), Piece(d, i)),
        len := Max(s1.len, Lo(d, i) + |Piece(d, i)|),
        bits := s1.bits + NewBits(KindOf(d, i), i),
        timestamp := now);
    assert s1.bits == BitsOf(d, got);
    assert s2.bits == BitsOf(d, got + {i});
    forall j | j in got + {i}
      ensures HasPiece(d, s2, j)
    {
      if j != i {
        assert HasPiece(d, slot, j);
        KeepsPiece(d, s1, s2, i, j);
      }
    }
  }

  lemma KeepsPiece(d: Datagram, s1: Slot, s2: Slot, i: nat, j: nat)
    requires i < Count(d) && j < Count(d) && i != j
    requires HasPiece(d, s1, j)
    requires Hi(d, i) <= |s1.data| && |Piece(d, i)| == Hi(d, i) - Lo(d, i)
    requires s2.data == Overwrite(s1.data, Lo(d, i), Piece(d, i)) && s1.len <= s2.len <= |d.payload|
    ensures HasPiece(d, s2, j)
  {
    if i < j {
      PiecesApart(d, i, j);
    } else {
      PiecesApart(d, j, i);
    }
    var lo, hi := Lo(d, j), Hi(d, j);
    assert s2.data[lo..hi] == s1.data[lo..hi];
  }

  /** Once all fragments are there the buffer starts with the whole payload. */
  lemma {:induction false} PrefixInPlace(d: Datagram, slot: Slot, n: nat)
    requires Holds(d, slot, Indices(d)) && 1 <= n <= Count(d)
    ensures Hi(d, n - 1) <= |d.payload| && slot.data[..Hi(d, n - 1)] == d.payload[..Hi(d, n - 1)]
  {
    PieceBounds(d, n - 1);
    assert HasPiece(d, slot, n - 1);
    var lo, hi := Lo(d, n - 1), Hi(d, n - 1);
    if n > 1 {
      PrefixInPlace(d, slot, n - 1);
      PieceBounds(d, n - 2);
    }
    assert slot.data[..hi] == slot.data[..lo] + slot.data[lo..hi];
    assert d.payload[..hi] == d.payload[..lo] + d.payload[lo..hi];
  }

  lemma CompleteIsPayload(d: Datagram, slot: Slot)
    requires Holds(d, slot, Indices(d))
    ensures slot.len == |d.payload| && slot.data[..slot.len] == d.payload
  {
    CountBounds(d);
    PrefixInPlace(d, slot, Count(d));
    PieceBounds(d, Count(d) - 1);
    assert HasPiece(d, slot, Count(d) - 1);
    assert d.payload[..|d.payload|] == d.payload;
  }

  /** One fragment of `d` and a slot that holds `got` of them: the slot then holds one more, and the
      payload comes out exactly when that makes the set complete. */
  lemma InsertOutcome(d: Datagram, slot: Slot, got: set<nat>, i: nat, now: nat)
    requires i < Count(d) && |d.payload| <= |slot.data| && slot.len <= |slot.data|
    requires slot.defined ==> Holds(d, slot, got)
    requires !slot.defined ==> got == {}
    ensures var (s, out) := Insert(slot, KindOf(d, i), i, d.size, Piece(d, i), now);
            if got + {i} == Indices(d) then !s.defined && out == d.payload
            else s.defined && s.timestamp == now && Holds(d, s, got + {i}) && out == []
  {
    InsertPiece(d, slot, got, i, now);
    var s1 := Opened(slot, d.size);
    var s2 := s1.(
        data := Overwrite(s1.data, Lo(d, i), Piece(d, i)),
        len := Max(s1.len, Lo(d, i) + |Piece(d, i)|),
        bits := s1.bits + NewBits(KindOf(d, i), i),
        timestamp := now);
    FullMapMeansComplete(d, got + {i});
    assert s2.bits == BitsOf(d, got + {i});
    if got + {i} == Indices(d) {
      CompleteIsPayload(d, s2);
    }
  }

  /** `struct fragment_list`. */
  datatype Ring = Ring(seqId: int, index: int, slots: seq<Slot>)

  predicate RingOk(r: Ring) {
    && 0 <= r.seqId < N_SEQ_ID && 0 <= r.index < N_FRAG_BUF && |r.slots| == N_FRAG_BUF
    && forall j :: 0 <= j < N_FRAG_BUF ==> r.slots[j].len <= |r.slots[j].data|
  }

  function Undefined(slot: Slot): Slot {
    slot.(defined := false)
  }

  /** How many steps `j` lies ahead of `index` on the ring. */
  function Ahead(index: int, j: int): (k: int)
    requires 0 <= index < N_FRAG_BUF && 0 <= j < N_FRAG_BUF
    ensures 0 <= k < N_FRAG_BUF && j == Modulo.Add(index, k, N_FRAG_BUF)
  {
    if j >= index then j - index else j - index + N_FRAG_BUF
  }

  /** The slots with the `count` ones after `index` given up. */
  function Cleared(slots: seq<Slot>, index: int, count: int): (r: seq<Slot>)
    requires |slots| == N_FRAG_BUF && 0 <= index < N_FRAG_BUF
    ensures |r| == N_FRAG_BUF
    ensures forall j :: 0 <= j < N_FRAG_BUF ==>
              r[j] == if 1 <= Ahead(index, j) <= count then Undefined(slots[j]) else slots[j]
  {
    seq(N_FRAG_BUF, j requires 0 <= j < N_FRAG_BUF =>
      if 1 <= Ahead(index, j) <= count then Undefined(slots[j]) else slots[j])
  }

  /** `fragment_list_get_buf`: the list afterwards and the slot for `seqId`. */
  function GetBuf(r: Ring, seqId: int): (result: (Ring, int))
    requires RingOk(r) && 0 <= seqId < N_SEQ_ID
    ensures RingOk(result.0) && 0 <= result.1 < N_FRAG_BUF
  {
    var diff := Modulo.Subtract(seqId, r.seqId, N_SEQ_ID);
    if Modulo.Abs(diff) >= N_FRAG_BUF then
      (Ring(seqId, 0, seq(N_FRAG_BUF, j requires 0 <= j < N_FRAG_BUF => Undefined(r.slots[j]))), 0)
    else if diff > 0 then
      var index := Modulo.Add(r.index, diff, N_FRAG_BUF);
      (Ring(Modulo.Add(r.seqId, diff, N_SEQ_ID), index, Cleared(r.slots, r.index, diff)), index)
    else
      (r, Modulo.Add(r.index, diff, N_FRAG_BUF))
  }

  /** `fragment_incoming`: the list afterwards and what is handed on, empty if nothing is. */
  function Incoming(r: Ring, packet: Bytes, now: nat): (result: (Ring, Bytes))
    requires RingOk(r)
    ensures RingOk(result.0)
  {
    if |packet| < HEADER_LENGTH then (r, [])
    else
      var flags := FromBigEndian(packet[..HEADER_LENGTH]);
      var content := packet[HEADER_LENGTH..];
      var kind := Kind(flags);
      if kind == FRAG_WHOLE then
        (r, if flags % 256 != 0 then [] else content)
      else if kind == FRAG_YES_NOTLAST || kind == FRAG_YES_LAST then
        var size := if kind == FRAG_YES_LAST then Size(flags) else |content|;
        var (r1, j) := GetBuf(r, SeqId(flags));
        if size % ROUND != 0 then (r1, [])
        else
          var (slot, out) := Insert(r1.slots[j], kind, FragId(flags), size, content, now);
          (r1.(slots := r1.slots[j := slot]), out)
      else (r, [])
  }

  ghost function Flags(packet: Bytes): nat
    requires |packet| >= HEADER_LENGTH
  {
    FromBigEndian(packet[..HEADER_LENGTH])
  }

  lemma WholeFlags(flags: nat)
    requires Kind(flags) == FRAG_WHOLE
    ensures flags % 256 != 0 <==> SeqId(flags) % 64 != 0
  {
    var y := flags / 4;
    var t, u := y / 64, y % 64;
    Field(flags, 256, t, 4 * u);
    Field(y % 256, 64, t % 4, u);
  }

  /** A whole packet should carry neither a sequence nor a fragment number. One that does is refused exactly
      when its sequence number is not a multiple of 64; its fragment number does not count. */
  lemma SpuriousNumbersAreRefusedExactly(r: Ring, packet: Bytes, now: nat)
    requires RingOk(r) && |packet| >= HEADER_LENGTH && Kind(Flags(packet)) == FRAG_WHOLE
    requires SeqId(Flags(packet)) != 0 || FragId(Flags(packet)) != 0
    ensures Incoming(r, packet, now)
         == (r, if SeqId(Flags(packet)) % 64 != 0 then [] else packet[HEADER_LENGTH..])
  {
    WholeFlags(Flags(packet));
  }

  /** A whole packet with fragment number 1 is handed on. */
  lemma SpuriousNumberWitness(r: Ring, payload: Bytes, now: nat)
    requires RingOk(r)
    ensures var packet := BigEndian(1024, HEADER_LENGTH) + payload;
            && Kind(Flags(packet)) == FRAG_WHOLE && FragId(Flags(packet)) == 1
            && Incoming(r, packet, now) == (r, payload)
  {
    var packet := BigEndian(1024, HEADER_LENGTH) + payload;
    assert packet[..HEADER_LENGTH] == BigEndian(1024, HEADER_LENGTH) && packet[HEADER_LENGTH..] == payload;
    assert Pow256(2) == 0x1_0000;
    BigEndianRoundTrip(1024, HEADER_LENGTH);
    SpuriousNumbersAreRefusedExactly(r, packet, now);
  }

  /** `fragment_ttl_reap`. */
  function Reap(r: Ring, now: nat): (r': Ring)
    requires RingOk(r)
    ensures RingOk(r')
  {
    r.(slots := seq(N_FRAG_BUF, j requires 0 <= j < N_FRAG_BUF =>
      if r.slots[j].defined && r.slots[j].timestamp + FRAG_TTL_SEC <= now then Undefined(r.slots[j]) else r.slots[j]))
  }

  /** The slot of the datagram `back` behind the newest one. */
  function Behind(r: Ring, back: int): Slot
    requires RingOk(r) && 0 <= back < N_FRAG_BUF
  {
    r.slots[Modulo.Add(r.index, -back, N_FRAG_BUF)]
  }

  /** How the slot `b` behind the newest one in `r1` relates to the window `r` before it moved
      forward by `diff`, or jumped. */
  predicate Moved(r: Ring, r1: Ring, jumped: bool, diff: int, b: int)
    requires RingOk(r) && RingOk(r1) && 0 <= b < N_FRAG_BUF
  {
    if jumped || b < diff then !Behind(r1, b).defined
    else if diff > 0 then Behind(r1, b) == Behind(r, b - diff)
    else Behind(r1, b) == Behind(r, b)
  }

  /** The window keeps the slots of the datagrams that stay in it, gives up those that leave, and
      a jump outside gives up everything; the slot returned is the one of the requested datagram. */
  lemma GetBufSlides(r: Ring, seqId: int)
    requires RingOk(r) && 0 <= seqId < N_SEQ_ID
    ensures var diff := Modulo.Subtract(seqId, r.seqId, N_SEQ_ID);
            var (r1, j) := GetBuf(r, seqId);
            var jumped := Modulo.Abs(diff) >= N_FRAG_BUF;
            var back := if jumped || diff > 0 then 0 else -diff;
            && j == Modulo.Add(r1.index, -back, N_FRAG_BUF)
            && (back == 0 ==> r1.seqId == seqId)
            && (back > 0 ==> r1 == r)
            && forall b :: 0 <= b < N_FRAG_BUF ==> Moved(r, r1, jumped, diff, b)
  {
    var diff := Modulo.Subtract(seqId, r.seqId, N_SEQ_ID);
    if 0 < diff < N_FRAG_BUF {
      assert Modulo.Add(r.seqId, diff, N_SEQ_ID) == seqId;
      SlideForward(r, diff);
      var (r1, j) := GetBuf(r, seqId);
      forall b | 0 <= b < N_FRAG_BUF
        ensures Moved(r, r1, false, diff, b)
      {
        assert Moved(r, r1.(seqId := r.seqId), false, diff, b);
      }
    }
  }

  lemma SlideForward(r: Ring, diff: int)
    requires RingOk(r) && 0 < diff < N_FRAG_BUF
    ensures var r1 := Ring(r.seqId, Modulo.Add(r.index, diff, N_FRAG_BUF), Cleared(r.slots, r.index, diff));
            && RingOk(r1)
            && forall b :: 0 <= b < N_FRAG_BUF ==> Moved(r, r1, false, diff, b)
  {
    var r1 := Ring(r.seqId, Modulo.Add(r.index, diff, N_FRAG_BUF), Cleared(r.slots, r.index, diff));
    forall b | 0 <= b < N_FRAG_BUF
      ensures Moved(r, r1, false, diff, b)
    {
      var slot := Modulo.Add(r1.index, -b, N_FRAG_BUF);
      if b < diff {
        assert Ahead(r.index, slot) == diff - b;
      } else {
        assert slot == Modulo.Add(r.index, -(b - diff), N_FRAG_BUF);
        assert Ahead(r.index, slot) == 0 || Ahead(r.index, slot) > diff;
      }
    }
  }

  // ---- Packets that no sender makes ---------------------------------------------------------------------

  /** Packets without a whole header and probes change nothing; a fragment whose size is not a multiple of four
      moves the window at most. None of them brings anything out. */
  lemma MalformedIsDropped(r: Ring, packet: Bytes, now: nat)
    requires RingOk(r)
    ensures |packet| < 4 || FromBigEndian(packet[..4]) % 4 == 3 ==> Incoming(r, packet, now) == (r, [])
    ensures |packet| >= 4 && FromBigEndian(packet[..4]) % 4 == 1 && (|packet| - 4) % 4 != 0 ==>
              Incoming(r, packet, now) == (GetBuf(r, SeqId(FromBigEndian(packet[..4]))).0, [])
  {
  }

  /** A fragment that would reach behind the end of the buffer is not copied and brings nothing out. */
  lemma OverflowIsRefused(slot: Slot, kind: nat, n: nat, size: nat, content: Bytes, now: nat)
    requires slot.len <= |slot.data| && n * size + |content| > |slot.data|
    ensures var (s, out) := Insert(slot, kind, n, size, content, now);
            out == [] && s.data == slot.data && s.len <= slot.len && s.bits <= slot.bits
  {
  }
}

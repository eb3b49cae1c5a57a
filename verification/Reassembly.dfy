/** What the ring of reassembly buffers means: a map from sequence numbers to the fragments that
    have arrived. Sequence numbers here do not wrap; on the wire they are taken modulo 256. */
module Reassembly {
  import opened Bytes
  import opened FragmentHeader
  import opened Fragmentation
  import Modulo

  /** The datagram a peer sent under each sequence number. */
  type Source = int -> Datagram

  datatype Partial = Partial(got: set<nat>, stamp: nat)

  /** The newest sequence number and the datagrams being put together. */
  datatype Window = Window(top: int, parts: map<int, Partial>)

  datatype Event =
    | Fragment(s: int, i: nat, now: nat)
    | WholePacket(payload: Bytes)
    | Tick(now: nat)

  function WireId(s: int): (id: nat)
    ensures id < N_SEQ_ID
  {
    s % N_SEQ_ID
  }

  /** What the code does on an event. */
  function ConcreteStep(D: Source, r: Ring, e: Event): (result: (Ring, Bytes))
    requires RingOk(r) && (e.Fragment? ==> e.i < Count(D(e.s)))
    ensures RingOk(result.0)
  {
    match e
    case Fragment(s, i, now) => Incoming(r, Packet(D(s), WireId(s), i), now)
    case WholePacket(payload) => Incoming(r, HeaderBytes(FRAG_WHOLE, 0, 0, 0) + payload, 0)
    case Tick(now) => (Fragmentation.Reap(r, now), [])
  }

  function Jumps(w: Window, s: int): bool {
    Modulo.Abs(s - w.top) >= 25
  }

  function NewTop(w: Window, s: int): int {
    if Jumps(w, s) then s else Max(w.top, s)
  }

  /** The datagrams that are still in the window once it has moved for `s`. */
  ghost function Kept(w: Window, s: int): map<int, Partial> {
    if Jumps(w, s) then map[]
    else map k | k in w.parts && k > NewTop(w, s) - 25 :: w.parts[k]
  }

  ghost function GotSoFar(w: Window, s: int): set<nat> {
    if s in Kept(w, s) then Kept(w, s)[s].got else {}
  }

  /** What an event means: a fragment joins those of its datagram, and the payload comes out when
      that completes it. */
  ghost function AbstractStep(D: Source, w: Window, e: Event): (Window, Bytes) {
    match e
    case Fragment(s, i, now) =>
      var got := GotSoFar(w, s) + {i};
      if got == Indices(D(s)) then (Window(NewTop(w, s), Kept(w, s) - {s}), D(s).payload)
      else (Window(NewTop(w, s), Kept(w, s)[s := Partial(got, now)]), [])
    case WholePacket(payload) => (w, payload)
    case Tick(now) => (w.(parts := map k | k in w.parts && w.parts[k].stamp + 10 > now :: w.parts[k]), [])
  }

  /** The 8 wire bits of a sequence number do not make one outside the window look like one inside. */
  predicate Unambiguous(s: int, top: int) {
    Modulo.Abs(s - top) < N_FRAG_BUF || N_FRAG_BUF <= (s - top) % N_SEQ_ID <= N_SEQ_ID - N_FRAG_BUF
  }

  /** The wire bits say what is meant, and the datagram fits the buffers. */
  ghost predicate Admissible(D: Source, capacity: nat, w: Window, e: Event) {
    e.Fragment? ==> e.i < Count(D(e.s)) && |D(e.s).payload| <= capacity && Unambiguous(e.s, w.top)
  }

  /** The slot `back` behind the newest one against the datagram it stands for. */
  ghost predicate SlotMatches(D: Source, w: Window, slot: Slot, s: int) {
    if s in w.parts
    then slot.defined && slot.timestamp == w.parts[s].stamp && Holds(D(s), slot, w.parts[s].got)
    else !slot.defined
  }

  ghost predicate Represents(D: Source, capacity: nat, r: Ring, w: Window) {
    && RingOk(r)
    && r.seqId == WireId(w.top)
    && (forall j :: 0 <= j < N_FRAG_BUF ==> |r.slots[j].data| == capacity)
    && (forall s :: s in w.parts ==> w.top - N_FRAG_BUF < s <= w.top)
    && (forall b :: 0 <= b < N_FRAG_BUF ==> SlotMatches(D, w, Behind(r, b), w.top - b))
  }

  /** The window test of the code on wire ids is the window test on sequence numbers exactly when
      the wire bits are unambiguous. */
  lemma WireDistance(s: int, top: int)
    ensures Unambiguous(s, top) <==>
            var diff := Modulo.Subtract(WireId(s), WireId(top), N_SEQ_ID);
            if Modulo.Abs(diff) >= N_FRAG_BUF then Modulo.Abs(s - top) >= N_FRAG_BUF else diff == s - top
  {
    var diff := Modulo.Subtract(WireId(s), WireId(top), N_SEQ_ID);
    var turns := s / N_SEQ_ID - top / N_SEQ_ID;
    assert s - top == WireId(s) - WireId(top) + turns * N_SEQ_ID;
    var k := (s - top - diff) / N_SEQ_ID;
    assert s - top == diff + k * N_SEQ_ID;
    Turns(s - top, diff, k);
  }

  /** A distance and its shortest form on the circle, `k` turns apart. */
  lemma Turns(x: int, diff: int, k: int)
    requires x == diff + k * N_SEQ_ID && 2 * Modulo.Abs(diff) <= N_SEQ_ID
    ensures (Modulo.Abs(x) < N_FRAG_BUF || N_FRAG_BUF <= x % N_SEQ_ID <= N_SEQ_ID - N_FRAG_BUF)
       <==> if Modulo.Abs(diff) >= N_FRAG_BUF then Modulo.Abs(x) >= N_FRAG_BUF else diff == x
  {
    assert x % N_SEQ_ID == if diff >= 0 then diff else diff + N_SEQ_ID;
  }

  /** A fragment on the wire is read back as what was sent. */
  lemma ReadsFragment(d: Datagram, id: nat, i: nat)
    requires i < Count(d) && id < N_SEQ_ID
    ensures var packet := Packet(d, id, i);
            && |packet| >= HEADER_LENGTH
            && packet[HEADER_LENGTH..] == Piece(d, i)
            && var flags := FromBigEndian(packet[..HEADER_LENGTH]);
               && Kind(flags) == KindOf(d, i) && SeqId(flags) == id && FragId(flags) == i
               && (if Kind(flags) == FRAG_YES_LAST then Size(flags) else |Piece(d, i)|) == d.size
  {
    CountBounds(d);
    PieceBounds(d, i);
    var packet := Packet(d, id, i);
    assert packet[..HEADER_LENGTH] == HeaderBytes(KindOf(d, i), id, i, d.size);
    HeaderOnWire(KindOf(d, i), id, i, d.size);
    UnpackUndoesPack(KindOf(d, i), id, i, d.size);
  }

  lemma IncomingFragment(r: Ring, d: Datagram, id: nat, i: nat, now: nat)
    requires RingOk(r) && i < Count(d) && id < N_SEQ_ID
    ensures var (r1, j) := GetBuf(r, id);
            var (slot, out) := Insert(r1.slots[j], KindOf(d, i), i, d.size, Piece(d, i), now);
            Incoming(r, Packet(d, id, i), now) == (r1.(slots := r1.slots[j := slot]), out)
  {
    ReadsFragment(d, id, i);
  }

  /** Moving the window keeps the representation, for the datagrams kept. */
  lemma GetBufRepresents(D: Source, capacity: nat, r: Ring, w: Window, s: int)
    requires Represents(D, capacity, r, w) && Unambiguous(s, w.top)
    ensures var (r1, j) := GetBuf(r, WireId(s));
            var w1 := Window(NewTop(w, s), Kept(w, s));
            && Represents(D, capacity, r1, w1)
            && w1.top - N_FRAG_BUF < s <= w1.top
            && j == Modulo.Add(r1.index, -(w1.top - s), N_FRAG_BUF)
  {
    WindowMoves(capacity, r, w, s);
    var (r1, j) := GetBuf(r, WireId(s));
    SlotsStay(D, w, r, r1, s);
  }

  lemma SlotsStay(D: Source, w: Window, r: Ring, r1: Ring, s: int)
    requires RingOk(r) && RingOk(r1)
    requires forall k :: k in w.parts ==> k <= w.top
    requires forall b :: 0 <= b < N_FRAG_BUF ==> SlotMatches(D, w, Behind(r, b), w.top - b)
    requires var diff, jumped := s - w.top, Jumps(w, s);
             forall b :: 0 <= b < N_FRAG_BUF ==> Moved(r, r1, jumped, diff, b)
    ensures var w1 := Window(NewTop(w, s), Kept(w, s));
            forall b :: 0 <= b < N_FRAG_BUF ==> SlotMatches(D, w1, Behind(r1, b), w1.top - b)
  {
    forall b | 0 <= b < N_FRAG_BUF
      ensures SlotMatches(D, Window(NewTop(w, s), Kept(w, s)), Behind(r1, b), NewTop(w, s) - b)
    {
      assert Moved(r, r1, Jumps(w, s), s - w.top, b);
      SlotStays(D, w, r, r1, s, b);
    }
  }

  /** `GetBufSlides` in terms of unwrapped sequence numbers. */
  lemma WindowMoves(capacity: nat, r: Ring, w: Window, s: int)
    requires RingOk(r) && r.seqId == WireId(w.top) && Unambiguous(s, w.top)
    requires forall j :: 0 <= j < N_FRAG_BUF ==> |r.slots[j].data| == capacity
    ensures var (r1, j) := GetBuf(r, WireId(s));
            var diff := s - w.top;
            var jumped := Jumps(w, s);
            && r1.seqId == WireId(NewTop(w, s))
            && j == Modulo.Add(r1.index, -(NewTop(w, s) - s), N_FRAG_BUF)
            && (forall j :: 0 <= j < N_FRAG_BUF ==> |r1.slots[j].data| == capacity)
            && forall b :: 0 <= b < N_FRAG_BUF ==> Moved(r, r1, jumped, diff, b)
  {
    WireDistance(s, w.top);
    GetBufSlides(r, WireId(s));
    var (r1, j) := GetBuf(r, WireId(s));
    var wireDiff := Modulo.Subtract(WireId(s), r.seqId, N_SEQ_ID);
    var diff, jumped := s - w.top, Jumps(w, s);
    forall b | 0 <= b < N_FRAG_BUF
      ensures Moved(r, r1, jumped, diff, b)
    {
      assert Moved(r, r1, Modulo.Abs(wireDiff) >= N_FRAG_BUF, wireDiff, b);
    }
  }

  lemma SlotStays(D: Source, w: Window, r: Ring, r1: Ring, s: int, b: int)
    requires RingOk(r) && RingOk(r1) && 0 <= b < N_FRAG_BUF
    requires forall k :: k in w.parts ==> k <= w.top
    requires forall b :: 0 <= b < N_FRAG_BUF ==> SlotMatches(D, w, Behind(r, b), w.top - b)
    requires Moved(r, r1, Jumps(w, s), s - w.top, b)
    ensures SlotMatches(D, Window(NewTop(w, s), Kept(w, s)), Behind(r1, b), NewTop(w, s) - b)
  {
    if !Jumps(w, s) && b >= s - w.top {
      var b0 := if s > w.top then b - (s - w.top) else b;
      assert SlotMatches(D, w, Behind(r, b0), w.top - b0);
    }
  }

  /** Writing one slot changes what stands for one datagram only. */
  lemma SlotUpdate(D: Source, capacity: nat, r: Ring, w: Window, s: int, slot: Slot, parts: map<int, Partial>)
    requires Represents(D, capacity, r, w) && w.top - N_FRAG_BUF < s <= w.top
    requires |slot.data| == capacity && slot.len <= capacity
    requires forall k :: k != s ==> (k in parts <==> k in w.parts) && (k in parts ==> parts[k] == w.parts[k])
    requires SlotMatches(D, Window(w.top, parts), slot, s)
    ensures var j := Modulo.Add(r.index, -(w.top - s), N_FRAG_BUF);
            Represents(D, capacity, r.(slots := r.slots[j := slot]), Window(w.top, parts))
  {
    var j := Modulo.Add(r.index, -(w.top - s), N_FRAG_BUF);
    var r' := r.(slots := r.slots[j := slot]);
    var w' := Window(w.top, parts);
    forall b | 0 <= b < N_FRAG_BUF
      ensures SlotMatches(D, w', Behind(r', b), w'.top - b)
    {
      if b != w.top - s {
        assert Modulo.Add(r.index, -b, N_FRAG_BUF) != j;
        assert SlotMatches(D, w, Behind(r, b), w.top - b);
      }
    }
  }

  /** One fragment: code and meaning agree on the output and stay in step. */
  lemma FragmentRefines(D: Source, capacity: nat, r: Ring, w: Window, e: Event)
    requires e.Fragment? && Represents(D, capacity, r, w) && Admissible(D, capacity, w, e)
    ensures ConcreteStep(D, r, e).1 == AbstractStep(D, w, e).1
    ensures Represents(D, capacity, ConcreteStep(D, r, e).0, AbstractStep(D, w, e).0)
  {
    var s := e.s;
    IncomingFragment(r, D(s), WireId(s), e.i, e.now);
    GetBufRepresents(D, capacity, r, w, s);
    var (r1, j) := GetBuf(r, WireId(s));
    FragmentIsStored(D, capacity, r1, j, w, e);
  }

  /** The slot found for a fragment takes it as the datagram's part in the window does. */
  lemma FragmentIsStored(D: Source, capacity: nat, r1: Ring, j: nat, w: Window, e: Event)
    requires e.Fragment? && e.i < Count(D(e.s)) && |D(e.s).payload| <= capacity
    requires var w1 := Window(NewTop(w, e.s), Kept(w, e.s));
             && Represents(D, capacity, r1, w1) && w1.top - N_FRAG_BUF < e.s <= w1.top
             && j == Modulo.Add(r1.index, -(w1.top - e.s), N_FRAG_BUF)
    ensures var (slot, out) := Insert(r1.slots[j], KindOf(D(e.s), e.i), e.i, D(e.s).size, Piece(D(e.s), e.i), e.now);
            && out == AbstractStep(D, w, e).1
            && Represents(D, capacity, r1.(slots := r1.slots[j := slot]), AbstractStep(D, w, e).0)
  {
    var d, w1 := D(e.s), Window(NewTop(w, e.s), Kept(w, e.s));
    assert SlotMatches(D, w1, Behind(r1, w1.top - e.s), w1.top - (w1.top - e.s));
    InsertOutcome(d, r1.slots[j], GotSoFar(w, e.s), e.i, e.now);
    var (slot, out) := Insert(r1.slots[j], KindOf(d, e.i), e.i, d.size, Piece(d, e.i), e.now);
    SlotUpdate(D, capacity, r1, w1, e.s, slot, AbstractStep(D, w, e).0.parts);
  }

  lemma TickRefines(D: Source, capacity: nat, r: Ring, w: Window, now: nat)
    requires Represents(D, capacity, r, w)
    ensures Represents(D, capacity, Fragmentation.Reap(r, now), AbstractStep(D, w, Tick(now)).0)
  {
    var r' := Fragmentation.Reap(r, now);
    var w' := AbstractStep(D, w, Tick(now)).0;
    forall b | 0 <= b < N_FRAG_BUF
      ensures SlotMatches(D, w', Behind(r', b), w'.top - b)
    {
      assert SlotMatches(D, w, Behind(r, b), w.top - b);
    }
  }

  lemma WholeRefines(r: Ring, payload: Bytes)
    requires RingOk(r)
    ensures Incoming(r, HeaderBytes(FRAG_WHOLE, 0, 0, 0) + payload, 0) == (r, payload)
  {
    var packet := HeaderBytes(FRAG_WHOLE, 0, 0, 0) + payload;
    assert packet[..HEADER_LENGTH] == HeaderBytes(FRAG_WHOLE, 0, 0, 0);
    HeaderOnWire(FRAG_WHOLE, 0, 0, 0);
  }

  lemma StepRefines(D: Source, capacity: nat, r: Ring, w: Window, e: Event)
    requires Represents(D, capacity, r, w) && Admissible(D, capacity, w, e)
    ensures ConcreteStep(D, r, e).1 == AbstractStep(D, w, e).1
    ensures Represents(D, capacity, ConcreteStep(D, r, e).0, AbstractStep(D, w, e).0)
  {
    match e {
      case Fragment(s, i, now) => FragmentRefines(D, capacity, r, w, e);
      case WholePacket(payload) => WholeRefines(r, payload);
      case Tick(now) => TickRefines(D, capacity, r, w, now);
    }
  }

  /** The abstract window after a run of events, and the outputs along the way. */
  ghost function AbstractRun(D: Source, w: Window, events: seq<Event>): (result: (Window, seq<Bytes>))
    ensures |result.1| == |events|
  {
    if events == [] then (w, [])
    else
      var (w1, outs) := AbstractRun(D, w, events[..|events| - 1]);
      var (w2, out) := AbstractStep(D, w1, events[|events| - 1]);
      (w2, outs + [out])
  }

  ghost predicate AdmissibleRun(D: Source, capacity: nat, w: Window, events: seq<Event>) {
    events == [] ||
    (&& AdmissibleRun(D, capacity, w, events[..|events| - 1])
     && Admissible(D, capacity, AbstractRun(D, w, events[..|events| - 1]).0, events[|events| - 1]))
  }

  function WellFormed(D: Source, events: seq<Event>): bool {
    forall k :: 0 <= k < |events| && events[k].Fragment? ==> events[k].i < Count(D(events[k].s))
  }

  function ConcreteRun(D: Source, r: Ring, events: seq<Event>): (result: (Ring, seq<Bytes>))
    requires RingOk(r) && WellFormed(D, events)
    ensures RingOk(result.0) && |result.1| == |events|
  {
    if events == [] then (r, [])
    else
      var (r1, outs) := ConcreteRun(D, r, events[..|events| - 1]);
      var (r2, out) := ConcreteStep(D, r1, events[|events| - 1]);
      (r2, outs + [out])
  }

  /** Over every run the ring behaves as the map from sequence numbers to partial datagrams. */
  lemma {:induction false} RunRefines(D: Source, capacity: nat, r: Ring, w: Window, events: seq<Event>)
    requires Represents(D, capacity, r, w) && WellFormed(D, events) && AdmissibleRun(D, capacity, w, events)
    ensures ConcreteRun(D, r, events).1 == AbstractRun(D, w, events).1
    ensures Represents(D, capacity, ConcreteRun(D, r, events).0, AbstractRun(D, w, events).0)
  {
    if events != [] {
      var init := events[..|events| - 1];
      RunRefines(D, capacity, r, w, init);
      StepRefines(D, capacity, ConcreteRun(D, r, init).0, AbstractRun(D, w, init).0, events[|events| - 1]);
    }
  }

  lemma {:induction false} AbstractOutputs(D: Source, w: Window, events: seq<Event>, k: nat)
    requires k < |events| && events[k].Fragment?
    ensures AbstractRun(D, w, events).1[k] == [] || AbstractRun(D, w, events).1[k] == D(events[k].s).payload
  {
    if k < |events| - 1 {
      AbstractOutputs(D, w, events[..|events| - 1], k);
    }
  }

  /** Over every run, whatever a fragment brings out is the payload of its own datagram. */
  lemma OnlySentPayloadsComeOut(D: Source, capacity: nat, r: Ring, w: Window, events: seq<Event>, k: nat)
    requires Represents(D, capacity, r, w) && WellFormed(D, events) && AdmissibleRun(D, capacity, w, events)
    requires k < |events| && events[k].Fragment?
    ensures ConcreteRun(D, r, events).1[k] == [] || ConcreteRun(D, r, events).1[k] == D(events[k].s).payload
  {
    RunRefines(D, capacity, r, w, events);
    AbstractOutputs(D, w, events, k);
  }

  /** The list as `fragment_init` leaves it stands for an empty window. */
  lemma FreshRingRepresents(D: Source, capacity: nat, r: Ring)
    requires RingOk(r) && r.seqId == 0 && r.index == 0
    requires forall j :: 0 <= j < N_FRAG_BUF ==> !r.slots[j].defined && |r.slots[j].data| == capacity
    ensures Represents(D, capacity, r, Window(0, map[]))
  {
  }

  /** The fragments of datagram `s` among the events. */
  ghost function SeenOf(events: seq<Event>, s: int): (seen: set<nat>)
    ensures forall k :: 0 <= k < |events| && events[k].Fragment? && events[k].s == s ==> events[k].i in seen
  {
    if events == [] then {}
    else
      var last := events[|events| - 1];
      SeenOf(events[..|events| - 1], s) + if last.Fragment? && last.s == s then {last.i} else {}
  }

  /** All fragments are of datagrams within one window of sequence numbers starting at `lo`. */
  ghost predicate Nearby(events: seq<Event>, lo: int) {
    forall k :: 0 <= k < |events| && events[k].Fragment? ==> lo <= events[k].s < lo + N_FRAG_BUF
  }

  ghost predicate NoFragment(events: seq<Event>) {
    forall k :: 0 <= k < |events| ==> !events[k].Fragment?
  }

  /** The window reaches `lo` with fragment `s`: its wire bits say what is meant, and the window is not
      already beyond, unless the fragment makes it jump. */
  ghost predicate Reaches(w: Window, s: int, lo: int) {
    Unambiguous(s, w.top) && (w.top < lo + N_FRAG_BUF || Jumps(w, s))
  }

  /** The first fragment of the run brings the window to `lo`. */
  ghost predicate Enters(events: seq<Event>, w: Window, lo: int) {
    forall k :: 0 <= k < |events| && events[k].Fragment? && NoFragment(events[..k]) ==> Reaches(w, events[k].s, lo)
  }

  /** When the last fragment of `s` arrived. */
  ghost function LastSeen(events: seq<Event>, s: int): Option<nat> {
    if events == [] then None
    else
      var last := events[|events| - 1];
      if last.Fragment? && last.s == s then Some(last.now) else LastSeen(events[..|events| - 1], s)
  }

  /** No tick comes so late that it expires the fragments of `s` received so far. */
  ghost predicate Alive(events: seq<Event>, s: int) {
    events == [] ||
    (&& Alive(events[..|events| - 1], s)
     && (events[|events| - 1].Tick? && LastSeen(events[..|events| - 1], s).Some? ==>
           LastSeen(events[..|events| - 1], s).value + FRAG_TTL_SEC > events[|events| - 1].now))
  }

  /** The window is where the run started, or at `lo`. */
  ghost predicate Arrived(w: Window, w': Window, events: seq<Event>, lo: int) {
    if NoFragment(events) then w'.top == w.top && w'.parts.Keys <= w.parts.Keys
    else lo <= w'.top < lo + N_FRAG_BUF
  }

  /** What is kept of `s` while fragments are missing. */
  ghost predicate Gathered(w': Window, events: seq<Event>, s: int) {
    && (s in w'.parts <==> SeenOf(events, s) != {})
    && (s in w'.parts ==> w'.parts[s].got == SeenOf(events, s) && LastSeen(events, s) == Some(w'.parts[s].stamp))
  }

  ghost predicate Silent(outs: seq<Bytes>, events: seq<Event>, s: int) {
    |outs| == |events| && forall k :: 0 <= k < |events| && events[k].Fragment? && events[k].s == s ==> outs[k] == []
  }

  lemma PrefixEnters(events: seq<Event>, w: Window, lo: int)
    requires events != [] && Enters(events, w, lo)
    ensures Enters(events[..|events| - 1], w, lo)
    ensures events[|events| - 1].Fragment? && NoFragment(events[..|events| - 1]) ==>
              Reaches(w, events[|events| - 1].s, lo)
  {
    var init := events[..|events| - 1];
    forall k | 0 <= k < |init| && init[k].Fragment? && NoFragment(init[..k])
      ensures Reaches(w, init[k].s, lo)
    {
      assert init[..k] == events[..k];
    }
  }

  /** A fragment of the window, at a window that has arrived or that it reaches. */
  lemma FragmentArrives(w1: Window, s: int, lo: int)
    requires lo <= s < lo + N_FRAG_BUF
    requires lo <= w1.top < lo + N_FRAG_BUF || Reaches(w1, s, lo)
    ensures lo <= NewTop(w1, s) < lo + N_FRAG_BUF && Unambiguous(s, w1.top)
    ensures lo <= w1.top < lo + N_FRAG_BUF ==> !Jumps(w1, s)
  {
  }

  lemma {:induction false} EveryRunArrives(D: Source, w: Window, events: seq<Event>, lo: int)
    requires Nearby(events, lo) && Enters(events, w, lo)
    ensures Arrived(w, AbstractRun(D, w, events).0, events, lo)
    ensures events != [] && events[|events| - 1].Fragment? ==>
              FragmentIsClose(AbstractRun(D, w, events[..|events| - 1]).0, events[|events| - 1].s, lo)
  {
    if events != [] {
      var init, last := events[..|events| - 1], events[|events| - 1];
      PrefixEnters(events, w, lo);
      EveryRunArrives(D, w, init, lo);
      var w1 := AbstractRun(D, w, init).0;
      if last.Fragment? {
        SameTopReaches(w, w1, last.s, lo);
        FragmentArrives(w1, last.s, lo);
        assert !NoFragment(events) by { assert events[|events| - 1].Fragment?; }
      } else {
        assert NoFragment(events) <==> NoFragment(init);
      }
    }
  }

  ghost predicate FragmentIsClose(w1: Window, s: int, lo: int) {
    lo <= w1.top < lo + N_FRAG_BUF || Reaches(w1, s, lo)
  }

  lemma SameTopReaches(w: Window, w1: Window, s: int, lo: int)
    ensures w1.top == w.top && Reaches(w, s, lo) ==> Reaches(w1, s, lo)
  {
  }

  /** One step while something of `s` is missing before and after it. */
  lemma GatherStep(D: Source, w: Window, w1: Window, init: seq<Event>, e: Event, s: int, lo: int)
    requires lo <= s < lo + N_FRAG_BUF && s !in w.parts
    requires Arrived(w, w1, init, lo) && Gathered(w1, init, s) && Nearby(init + [e], lo) && Alive(init + [e], s)
    requires e.Fragment? ==> e.i < Count(D(e.s)) && FragmentIsClose(w1, e.s, lo)
    requires SeenOf(init, s) != Indices(D(s)) && SeenOf(init + [e], s) <= Indices(D(s))
    ensures SeenOf(init + [e], s) != Indices(D(s)) ==>
              Gathered(AbstractStep(D, w1, e).0, init + [e], s)
    ensures e.Fragment? && e.s == s ==>
              AbstractStep(D, w1, e).1 == if SeenOf(init + [e], s) == Indices(D(s)) then D(s).payload else []
  {
    var events := init + [e];
    assert events[..|events| - 1] == init && events[|events| - 1] == e;
    if e.Fragment? {
      FragmentArrives(w1, e.s, lo);
      KeptInWindow(w1, e.s, s, lo);
    }
  }

  /** Moving the window for a nearby fragment keeps what has been gathered of `s`. */
  lemma KeptInWindow(w1: Window, t: int, s: int, lo: int)
    requires lo <= s < lo + N_FRAG_BUF && lo <= t < lo + N_FRAG_BUF
    requires s !in w1.parts || lo <= w1.top < lo + N_FRAG_BUF
    requires FragmentIsClose(w1, t, lo)
    ensures s in Kept(w1, t) <==> s in w1.parts
    ensures s in w1.parts ==> Kept(w1, t)[s] == w1.parts[s]
  {
    FragmentArrives(w1, t, lo);
  }

  lemma {:induction false} SeenIsBelow(D: Source, events: seq<Event>, s: int)
    requires WellFormed(D, events)
    ensures SeenOf(events, s) <= Indices(D(s))
  {
    if events != [] {
      SeenIsBelow(D, events[..|events| - 1], s);
    }
  }

  /** While fragments of `s` are missing nothing of it comes out, wherever the window starts, whatever order
      and however often its fragments arrive and whatever arrives between them. */
  lemma {:induction false} NothingUntilComplete(D: Source, w: Window, events: seq<Event>, s: int, lo: int)
    requires lo <= s < lo + N_FRAG_BUF && s !in w.parts
    requires WellFormed(D, events) && Nearby(events, lo) && Enters(events, w, lo) && Alive(events, s)
    requires SeenOf(events, s) != Indices(D(s))
    ensures Gathered(AbstractRun(D, w, events).0, events, s)
    ensures Silent(AbstractRun(D, w, events).1, events, s)
  {
    if events != [] {
      var init, last := events[..|events| - 1], events[|events| - 1];
      SeenIsBelow(D, events, s);
      SeenIsBelow(D, init, s);
      PrefixEnters(events, w, lo);
      NothingUntilComplete(D, w, init, s, lo);
      EveryRunArrives(D, w, events, lo);
      EveryRunArrives(D, w, init, lo);
      assert init + [last] == events;
      GatherStep(D, w, AbstractRun(D, w, init).0, init, last, s, lo);
      SilentStep(D, w, events, s);
    }
  }

  lemma SilentStep(D: Source, w: Window, events: seq<Event>, s: int)
    requires events != []
    requires Silent(AbstractRun(D, w, events[..|events| - 1]).1, events[..|events| - 1], s)
    ensures forall k :: 0 <= k < |events| - 1 && events[k].Fragment? && events[k].s == s ==>
              AbstractRun(D, w, events).1[k] == []
    ensures AbstractRun(D, w, events).1[|events| - 1]
         == AbstractStep(D, AbstractRun(D, w, events[..|events| - 1]).0, events[|events| - 1]).1
  {
    var init := events[..|events| - 1];
    var outs := AbstractRun(D, w, init).1;
    OneMoreOutput(D, w, events);
    forall k | 0 <= k < |events| - 1 && events[k].Fragment? && events[k].s == s
      ensures AbstractRun(D, w, events).1[k] == []
    {
      assert init[k] == events[k] && outs[k] == [];
    }
  }

  lemma OneMoreOutput(D: Source, w: Window, events: seq<Event>)
    requires events != []
    ensures var (w1, outs) := AbstractRun(D, w, events[..|events| - 1]);
            AbstractRun(D, w, events).1 == outs + [AbstractStep(D, w1, events[|events| - 1]).1]
  {
  }

  /** The last event brings the last missing fragment of `s`. */
  ghost predicate Completes(D: Source, events: seq<Event>, s: int) {
    && events != []
    && SeenOf(events[..|events| - 1], s) != Indices(D(s)) && SeenOf(events, s) == Indices(D(s))
  }

  /** Nothing of `s` comes out before the last event, and then the whole payload does. */
  ghost predicate DeliversAtTheEnd(D: Source, outs: seq<Bytes>, events: seq<Event>, s: int) {
    && |outs| == |events| > 0
    && outs[|events| - 1] == D(s).payload
    && forall k :: 0 <= k < |events| - 1 && events[k].Fragment? && events[k].s == s ==> outs[k] == []
  }

  /** The event that brings the last missing fragment of `s` brings out its payload. */
  lemma DeliveredWhenComplete(D: Source, w: Window, events: seq<Event>, s: int, lo: int)
    requires lo <= s < lo + N_FRAG_BUF && s !in w.parts
    requires WellFormed(D, events) && Nearby(events, lo) && Enters(events, w, lo) && Alive(events, s)
    requires Completes(D, events, s)
    ensures DeliversAtTheEnd(D, AbstractRun(D, w, events).1, events, s)
  {
    var init, last := events[..|events| - 1], events[|events| - 1];
    PrefixEnters(events, w, lo);
    NothingUntilComplete(D, w, init, s, lo);
    EveryRunArrives(D, w, events, lo);
    EveryRunArrives(D, w, init, lo);
    assert init + [last] == events;
    GatherStep(D, w, AbstractRun(D, w, init).0, init, last, s, lo);
    SilentStep(D, w, events, s);
  }

  ghost predicate Fitting(D: Source, capacity: nat, events: seq<Event>) {
    forall k :: 0 <= k < |events| && events[k].Fragment? ==> |D(events[k].s).payload| <= capacity
  }

  lemma {:induction false} NearbyIsAdmissible(D: Source, capacity: nat, w: Window, events: seq<Event>, lo: int)
    requires WellFormed(D, events) && Nearby(events, lo) && Enters(events, w, lo) && Fitting(D, capacity, events)
    ensures AdmissibleRun(D, capacity, w, events)
  {
    if events != [] {
      var init, last := events[..|events| - 1], events[|events| - 1];
      PrefixEnters(events, w, lo);
      NearbyIsAdmissible(D, capacity, w, init, lo);
      EveryRunArrives(D, w, events, lo);
      if last.Fragment? {
        FragmentArrives(AbstractRun(D, w, init).0, last.s, lo);
      }
    }
  }

  /** Byte for byte delivery by the code, wherever its window stands: starting from buffers in which nothing
      of `s` is pending, fragments of `s` in any order, repeated at will and mixed with other traffic of the
      window and with expiry that does not reach them, yield nothing until the last missing one and then
      exactly the payload. */
  lemma AnyOrderDelivers(D: Source, capacity: nat, r: Ring, w: Window, events: seq<Event>, s: int, lo: int)
    requires Represents(D, capacity, r, w) && lo <= s < lo + N_FRAG_BUF && s !in w.parts
    requires WellFormed(D, events) && Nearby(events, lo) && Enters(events, w, lo) && Alive(events, s)
    requires Fitting(D, capacity, events) && Completes(D, events, s)
    ensures DeliversAtTheEnd(D, ConcreteRun(D, r, events).1, events, s)
  {
    NearbyIsAdmissible(D, capacity, w, events, lo);
    RunRefines(D, capacity, r, w, events);
    DeliveredWhenComplete(D, w, events, s, lo);
  }

  /** Every 8-bit number is the wire form of one number that a window at 0 takes for what it is. */
  function FirstNumber(id: nat): (s: int)
    requires id < N_SEQ_ID
    ensures WireId(s) == id && Unambiguous(s, 0) && -N_FRAG_BUF < s
  {
    if id <= N_SEQ_ID - N_FRAG_BUF then id else id - N_SEQ_ID
  }

  /** The first datagrams of a session, whatever number the sender starts with: the receiver as set up delivers
      each datagram of the first window, provided the first fragment to arrive is of a number that does not
      wrap around to the window at 0. */
  lemma FirstDatagramsAreDelivered(D: Source, capacity: nat, r: Ring, events: seq<Event>, s: int, id: nat)
    requires RingOk(r) && r.seqId == 0 && r.index == 0
    requires forall j :: 0 <= j < N_FRAG_BUF ==> !r.slots[j].defined && |r.slots[j].data| == capacity
    requires id < N_SEQ_ID && FirstNumber(id) <= s < FirstNumber(id) + N_FRAG_BUF
    requires WellFormed(D, events) && Nearby(events, FirstNumber(id)) && Alive(events, s)
    requires forall k :: 0 <= k < |events| && events[k].Fragment? && NoFragment(events[..k]) ==>
               events[k].s <= N_SEQ_ID - N_FRAG_BUF
    requires Fitting(D, capacity, events) && Completes(D, events, s)
    ensures DeliversAtTheEnd(D, ConcreteRun(D, r, events).1, events, s)
  {
    var w, lo := Window(0, map[]), FirstNumber(id);
    FreshRingRepresents(D, capacity, r);
    forall k | 0 <= k < |events| && events[k].Fragment? && NoFragment(events[..k])
      ensures Reaches(w, events[k].s, lo)
    {
    }
    AnyOrderDelivers(D, capacity, r, w, events, s, lo);
  }
}

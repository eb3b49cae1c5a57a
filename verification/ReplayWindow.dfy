/** The receive side of replay protection: which packet ids have been seen. */
module ReplayWindow {
  import opened Bytes
  import Modulo

  const SEQ_UNSEEN := 0
  const SEQ_EXPIRED := 1
  const SEQ_REAP_INTERVAL := 5
  const MAX_SEQ_BACKTRACK := 65536
  const MAX_TIME_BACKTRACK := 600

  datatype PacketId = PacketId(id: nat, time: nat)

  /** The value of a `packet_id_rec`: `seen[k]` is the entry for sequence number `id - k`.
      With `backtrack == 0` there is no list and packets must arrive in order. */
  datatype Window = Window(
    id: nat,
    time: nat,
    backtrack: nat,
    timeBacktrack: nat,
    lastReap: nat,
    seen: seq<nat>)
  {
    predicate Valid() {
      && backtrack <= MAX_SEQ_BACKTRACK
      && timeBacktrack <= MAX_TIME_BACKTRACK
      && |seen| <= backtrack
      && |seen| <= id
      && (backtrack > 0 && seen == [] ==> id == 0 && time == 0)
      && (backtrack == 0 ==> timeBacktrack == 0 && (id == 0 ==> time == 0))
    }
  }

  function Empty(backtrack: nat, timeBacktrack: nat): (w: Window)
  {
    Window(0, 0, backtrack, if backtrack == 0 then 0 else timeBacktrack, 0, [])
  }

  /** `packet_id_test`. */
  predicate Test(w: Window, pin: PacketId) {
    if pin.id == 0 then false
    else if w.backtrack > 0 then
      if pin.time == w.time then
        pin.id > w.id || (w.id - pin.id < |w.seen| && w.seen[w.id - pin.id] == SEQ_UNSEEN)
      else
        pin.time > w.time
    else
      if pin.time == w.time then w.id == 0 || pin.id == w.id + 1
      else pin.time > w.time && pin.id == 1
  }

  function Unseen(count: nat): (r: seq<nat>)
    ensures |r| == count
    ensures forall k :: 0 <= k < count ==> r[k] == SEQ_UNSEEN
  {
    if count == 0 then [] else [SEQ_UNSEEN] + Unseen(count - 1)
  }

  /** `count` unseen entries in front, cut at the capacity of the list. */
  function PushUnseen(seen: seq<nat>, count: nat, capacity: nat): (r: seq<nat>)
    requires |seen| <= capacity
    ensures |r| == Min(count + |seen|, capacity)
    ensures forall k :: 0 <= k < |r| ==> r[k] == if k < count then SEQ_UNSEEN else seen[k - count]
  {
    (Unseen(count) + seen)[..Min(count + |seen|, capacity)]
  }

  lemma PushUnseenTwice(seen: seq<nat>, count: nat, capacity: nat)
    requires |seen| <= capacity
    ensures PushUnseen(PushUnseen(seen, count, capacity), 1, capacity) == PushUnseen(seen, count + 1, capacity)
  {
  }

  /** The window moved up to `id`, the ids passed over unseen. */
  function Grown(w: Window, id: nat): (r: Window)
    requires |w.seen| <= w.backtrack && w.id <= id
    ensures |r.seen| <= r.backtrack == w.backtrack
  {
    w.(id := id, seen := PushUnseen(w.seen, id - w.id, w.backtrack))
  }

  lemma GrownTwice(w: Window, id: nat)
    requires |w.seen| <= w.backtrack && w.id <= id
    ensures Grown(w, w.id) == w
    ensures Grown(Grown(w, id), id + 1) == Grown(w, id + 1)
  {
    PushNothing(w.seen, w.backtrack);
    PushUnseenTwice(w.seen, id - w.id, w.backtrack);
  }

  lemma PushNothing(seen: seq<nat>, capacity: nat)
    requires |seen| <= capacity
    ensures PushUnseen(seen, 0, capacity) == seen
  {
  }

  /** Whether `pin` starts the list afresh. */
  predicate Restarts(w: Window, pin: PacketId) {
    |w.seen| == 0 || pin.time > w.time || (pin.id >= w.backtrack && pin.id - w.backtrack > w.id)
  }

  function Restarted(w: Window, pin: PacketId): (r: Window)
    requires w.backtrack > 0 && |w.seen| <= w.backtrack
    ensures |r.seen| <= r.backtrack == w.backtrack
  {
    if Restarts(w, pin) then
      w.(time := pin.time, id := if pin.id > w.backtrack then pin.id - w.backtrack else 0, seen := [])
    else w
  }

  function Advanced(w: Window, pin: PacketId): (r: Window)
    requires |w.seen| <= w.backtrack
    ensures |r.seen| <= r.backtrack == w.backtrack && r.id >= pin.id
  {
    if pin.id > w.id then Grown(w, pin.id) else w
  }

  /** `packet_id_add`. */
  function Add(w: Window, pin: PacketId, now: nat): (r: Window)
    requires |w.seen| <= w.backtrack
    ensures |r.seen| <= r.backtrack
  {
    if w.backtrack == 0 then
      w.(time := pin.time, id := pin.id)
    else
      var a := Advanced(Restarted(w, pin), pin);
      var diff := a.id - pin.id;
      if diff < |a.seen| && now > SEQ_EXPIRED then a.(seen := a.seen[diff := now]) else a
  }

  /** A recorded time stamp that lies further back than allowed. */
  predicate TooOld(t: nat, limit: nat, now: nat) {
    t != SEQ_UNSEEN && t + limit < now
  }

  /** Expires everything up to the next entry that is expired already. */
  function ExpireRun(seen: seq<nat>): (r: seq<nat>)
    ensures |r| == |seen|
    ensures forall i :: 0 <= i < |r| ==> r[i] == seen[i] || r[i] == SEQ_EXPIRED
  {
    if seen == [] || seen[0] == SEQ_EXPIRED then seen
    else [SEQ_EXPIRED] + ExpireRun(seen[1..])
  }

  /** The entries before the first old one stay; from there a run of them is expired. */
  function Expired(seen: seq<nat>, limit: nat, now: nat): (r: seq<nat>)
    ensures |r| == |seen|
    ensures forall i :: 0 <= i < |r| ==> r[i] == seen[i] || r[i] == SEQ_EXPIRED
  {
    if seen == [] || seen[0] == SEQ_EXPIRED then seen
    else if TooOld(seen[0], limit, now) then ExpireRun(seen)
    else [seen[0]] + Expired(seen[1..], limit, now)
  }

  /** `packet_id_reap`: sequence numbers older than an entry past its time are given up. */
  function Reap(w: Window, now: nat): (r: Window)
    ensures |r.seen| == |w.seen|
    ensures forall i :: 0 <= i < |r.seen| ==> r.seen[i] == w.seen[i] || r.seen[i] == SEQ_EXPIRED
  {
    var w' := w.(lastReap := now);
    if w.timeBacktrack == 0 then w'
    else
      w'.(seen := Expired(w.seen, w.timeBacktrack, now))
  }

  /** `packet_id_reap_test`. */
  function ReapTest(w: Window, now: nat): (r: Window)
    ensures |r.seen| == |w.seen|
  {
    if w.lastReap + SEQ_REAP_INTERVAL <= now then Reap(w, now) else w
  }

  /** The replay part of `crypto_check_replay` on one window: reap, test, then record. */
  function Check(w: Window, pin: PacketId, now: nat): (r: (Window, bool))
    requires |w.seen| <= w.backtrack
    ensures |r.0.seen| <= r.0.backtrack
  {
    var w1 := ReapTest(w, now);
    if Test(w1, pin) then (Add(w1, pin, now), true) else (w1, false)
  }

  lemma AddKeepsValid(w: Window, pin: PacketId, now: nat)
    requires w.Valid() && Test(w, pin)
    ensures Add(w, pin, now).Valid()
  {
  }

  lemma ReapKeepsValid(w: Window, now: nat)
    requires w.Valid()
    ensures Reap(w, now).Valid()
  {
    var r := Reap(w, now);
    assert w.seen == [] ==> r.seen == [];
  }

  /** `x` is used up: behind the last packet of an in-order stream, or refused by the list. */
  ghost predicate Spent(w: Window, x: PacketId) {
    if w.backtrack == 0 then
      x.time < w.time || (x.time == w.time && w.id != 0 && x.id <= w.id)
    else
      !Test(w, x)
  }

  lemma SpentIsRejected(w: Window, x: PacketId)
    requires Spent(w, x)
    ensures !Test(w, x)
  {
  }

  /** Recording any accepted packet never makes a used-up id acceptable again. */
  lemma SpentForever(w: Window, pin: PacketId, now: nat, x: PacketId)
    requires w.Valid() && Test(w, pin)
    requires Spent(w, x)
    ensures Spent(Add(w, pin, now), x)
  {
    if x.id != 0 && w.backtrack > 0 && x.time == w.time && pin.time == w.time {
      var a := Advanced(Restarted(w, pin), pin);
      assert x.id <= w.id;
      if Restarts(w, pin) {
        assert pin.id - x.id >= |a.seen|;
      } else if w.id - x.id < |w.seen| && a.id - x.id < |a.seen| {
        assert a.seen[a.id - x.id] == w.seen[w.id - x.id];
      }
    }
  }

  lemma ReapingSpendsMore(w: Window, now: nat, x: PacketId)
    requires Spent(w, x)
    ensures Spent(Reap(w, now), x)
  {
  }

  lemma ReapingRejectsMore(w: Window, now: nat, pin: PacketId)
    requires Test(Reap(w, now), pin)
    ensures Test(w, pin)
  {
  }

  /** The id just recorded is refused from now on, provided the clock is past the two
      reserved time stamps or the window keeps no list. */
  lemma RecordedIsRejected(w: Window, pin: PacketId, now: nat)
    requires w.Valid() && Test(w, pin)
    ensures Spent(Add(w, pin, now), pin) <==> now > SEQ_EXPIRED || w.backtrack == 0
  {
    if w.backtrack > 0 {
      var a := Advanced(Restarted(w, pin), pin);
      assert a.id - pin.id < |a.seen|;
    }
  }

  /** With the clock at one of the reserved stamps the same packet id is accepted twice. */
  lemma RecordedTwiceWitness(now: nat)
    requires now <= SEQ_EXPIRED
    ensures var pin, w := PacketId(1, 0), Empty(64, 0);
            && Check(w, pin, now).1
            && Check(Check(w, pin, now).0, pin, now).1
  {
    var pin, w := PacketId(1, 0), Empty(64, 0);
    var w1 := Check(w, pin, now).0;
    assert w1.id == 1 && |w1.seen| > 0 && w1.seen[0] == SEQ_UNSEEN;
  }

  /** One `Check` at a clock past the reserved stamps keeps what is used up and uses up `pin`. */
  lemma CheckIsMonotone(w: Window, pin: PacketId, now: nat, x: PacketId)
    requires w.Valid() && now > SEQ_EXPIRED
    ensures Check(w, pin, now).0.Valid()
    ensures Spent(w, x) ==> Spent(Check(w, pin, now).0, x)
    ensures Check(w, pin, now).1 ==> Test(w, pin) && Spent(Check(w, pin, now).0, pin)
  {
    var w1 := ReapTest(w, now);
    if w.lastReap + SEQ_REAP_INTERVAL <= now {
      ReapKeepsValid(w, now);
      if Spent(w, x) {
        ReapingSpendsMore(w, now, x);
      }
      if Test(w1, pin) {
        ReapingRejectsMore(w, now, pin);
      }
    }
    if Test(w1, pin) {
      AddKeepsValid(w1, pin, now);
      RecordedIsRejected(w1, pin, now);
      if Spent(w1, x) {
        SpentForever(w1, pin, now, x);
      }
    }
  }

  datatype Arrival = Arrival(pin: PacketId, now: nat)

  /** Everything accepted while a window processes arrivals in order. */
  function Run(w: Window, arrivals: seq<Arrival>): (r: (Window, seq<PacketId>))
    requires |w.seen| <= w.backtrack
    ensures |r.0.seen| <= r.0.backtrack
    decreases |arrivals|
  {
    if arrivals == [] then (w, [])
    else
      var last := arrivals[|arrivals| - 1];
      var (w1, accepted) := Run(w, arrivals[..|arrivals| - 1]);
      var (w2, ok) := Check(w1, last.pin, last.now);
      (w2, if ok then accepted + [last.pin] else accepted)
  }

  /** Over every run no packet id is accepted twice. */
  lemma {:induction false} AcceptedAtMostOnce(w: Window, arrivals: seq<Arrival>)
    requires w.Valid()
    requires forall i :: 0 <= i < |arrivals| ==> arrivals[i].now > SEQ_EXPIRED
    ensures Run(w, arrivals).0.Valid()
    ensures forall i :: 0 <= i < |Run(w, arrivals).1| ==> Spent(Run(w, arrivals).0, Run(w, arrivals).1[i])
    ensures forall i, j :: 0 <= i < j < |Run(w, arrivals).1| ==> Run(w, arrivals).1[i] != Run(w, arrivals).1[j]
  {
    if arrivals != [] {
      var last := arrivals[|arrivals| - 1];
      AcceptedAtMostOnce(w, arrivals[..|arrivals| - 1]);
      var (w1, accepted) := Run(w, arrivals[..|arrivals| - 1]);
      forall i | 0 <= i < |accepted|
        ensures Spent(Check(w1, last.pin, last.now).0, accepted[i])
      {
        CheckIsMonotone(w1, last.pin, last.now, accepted[i]);
      }
      CheckIsMonotone(w1, last.pin, last.now, last.pin);
      if last.pin in accepted {
        SpentIsRejected(w1, last.pin);
      }
    }
  }

  // ---- Which packets are accepted ---------------------------------------------------------------

  /** Once an entry is expired, so are all older ones. */
  ghost predicate ExpiredAtTheEnd(seen: seq<nat>) {
    forall j, k :: 0 <= j <= k < |seen| && seen[j] == SEQ_EXPIRED ==> seen[k] == SEQ_EXPIRED
  }

  /** An entry at or before `k` was recorded more than `limit` ago. */
  ghost predicate OldUpTo(seen: seq<nat>, k: nat, limit: nat, now: nat)
    requires k < |seen|
  {
    exists j :: 0 <= j <= k && seen[j] != SEQ_UNSEEN && seen[j] + limit < now
  }

  /** What reaping leaves of every entry: it is expired if a packet with this or a higher number was recorded
      more than the time limit ago, and otherwise as it was. */
  lemma ReapExpiresExactly(w: Window, now: nat, k: nat)
    requires ExpiredAtTheEnd(w.seen) && k < |w.seen|
    ensures Reap(w, now).seen[k]
         == if w.timeBacktrack > 0 && OldUpTo(w.seen, k, w.timeBacktrack, now) then SEQ_EXPIRED else w.seen[k]
  {
    ExpiredExactly(w.seen, w.timeBacktrack, now, k);
  }

  /** Every entry after reaping. */
  ghost predicate EntriesReaped(w: Window, now: nat, seen: seq<nat>) {
    && |seen| == |w.seen|
    && forall k :: 0 <= k < |seen| ==>
         seen[k] == if w.timeBacktrack > 0 && OldUpTo(w.seen, k, w.timeBacktrack, now) then SEQ_EXPIRED else w.seen[k]
  }

  lemma ReapsEveryEntry(w: Window, now: nat)
    requires ExpiredAtTheEnd(w.seen)
    ensures EntriesReaped(w, now, Reap(w, now).seen)
  {
    forall k | 0 <= k < |w.seen|
      ensures Reap(w, now).seen[k]
           == if w.timeBacktrack > 0 && OldUpTo(w.seen, k, w.timeBacktrack, now) then SEQ_EXPIRED else w.seen[k]
    {
      ReapExpiresExactly(w, now, k);
    }
  }

  lemma {:induction false} ExpireRunExactly(seen: seq<nat>, k: nat)
    requires ExpiredAtTheEnd(seen) && k < |seen|
    ensures ExpireRun(seen)[k] == SEQ_EXPIRED
    decreases |seen|
  {
    if seen[0] != SEQ_EXPIRED && k > 0 {
      ExpireRunExactly(seen[1..], k - 1);
    }
  }

  lemma {:induction false} ExpiredExactly(seen: seq<nat>, limit: nat, now: nat, k: nat)
    requires ExpiredAtTheEnd(seen) && k < |seen|
    ensures Expired(seen, limit, now)[k] == if OldUpTo(seen, k, limit, now) then SEQ_EXPIRED else seen[k]
    decreases |seen|
  {
    if seen[0] == SEQ_EXPIRED {
    } else if seen[0] != SEQ_UNSEEN && seen[0] + limit < now {
      ExpireRunExactly(seen, k);
      assert OldUpTo(seen, k, limit, now);
    } else if k > 0 {
      ExpiredExactly(seen[1..], limit, now, k - 1);
      OldLater(seen, limit, now, k);
    }
  }

  lemma OldLater(seen: seq<nat>, limit: nat, now: nat, k: nat)
    requires 0 < k < |seen| && !(seen[0] != SEQ_UNSEEN && seen[0] + limit < now)
    ensures OldUpTo(seen, k, limit, now) <==> OldUpTo(seen[1..], k - 1, limit, now)
  {
    if OldUpTo(seen[1..], k - 1, limit, now) {
      var j :| 0 <= j <= k - 1 && seen[1..][j] != SEQ_UNSEEN && seen[1..][j] + limit < now;
      assert seen[j + 1] == seen[1..][j];
    }
    if OldUpTo(seen, k, limit, now) {
      var j :| 0 <= j <= k && seen[j] != SEQ_UNSEEN && seen[j] + limit < now;
      assert seen[1..][j - 1] == seen[j];
    }
  }

  /** The time of the last reaping, by the clock alone. */
  function LastReap(arrivals: seq<Arrival>): nat {
    if arrivals == [] then 0 else ReapedBy(LastReap(arrivals[..|arrivals| - 1]), arrivals[|arrivals| - 1].now)
  }

  function ReapedBy(lastReap: nat, now: nat): nat {
    if lastReap + 5 <= now then now else lastReap
  }

  /** When a packet was accepted, and when the window had last been reaped by then. */
  datatype Stamp = Stamp(now: nat, reaped: nat)

  /** All packets accepted in a run, without any bound on how many are remembered. */
  ghost function Accepted(w: Window, arrivals: seq<Arrival>): map<PacketId, Stamp>
    requires |w.seen| <= w.backtrack
  {
    if arrivals == [] then map[]
    else
      var init, last := arrivals[..|arrivals| - 1], arrivals[|arrivals| - 1];
      var accepted := Accepted(w, init);
      if Check(Run(w, init).0, last.pin, last.now).1 then accepted[last.pin := Stamp(last.now, LastReap(arrivals))]
      else accepted
  }

  /** The number is given up: this or a higher one was accepted more than the time limit before a later reaping. */
  ghost predicate GivenUp(accepted: map<PacketId, Stamp>, limit: nat, lastReap: nat, x: PacketId) {
    limit > 0 && exists y :: y in accepted && Outlives(accepted[y], y, limit, lastReap, x)
  }

  ghost predicate Outlives(stamp: Stamp, y: PacketId, limit: nat, lastReap: nat, x: PacketId) {
    y.time == x.time && x.id <= y.id && stamp.reaped < lastReap && stamp.now + limit < lastReap
  }

  /** What the list should hold for a number. */
  ghost function EntryFor(accepted: map<PacketId, Stamp>, limit: nat, lastReap: nat, x: PacketId): nat {
    if GivenUp(accepted, limit, lastReap, x) then SEQ_EXPIRED
    else if x in accepted then accepted[x].now
    else SEQ_UNSEEN
  }

  ghost predicate Entries(id: nat, time: nat, seen: seq<nat>, accepted: map<PacketId, Stamp>, limit: nat, lastReap: nat)
    requires |seen| <= id
  {
    forall k :: 0 <= k < |seen| ==> seen[k] == EntryFor(accepted, limit, lastReap, PacketId(id - k, time))
  }

  /** An accepted packet lies at or behind the top of the window. */
  ghost predicate Behind(w: Window, y: PacketId, stamp: Stamp) {
    && 0 < y.id && y.time <= w.time && (y.time == w.time ==> y.id <= w.id)
    && stamp.now > SEQ_EXPIRED && stamp.reaped <= w.lastReap
  }

  /** The window stands for the unbounded memory of everything accepted. */
  ghost predicate Remembers(w: Window, accepted: map<PacketId, Stamp>) {
    && w.Valid() && w.backtrack > 0 && |w.seen| == Min(w.id, w.backtrack)
    && (if w.id == 0 then accepted == map[] && w.time == 0 else PacketId(w.id, w.time) in accepted)
    && (forall y :: y in accepted ==> Behind(w, y, accepted[y]))
    && Entries(w.id, w.time, w.seen, accepted, w.timeBacktrack, w.lastReap)
  }

  lemma GivenUpIsDownward(accepted: map<PacketId, Stamp>, limit: nat, lastReap: nat, x: PacketId, lower: PacketId)
    requires GivenUp(accepted, limit, lastReap, x) && lower.time == x.time && lower.id <= x.id
    ensures GivenUp(accepted, limit, lastReap, lower)
  {
    var y :| y in accepted && Outlives(accepted[y], y, limit, lastReap, x);
    assert Outlives(accepted[y], y, limit, lastReap, lower);
  }

  lemma GivenUpForGood(accepted: map<PacketId, Stamp>, limit: nat, lastReap: nat, now: nat, x: PacketId)
    requires GivenUp(accepted, limit, lastReap, x) && lastReap <= now
    ensures GivenUp(accepted, limit, now, x)
  {
    var y :| y in accepted && Outlives(accepted[y], y, limit, lastReap, x);
    assert Outlives(accepted[y], y, limit, now, x);
  }

  lemma EntriesEndExpired(w: Window, accepted: map<PacketId, Stamp>)
    requires Remembers(w, accepted)
    ensures ExpiredAtTheEnd(w.seen)
  {
    forall j, k | 0 <= j <= k < |w.seen| && w.seen[j] == SEQ_EXPIRED
      ensures w.seen[k] == SEQ_EXPIRED
    {
      var x := PacketId(w.id - j, w.time);
      assert w.seen[j] == EntryFor(accepted, w.timeBacktrack, w.lastReap, x);
      assert x in accepted ==> Behind(w, x, accepted[x]);
      GivenUpIsDownward(accepted, w.timeBacktrack, w.lastReap, x, PacketId(w.id - k, w.time));
    }
  }

  /** An old entry at or before `k` is an accepted packet that has the number of `k` given up. */
  lemma OldIsGivenUp(w: Window, accepted: map<PacketId, Stamp>, now: nat, k: nat)
    requires Remembers(w, accepted) && w.lastReap < now && k < |w.seen|
    requires w.timeBacktrack > 0 && OldUpTo(w.seen, k, w.timeBacktrack, now)
    ensures GivenUp(accepted, w.timeBacktrack, now, PacketId(w.id - k, w.time))
  {
    var j :| 0 <= j <= k && w.seen[j] != SEQ_UNSEEN && w.seen[j] + w.timeBacktrack < now;
    var x := PacketId(w.id - j, w.time);
    assert w.seen[j] == EntryFor(accepted, w.timeBacktrack, w.lastReap, x);
    if GivenUp(accepted, w.timeBacktrack, w.lastReap, x) {
      GivenUpForGood(accepted, w.timeBacktrack, w.lastReap, now, x);
    } else {
      assert Behind(w, x, accepted[x]);
      assert Outlives(accepted[x], x, w.timeBacktrack, now, x);
    }
    GivenUpIsDownward(accepted, w.timeBacktrack, now, x, PacketId(w.id - k, w.time));
  }

  lemma GivenUpIsOld(w: Window, accepted: map<PacketId, Stamp>, now: nat, k: nat)
    requires Remembers(w, accepted) && w.lastReap < now && k < |w.seen|
    requires GivenUp(accepted, w.timeBacktrack, now, PacketId(w.id - k, w.time))
    ensures OldUpTo(w.seen, k, w.timeBacktrack, now) || w.seen[k] == SEQ_EXPIRED
  {
    var x := PacketId(w.id - k, w.time);
    var y :| y in accepted && Outlives(accepted[y], y, w.timeBacktrack, now, x);
    assert Behind(w, y, accepted[y]);
    var j := w.id - y.id;
    assert y == PacketId(w.id - j, w.time);
    assert w.seen[j] == EntryFor(accepted, w.timeBacktrack, w.lastReap, y);
    if GivenUp(accepted, w.timeBacktrack, w.lastReap, y) {
      GivenUpIsDownward(accepted, w.timeBacktrack, w.lastReap, y, x);
    }
  }

  lemma ReapedEntry(w: Window, accepted: map<PacketId, Stamp>, now: nat, k: nat)
    requires Remembers(w, accepted) && w.lastReap < now && k < |w.seen|
    ensures Reap(w, now).seen[k] == EntryFor(accepted, w.timeBacktrack, now, PacketId(w.id - k, w.time))
  {
    var x := PacketId(w.id - k, w.time);
    EntriesEndExpired(w, accepted);
    ReapExpiresExactly(w, now, k);
    assert w.seen[k] == EntryFor(accepted, w.timeBacktrack, w.lastReap, x);
    if GivenUp(accepted, w.timeBacktrack, now, x) {
      GivenUpIsOld(w, accepted, now, k);
    } else {
      if GivenUp(accepted, w.timeBacktrack, w.lastReap, x) {
        GivenUpForGood(accepted, w.timeBacktrack, w.lastReap, now, x);
      }
      if w.timeBacktrack > 0 && OldUpTo(w.seen, k, w.timeBacktrack, now) {
        OldIsGivenUp(w, accepted, now, k);
      }
    }
  }

  lemma ReapTestRemembers(w: Window, accepted: map<PacketId, Stamp>, now: nat)
    requires Remembers(w, accepted)
    ensures Remembers(ReapTest(w, now), accepted)
    ensures ReapTest(w, now).lastReap == ReapedBy(w.lastReap, now)
  {
    if w.lastReap + SEQ_REAP_INTERVAL <= now {
      var r := Reap(w, now);
      ReapKeepsValid(w, now);
      forall k | 0 <= k < |r.seen|
        ensures r.seen[k] == EntryFor(accepted, r.timeBacktrack, r.lastReap, PacketId(r.id - k, r.time))
      {
        ReapedEntry(w, accepted, now, k);
      }
      forall y | y in accepted
        ensures Behind(r, y, accepted[y])
      {
        assert Behind(w, y, accepted[y]);
      }
    }
  }

  /** A number of the same time above the top, or of a later time, is neither accepted nor given up. */
  lemma AheadIsUnseen(w: Window, accepted: map<PacketId, Stamp>, x: PacketId)
    requires Remembers(w, accepted) && (x.time > w.time || (x.time == w.time && x.id > w.id))
    ensures EntryFor(accepted, w.timeBacktrack, w.lastReap, x) == SEQ_UNSEEN
  {
    assert forall y :: y in accepted ==> Behind(w, y, accepted[y]);
  }

  /** The window moved up for a packet that passed the test, before that is recorded. */
  lemma AdvancedShape(w: Window, pin: PacketId)
    requires w.Valid() && w.backtrack > 0 && |w.seen| == Min(w.id, w.backtrack) && Test(w, pin)
    ensures var a := Advanced(Restarted(w, pin), pin);
            && a.time == pin.time && a.id == (if pin.time == w.time then Max(w.id, pin.id) else pin.id)
            && |a.seen| == Min(a.id, a.backtrack) && a.id - pin.id < |a.seen|
            && a == w.(id := a.id, time := a.time, seen := a.seen)
  {
  }

  lemma AdvancedEntries(w: Window, accepted: map<PacketId, Stamp>, pin: PacketId)
    requires Remembers(w, accepted) && Test(w, pin)
    ensures var a := Advanced(Restarted(w, pin), pin);
            |a.seen| <= a.id && Entries(a.id, a.time, a.seen, accepted, w.timeBacktrack, w.lastReap)
  {
    var a := Advanced(Restarted(w, pin), pin);
    var id, time, seen := a.id, a.time, a.seen;
    AdvancedShape(w, pin);
    forall k | 0 <= k < |seen|
      ensures seen[k] == EntryFor(accepted, w.timeBacktrack, w.lastReap, PacketId(id - k, time))
    {
      AdvancedEntry(w, accepted, pin, k);
    }
  }

  lemma AdvancedEntry(w: Window, accepted: map<PacketId, Stamp>, pin: PacketId, k: nat)
    requires Remembers(w, accepted) && Test(w, pin) && k < |Advanced(Restarted(w, pin), pin).seen|
    ensures var a := Advanced(Restarted(w, pin), pin);
            && k <= a.id
            && a.seen[k] == EntryFor(accepted, w.timeBacktrack, w.lastReap, PacketId(a.id - k, a.time))
  {
    var a := Advanced(Restarted(w, pin), pin);
    var x := PacketId(a.id - k, a.time);
    if Restarts(w, pin) {
      assert a.seen[k] == SEQ_UNSEEN;
      AheadIsUnseen(w, accepted, x);
    } else if k < a.id - w.id {
      assert a.seen[k] == SEQ_UNSEEN;
      AheadIsUnseen(w, accepted, x);
    } else {
      var j := k - (a.id - w.id);
      assert a.seen[k] == w.seen[j] && x == PacketId(w.id - j, w.time);
    }
  }

  lemma AddRemembers(w: Window, accepted: map<PacketId, Stamp>, pin: PacketId, now: nat)
    requires Remembers(w, accepted) && Test(w, pin) && now > SEQ_EXPIRED
    ensures Remembers(Add(w, pin, now), accepted[pin := Stamp(now, w.lastReap)])
  {
    AddKeepsValid(w, pin, now);
    AdvancedShape(w, pin);
    AdvancedEntries(w, accepted, pin);
    UnacceptedYet(w, accepted, pin);
    var a := Advanced(Restarted(w, pin), pin);
    RecordedEntries(a.id, a.time, a.seen, accepted, pin, now, w.timeBacktrack, w.lastReap);
    MoreAreBehind(w, accepted, pin, now, Add(w, pin, now));
  }

  lemma RecordedEntries(id: nat, time: nat, seen: seq<nat>, accepted: map<PacketId, Stamp>, pin: PacketId, now: nat,
                        limit: nat, lastReap: nat)
    requires |seen| <= id && pin.time == time && pin.id <= id && id - pin.id < |seen|
    requires Entries(id, time, seen, accepted, limit, lastReap)
    requires pin !in accepted && !GivenUp(accepted, limit, lastReap, pin)
    ensures Entries(id, time, seen[id - pin.id := now], accepted[pin := Stamp(now, lastReap)], limit, lastReap)
  {
    var after, more := seen[id - pin.id := now], accepted[pin := Stamp(now, lastReap)];
    forall k | 0 <= k < |after|
      ensures after[k] == EntryFor(more, limit, lastReap, PacketId(id - k, time))
    {
      assert seen[k] == EntryFor(accepted, limit, lastReap, PacketId(id - k, time));
      EntryWithOneMore(accepted, pin, Stamp(now, lastReap), limit, lastReap, PacketId(id - k, time));
    }
  }

  lemma MoreAreBehind(w: Window, accepted: map<PacketId, Stamp>, pin: PacketId, now: nat, r: Window)
    requires Remembers(w, accepted) && Test(w, pin) && now > SEQ_EXPIRED && r.lastReap == w.lastReap
    requires r.time == pin.time && r.id == if pin.time == w.time then Max(w.id, pin.id) else pin.id
    ensures var more := accepted[pin := Stamp(now, w.lastReap)];
            PacketId(r.id, r.time) in more && forall y :: y in more ==> Behind(r, y, more[y])
  {
    var more := accepted[pin := Stamp(now, w.lastReap)];
    forall y | y in more
      ensures Behind(r, y, more[y])
    {
      assert y in accepted ==> Behind(w, y, accepted[y]);
    }
  }

  /** A packet that passes the test was neither accepted nor given up. */
  lemma UnacceptedYet(w: Window, accepted: map<PacketId, Stamp>, pin: PacketId)
    requires Remembers(w, accepted) && Test(w, pin)
    ensures EntryFor(accepted, w.timeBacktrack, w.lastReap, pin) == SEQ_UNSEEN
    ensures pin !in accepted && !GivenUp(accepted, w.timeBacktrack, w.lastReap, pin)
  {
    if pin.time == w.time && pin.id <= w.id {
      assert pin == PacketId(w.id - (w.id - pin.id), w.time);
    } else {
      AheadIsUnseen(w, accepted, pin);
    }
    assert pin in accepted ==> Behind(w, pin, accepted[pin]);
  }

  lemma EntryWithOneMore(accepted: map<PacketId, Stamp>, pin: PacketId, stamp: Stamp, limit: nat, lastReap: nat, x: PacketId)
    requires stamp.reaped == lastReap && pin !in accepted && !GivenUp(accepted, limit, lastReap, pin)
    ensures EntryFor(accepted[pin := stamp], limit, lastReap, x)
         == if x == pin then stamp.now else EntryFor(accepted, limit, lastReap, x)
  {
    var more := accepted[pin := stamp];
    if GivenUp(accepted, limit, lastReap, x) {
      var y :| y in accepted && Outlives(accepted[y], y, limit, lastReap, x);
      assert y in more && Outlives(more[y], y, limit, lastReap, x);
    }
    if GivenUp(more, limit, lastReap, x) {
      var y :| y in more && Outlives(more[y], y, limit, lastReap, x);
      assert y in accepted && Outlives(accepted[y], y, limit, lastReap, x);
    }
  }

  /** Over every run the bounded window stands for the unbounded memory. */
  lemma {:induction false} RunRemembers(backtrack: nat, timeBacktrack: nat, arrivals: seq<Arrival>)
    requires 0 < backtrack <= MAX_SEQ_BACKTRACK && timeBacktrack <= MAX_TIME_BACKTRACK
    requires forall i :: 0 <= i < |arrivals| ==> arrivals[i].now > SEQ_EXPIRED
    ensures var e := Empty(backtrack, timeBacktrack); var w := Run(e, arrivals).0;
            && Remembers(w, Accepted(e, arrivals)) && w.lastReap == LastReap(arrivals)
            && w.backtrack == backtrack && w.timeBacktrack == timeBacktrack
    decreases |arrivals|
  {
    if arrivals != [] {
      var e := Empty(backtrack, timeBacktrack);
      var init, last := arrivals[..|arrivals| - 1], arrivals[|arrivals| - 1];
      RunRemembers(backtrack, timeBacktrack, init);
      var w, accepted := Run(e, init).0, Accepted(e, init);
      ReapTestRemembers(w, accepted, last.now);
      var r := ReapTest(w, last.now);
      if Test(r, last.pin) {
        AddRemembers(r, accepted, last.pin, last.now);
      }
    }
  }

  /** The next packet, by what was accepted before: neither its time nor its number goes back too far, it was
      not accepted, and it has not been given up. */
  ghost predicate Fresh(accepted: map<PacketId, Stamp>, backtrack: nat, limit: nat, lastReap: nat, pin: PacketId) {
    && pin.id != 0 && pin !in accepted && !GivenUp(accepted, limit, lastReap, pin)
    && forall y :: y in accepted ==> y.time <= pin.time && (y.time == pin.time ==> y.id < pin.id + backtrack)
  }

  /** The test of a window is the question whether the packet is fresh for the memory it stands for. */
  lemma TestIsFresh(w: Window, accepted: map<PacketId, Stamp>, pin: PacketId)
    requires Remembers(w, accepted)
    ensures Test(w, pin) <==> Fresh(accepted, w.backtrack, w.timeBacktrack, w.lastReap, pin)
  {
    assert forall y :: y in accepted ==> Behind(w, y, accepted[y]);
    if Test(w, pin) {
      UnacceptedYet(w, accepted, pin);
    } else if pin.id != 0 {
      assert PacketId(w.id, w.time) in accepted;
      if pin.time == w.time && w.id - pin.id < |w.seen| {
        assert pin == PacketId(w.id - (w.id - pin.id), w.time);
        assert w.seen[w.id - pin.id] == EntryFor(accepted, w.timeBacktrack, w.lastReap, pin);
      }
    }
  }

  /** After every run the next packet is accepted exactly when it is fresh: with or without time stamps, with or
      without a time limit, whatever the clock did. */
  lemma AcceptsExactlyTheFresh(backtrack: nat, timeBacktrack: nat, arrivals: seq<Arrival>, next: Arrival)
    requires 0 < backtrack <= MAX_SEQ_BACKTRACK && timeBacktrack <= MAX_TIME_BACKTRACK
    requires forall i :: 0 <= i < |arrivals| ==> arrivals[i].now > SEQ_EXPIRED
    ensures var e := Empty(backtrack, timeBacktrack);
            Check(Run(e, arrivals).0, next.pin, next.now).1 <==>
            Fresh(Accepted(e, arrivals), backtrack, timeBacktrack, LastReap(arrivals + [next]), next.pin)
  {
    var e := Empty(backtrack, timeBacktrack);
    var w, accepted := Run(e, arrivals).0, Accepted(e, arrivals);
    RunRemembers(backtrack, timeBacktrack, arrivals);
    ReapTestRemembers(w, accepted, next.now);
    TestIsFresh(ReapTest(w, next.now), accepted, next.pin);
    assert (arrivals + [next])[..|arrivals|] == arrivals;
  }

  /** The packets remembered are those that the run accepted. */
  lemma {:induction false} AcceptedAreRemembered(w: Window, arrivals: seq<Arrival>, x: PacketId)
    requires |w.seen| <= w.backtrack
    ensures x in Accepted(w, arrivals) <==> x in Run(w, arrivals).1
    decreases |arrivals|
  {
    if arrivals != [] {
      AcceptedAreRemembered(w, arrivals[..|arrivals| - 1], x);
    }
  }

  /** Without a time limit, in terms of the packets accepted alone. */
  lemma WithoutTimeLimit(backtrack: nat, arrivals: seq<Arrival>, next: Arrival)
    requires 0 < backtrack <= MAX_SEQ_BACKTRACK
    requires forall i :: 0 <= i < |arrivals| ==> arrivals[i].now > SEQ_EXPIRED
    ensures var (w, accepted) := Run(Empty(backtrack, 0), arrivals);
            Check(w, next.pin, next.now).1 <==>
            && next.pin.id != 0
            && forall i :: 0 <= i < |accepted| ==> Ahead(accepted[i], next.pin, backtrack)
  {
    var e := Empty(backtrack, 0);
    AcceptsExactlyTheFresh(backtrack, 0, arrivals, next);
    forall x: PacketId
      ensures x in Accepted(e, arrivals) <==> x in Run(e, arrivals).1
    {
      AcceptedAreRemembered(e, arrivals, x);
    }
    FreshInList(Accepted(e, arrivals), Run(e, arrivals).1, backtrack, LastReap(arrivals + [next]), next.pin);
  }

  /** `pin` is another packet than `y`, not of an earlier time, and less than `backtrack` behind it. */
  predicate Ahead(y: PacketId, pin: PacketId, backtrack: nat) {
    y != pin && y.time <= pin.time && (y.time == pin.time ==> y.id < pin.id + backtrack)
  }

  lemma FreshInList(accepted: map<PacketId, Stamp>, pins: seq<PacketId>, backtrack: nat, lastReap: nat, pin: PacketId)
    requires forall x: PacketId :: x in accepted <==> x in pins
    ensures Fresh(accepted, backtrack, 0, lastReap, pin) <==>
            pin.id != 0 && forall i :: 0 <= i < |pins| ==> Ahead(pins[i], pin, backtrack)
  {
    if Fresh(accepted, backtrack, 0, lastReap, pin) {
      forall i | 0 <= i < |pins|
        ensures Ahead(pins[i], pin, backtrack)
      {
        assert pins[i] in accepted;
      }
    }
  }

  /** The last packet accepted from a stream that must arrive in order. */
  ghost predicate InOrderAt(w: Window, accepted: seq<PacketId>) {
    && w.backtrack == 0 && w.timeBacktrack == 0 && w.seen == []
    && if accepted == [] then w.id == 0 && w.time == 0
       else w.id != 0 && accepted[|accepted| - 1] == PacketId(w.id, w.time)
  }

  lemma {:induction false} RunInOrder(arrivals: seq<Arrival>)
    ensures InOrderAt(Run(Empty(0, 0), arrivals).0, Run(Empty(0, 0), arrivals).1)
    decreases |arrivals|
  {
    if arrivals != [] {
      RunInOrder(arrivals[..|arrivals| - 1]);
    }
  }

  /** Without a list the next packet is accepted exactly when it follows the last one, starts a later time at 1,
      or is the first of all. */
  lemma AcceptsExactlyTheNext(arrivals: seq<Arrival>, next: Arrival)
    ensures var (w, accepted) := Run(Empty(0, 0), arrivals);
            Check(w, next.pin, next.now).1 <==>
            if accepted == [] then next.pin.id != 0 && (next.pin.time == 0 || next.pin.id == 1)
            else
              var last := accepted[|accepted| - 1];
              || (next.pin.time == last.time && next.pin.id == last.id + 1)
              || (next.pin.time > last.time && next.pin.id == 1)
  {
    RunInOrder(arrivals);
  }

  /** The items of a circular list in order, newest first. */
  function Unrolled(list: seq<nat>, head: int, size: int): (items: seq<nat>)
    requires 0 <= size <= |list| && (|list| > 0 ==> 0 <= head < |list|)
    ensures |items| == size
    ensures forall k :: 0 <= k < size ==> items[k] == list[Modulo.Add(head, k, |list|)]
  {
    seq(size, k requires 0 <= k < size => list[Modulo.Add(head, k, |list|)])
  }

  /** `struct packet_id_rec` with its circular list. */
  class PacketIdRec {
    var id: nat
    var time: nat
    const backtrack: nat
    const timeBacktrack: nat
    var lastReap: nat
    const list: array<nat>
    var head: int
    var size: int

    ghost predicate Valid()
      reads this, list
    {
      && list.Length == backtrack
      && 0 <= size <= backtrack
      && (backtrack > 0 ==> 0 <= head < backtrack)
    }

    /** The list item at `index`, counted from the newest. */
    function Item(index: int): nat
      requires Valid() && 0 <= index < size
      reads this, list
    {
      list[Modulo.Add(head, index, backtrack)]
    }

    ghost function View(): (w: Window)
      requires Valid()
      reads this, list
      ensures |w.seen| == size <= w.backtrack
    {
      Window(id, time, backtrack, timeBacktrack, lastReap,
             Unrolled(list[..], head, size))
    }

    /** `packet_id_init_recv`. */
    constructor (backtrack: nat, timeBacktrack: nat)
      requires backtrack <= MAX_SEQ_BACKTRACK && timeBacktrack <= MAX_TIME_BACKTRACK
      ensures Valid() && fresh(list)
      ensures View() == Empty(backtrack, timeBacktrack) && View().Valid()
    {
      id, time, lastReap, head, size := 0, 0, 0, 0, 0;
      this.backtrack := backtrack;
      this.timeBacktrack := if backtrack == 0 then 0 else timeBacktrack;
      list := new nat[backtrack](_ => 0);
    }

    /** `CIRC_LIST_PUSH` of an unseen entry, and the step of `id` that goes with it. */
    method PushUnseenItem()
      requires Valid() && backtrack > 0
      modifies `id, `head, `size, list
      ensures Valid() && id == old(id) + 1
      ensures View() == Grown(old(View()), id)
    {
      ghost var before := View().seen;
      head := Modulo.Add(head, -1, backtrack);
      list[head] := SEQ_UNSEEN;
      size := Min(size + 1, backtrack);
      forall k | 0 <= k < size
        ensures Item(k) == PushUnseen(before, 1, backtrack)[k]
      {
        if k > 0 {
          assert Modulo.Add(head, k, backtrack) == Modulo.Add(old(head), k - 1, backtrack);
        }
      }
      id := id + 1;
      assert View().seen == PushUnseen(before, 1, backtrack);
    }

    /** Assignment to `CIRC_LIST_ITEM`. */
    method SetItem(index: nat, value: nat)
      requires Valid() && index < size
      modifies list
      ensures Valid()
      ensures View() == old(View()).(seen := old(View()).seen[index := value])
    {
      ghost var before := View().seen;
      list[Modulo.Add(head, index, backtrack)] := value;
      forall k | 0 <= k < size
        ensures Item(k) == before[index := value][k]
      {
        if k != index {
          assert Modulo.Add(head, k, backtrack) != Modulo.Add(head, index, backtrack);
          assert Item(k) == old(Item(k));
        }
      }
      assert View().seen == before[index := value];
    }

    /** `packet_id_test`. */
    method TestId(pin: PacketId) returns (ok: bool)
      requires Valid()
      ensures ok == Test(View(), pin)
    {
      if pin.id == 0 {
        return false;
      }
      if backtrack > 0 {
        if pin.time == time {
          if pin.id > id {
            return true;
          }
          var diff := id - pin.id;
          if diff >= size {
            return false;
          }
          assert View().seen[diff] == Item(diff);
          return Item(diff) == SEQ_UNSEEN;
        } else if pin.time < time {
          return false;
        } else {
          return true;
        }
      } else {
        if pin.time == time {
          return id == 0 || pin.id == id + 1;
        } else if pin.time < time {
          return false;
        } else {
          return pin.id == 1;
        }
      }
    }

    /** The loop of `packet_id_add` that makes room for the ids up to `pin`. */
    method AdvanceTo(pin: PacketId)
      requires Valid() && backtrack > 0
      modifies `id, `head, `size, list
      ensures Valid()
      ensures View() == Advanced(old(View()), pin)
    {
      ghost var start := View();
      GrownTwice(start, id);
      while id < pin.id
        invariant Valid() && start.id <= id <= Max(start.id, pin.id)
        invariant View() == Grown(start, id)
      {
        GrownTwice(start, id);
        PushUnseenItem();
      }
    }

    /** `packet_id_add`. */
    method AddId(pin: PacketId, now: nat)
      requires Valid()
      modifies this, list
      ensures Valid()
      ensures View() == Add(old(View()), pin, now)
    {
      if backtrack > 0 {
        ghost var before := View();
        if size == 0 || pin.time > time || (pin.id >= backtrack && pin.id - backtrack > id) {
          time := pin.time;
          id := 0;
          if pin.id > backtrack {
            id := pin.id - backtrack;
          }
          head, size := 0, 0;
        }
        assert View() == Restarted(before, pin);
        AdvanceTo(pin);
        var diff := id - pin.id;
        if diff < size && now > SEQ_EXPIRED {
          SetItem(diff, now);
        }
      } else {
        time := pin.time;
        id := pin.id;
        assert View().seen == old(View()).seen;
      }
    }

    /** One turn of the loop of `packet_id_reap`. */
    method ExpireItem(i: nat, expiring: bool, now: nat) returns (stop: bool, expire: bool)
      requires Valid() && i < size
      modifies list
      ensures Valid()
      ensures var t := old(View()).seen[i];
              && stop == (t == SEQ_EXPIRED)
              && (!stop ==> expire == (expiring || TooOld(t, timeBacktrack, now)))
              && View() == if !stop && expire then old(View()).(seen := old(View()).seen[i := SEQ_EXPIRED])
                           else old(View())
    {
      expire := expiring;
      var t := Item(i);
      if t == SEQ_EXPIRED {
        return true, expire;
      }
      if !expire && TooOld(t, timeBacktrack, now) {
        expire := true;
      }
      if expire {
        SetItem(i, SEQ_EXPIRED);
      }
      stop := false;
    }

    /** The loop of `packet_id_reap`. */
    method ExpireOld(now: nat)
      requires Valid()
      modifies list
      ensures Valid()
      ensures View() == old(View()).(seen := Expired(old(View()).seen, timeBacktrack, now))
    {
      ghost var start := View();
      var expire := false;
      var i := 0;
      while i < size
        invariant 0 <= i <= size && Valid()
        invariant View() == start.(seen := View().seen)
        invariant ReapFrom(View().seen, i, expire, timeBacktrack, now)
               == ReapFrom(start.seen, 0, false, timeBacktrack, now)
      {
        var stop;
        stop, expire := ExpireItem(i, expire, now);
        if stop {
          break;
        }
        i := i + 1;
      }
      ReapFromIsExpired(start.seen, timeBacktrack, now);
    }

    /** `packet_id_reap`. */
    method ReapIds(now: nat)
      requires Valid()
      modifies this, list
      ensures Valid()
      ensures View() == Reap(old(View()), now)
      ensures ExpiredAtTheEnd(old(View()).seen) ==> EntriesReaped(old(View()), now, View().seen)
    {
      ghost var before := View();
      if ExpiredAtTheEnd(before.seen) {
        ReapsEveryEntry(before, now);
      }
      if timeBacktrack != 0 {
        ExpireOld(now);
      }
      lastReap := now;
      assert View().seen == Reap(old(View()), now).seen;
    }
  }

  /** The reaping loop from entry `i` on. */
  ghost function ReapFrom(seen: seq<nat>, i: nat, expiring: bool, limit: nat, now: nat): (r: seq<nat>)
    decreases |seen| - i
  {
    if i >= |seen| || seen[i] == SEQ_EXPIRED then seen
    else
      var expire := expiring || (TooOld(seen[i], limit, now));
      ReapFrom(if expire then seen[i := SEQ_EXPIRED] else seen, i + 1, expire, limit, now)
  }

  lemma {:induction false} ReapFromExpiring(seen: seq<nat>, i: nat, limit: nat, now: nat)
    requires i <= |seen|
    ensures ReapFrom(seen, i, true, limit, now) == seen[..i] + ExpireRun(seen[i..])
    decreases |seen| - i
  {
    if i < |seen| && seen[i] != SEQ_EXPIRED {
      var next := seen[i := SEQ_EXPIRED];
      var rest := ExpireRun(seen[i + 1..]);
      calc {
        ReapFrom(seen, i, true, limit, now);
        ReapFrom(next, i + 1, true, limit, now);
        { ReapFromExpiring(next, i + 1, limit, now); assert next[i + 1..] == seen[i + 1..]; }
        next[..i + 1] + rest;
        { assert next[..i + 1] == seen[..i] + [SEQ_EXPIRED]; }
        seen[..i] + ([SEQ_EXPIRED] + rest);
        { assert seen[i..][1..] == seen[i + 1..]; }
        seen[..i] + ExpireRun(seen[i..]);
      }
    } else {
      assert seen == seen[..i] + seen[i..];
    }
  }

  lemma {:induction false} ReapFromSearching(seen: seq<nat>, i: nat, limit: nat, now: nat)
    requires i <= |seen|
    ensures ReapFrom(seen, i, false, limit, now) == seen[..i] + Expired(seen[i..], limit, now)
    decreases |seen| - i
  {
    var tail := seen[i..];
    if i < |seen| && seen[i] != SEQ_EXPIRED {
      if TooOld(seen[i], limit, now) {
        ReapFromExpiring(seen, i, limit, now);
        assert ReapFrom(seen, i, false, limit, now) == ReapFrom(seen, i, true, limit, now);
      } else {
        var rest := Expired(tail[1..], limit, now);
        calc {
          ReapFrom(seen, i, false, limit, now);
          ReapFrom(seen, i + 1, false, limit, now);
          { ReapFromSearching(seen, i + 1, limit, now); assert seen[i + 1..] == tail[1..]; }
          seen[..i + 1] + rest;
          { assert seen[..i + 1] == seen[..i] + [tail[0]]; }
          seen[..i] + ([tail[0]] + rest);
        }
      }
    } else {
      assert seen == seen[..i] + tail;
    }
  }

  lemma ReapFromIsExpired(seen: seq<nat>, limit: nat, now: nat)
    ensures ReapFrom(seen, 0, false, limit, now) == Expired(seen, limit, now)
  {
    ReapFromSearching(seen, 0, limit, now);
    assert seen[0..] == seen;
  }
}

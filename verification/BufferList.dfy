/** The queue of buffers (buffer.c): push, pop, advance and aggregate on a linked list. */
module BufferList {
  import opened Bytes

  // ---- What the queue holds ----------------------------------------------------------------------

  /** All bytes of the queue in order. */
  function Stream(c: seq<Bytes>): Bytes {
    if c == [] then [] else c[0] + Stream(c[1..])
  }

  /** Buffers with the separator after each. */
  function Joined(c: seq<Bytes>, sep: Bytes): Bytes {
    if c == [] then [] else c[0] + sep + Joined(c[1..], sep)
  }

  /** How many buffers the aggregation loop takes with the given room. */
  function Fitting(c: seq<Bytes>, sep: Bytes, room: int): (n: nat)
    ensures n <= |c|
  {
    if c == [] || |c[0]| + |sep| > room then 0 else 1 + Fitting(c[1..], sep, room - |c[0]| - |sep|)
  }

  /** `buffer_list_aggregate_separator` on the contents. */
  function Aggregated(c: seq<Bytes>, maxLen: nat, sep: Bytes): seq<Bytes> {
    var n := Fitting(c, sep, maxLen);
    if n >= 2 then [Joined(c[..n], sep)] + c[n..] else c
  }

  lemma Associate<T>(a: seq<T>, b: seq<T>, c: seq<T>)
    ensures a + b + c == a + (b + c)
  {
  }

  lemma TailConcat<T>(a: seq<T>, b: seq<T>)
    requires a != []
    ensures (a + b)[0] == a[0] && (a + b)[1..] == a[1..] + b
  {
  }

  lemma {:induction false} JoinedConcat(a: seq<Bytes>, b: seq<Bytes>, sep: Bytes)
    ensures Joined(a + b, sep) == Joined(a, sep) + Joined(b, sep)
  {
    if a == [] {
      assert a + b == b;
    } else {
      JoinedConcat(a[1..], b, sep);
      TailConcat(a, b);
      Associate(a[0] + sep, Joined(a[1..], sep), Joined(b, sep));
    }
  }

  lemma {:induction false} StreamConcat(a: seq<Bytes>, b: seq<Bytes>)
    ensures Stream(a + b) == Stream(a) + Stream(b)
  {
    if a == [] {
      assert a + b == b;
    } else {
      StreamConcat(a[1..], b);
      TailConcat(a, b);
      Associate(a[0], Stream(a[1..]), Stream(b));
    }
  }

  lemma StreamOne(b: Bytes)
    ensures Stream([b]) == b
  {
    assert [b][1..] == [];
  }

  lemma {:induction false} JoinedWithNothing(c: seq<Bytes>)
    ensures Joined(c, []) == Stream(c)
  {
    if c != [] {
      JoinedWithNothing(c[1..]);
    }
  }

  lemma JoinedStep(c: seq<Bytes>, k: nat, sep: Bytes)
    requires 0 < k <= |c|
    ensures Joined(c[..k], sep) == c[0] + sep + Joined(c[1..][..k - 1], sep)
  {
    assert c[..k][1..] == c[1..][..k - 1];
  }

  /** The prefixes that fit are exactly those up to the count the loop stops at. */
  lemma {:induction false} FittingIsLongest(c: seq<Bytes>, sep: Bytes, room: int, k: nat)
    requires k <= |c| && room >= 0
    ensures |Joined(c[..k], sep)| <= room <==> k <= Fitting(c, sep, room)
    decreases |c|
  {
    if k > 0 {
      JoinedStep(c, k, sep);
      if |c[0]| + |sep| <= room {
        FittingIsLongest(c[1..], sep, room - |c[0]| - |sep|, k - 1);
      }
    }
  }

  /** Without a separator the byte stream does not change. */
  lemma AggregationKeepsStream(c: seq<Bytes>, maxLen: nat)
    ensures Stream(Aggregated(c, maxLen, [])) == Stream(c)
  {
    var n := Fitting(c, [], maxLen);
    if n >= 2 {
      JoinedWithNothing(c[..n]);
      StreamConcat([Joined(c[..n], [])], c[n..]);
      StreamOne(Joined(c[..n], []));
      StreamConcat(c[..n], c[n..]);
      assert c == c[..n] + c[n..];
    }
  }

  // ---- Runs ----------------------------------------------------------------------------------------

  datatype Operation = Push(data: Bytes) | Pop | Advance(n: int) | Aggregate(maxLen: nat)

  /** The contents, and what has left the queue so far. */
  datatype Queue = Queue(contents: seq<Bytes>, taken: Bytes)

  function Popped(c: seq<Bytes>): seq<Bytes> {
    if c == [] then [] else c[1..]
  }

  /** `buffer_list_advance` fails when there is less to drop than asked. */
  predicate CanAdvance(c: seq<Bytes>, n: int) {
    c == [] || 0 <= n <= |c[0]|
  }

  function Advanced(c: seq<Bytes>, n: int): seq<Bytes>
    requires CanAdvance(c, n)
  {
    if c == [] then [] else if n == |c[0]| then c[1..] else [c[0][n..]] + c[1..]
  }

  function Performed(q: Queue, op: Operation): Option<Queue> {
    match op
    case Push(data) => Some(Queue(q.contents + [data], q.taken))
    case Pop => Some(Queue(Popped(q.contents), q.taken + if q.contents == [] then [] else q.contents[0]))
    case Advance(n) =>
      if !CanAdvance(q.contents, n) then None
      else Some(Queue(Advanced(q.contents, n), q.taken + if q.contents == [] then [] else q.contents[0][..n]))
    case Aggregate(maxLen) => Some(Queue(Aggregated(q.contents, maxLen, []), q.taken))
  }

  function Run(q: Queue, ops: seq<Operation>): Option<Queue>
    decreases |ops|
  {
    if ops == [] then Some(q)
    else
      match Performed(q, ops[0])
      case None => None
      case Some(next) => Run(next, ops[1..])
  }

  function Pushed(ops: seq<Operation>): Bytes {
    if ops == [] then [] else (if ops[0].Push? then ops[0].data else []) + Pushed(ops[1..])
  }

  /** What has been taken, then what is still queued. */
  function Total(q: Queue): Bytes {
    q.taken + Stream(q.contents)
  }

  lemma AdvanceConserves(c: seq<Bytes>, n: int)
    requires c != [] && CanAdvance(c, n)
    ensures c[0][..n] + Stream(Advanced(c, n)) == Stream(c)
  {
    assert c[0] == c[0][..n] + c[0][n..];
    if n != |c[0]| {
      assert ([c[0][n..]] + c[1..])[1..] == c[1..];
      assert c[0][..n] + (c[0][n..] + Stream(c[1..])) == c[0] + Stream(c[1..]);
    }
  }

  lemma StepConserves(q: Queue, op: Operation)
    requires Performed(q, op).Some?
    ensures Total(Performed(q, op).value) == Total(q) + if op.Push? then op.data else []
  {
    match op
    case Push(data) =>
      StreamConcat(q.contents, [data]);
      StreamOne(data);
    case Pop =>
    case Advance(n) =>
      if q.contents != [] {
        AdvanceConserves(q.contents, n);
        assert q.taken + q.contents[0][..n] + Stream(Advanced(q.contents, n)) == q.taken + Stream(q.contents);
      }
    case Aggregate(maxLen) =>
      AggregationKeepsStream(q.contents, maxLen);
  }

  /** Over any run what was pushed comes out first in, first out: the bytes taken, followed by the bytes still
      queued, are what was there before followed by the bytes pushed. */
  lemma {:induction false} RunConserves(q: Queue, ops: seq<Operation>)
    requires Run(q, ops).Some?
    ensures Total(Run(q, ops).value) == Total(q) + Pushed(ops)
    decreases |ops|
  {
    if ops == [] {
      assert Total(q) + [] == Total(q);
    } else {
      var next := Performed(q, ops[0]).value;
      StepConserves(q, ops[0]);
      RunConserves(next, ops[1..]);
      Associate(Total(q), if ops[0].Push? then ops[0].data else [], Pushed(ops[1..]));
    }
  }

  // ---- The list in memory --------------------------------------------------------------------------------

  type Address = nat

  datatype Entry = Entry(buf: Bytes, next: Option<Address>)

  type Memory = map<Address, Entry>

  /** A node as the list sees it. */
  datatype Node = Node(address: Address, buf: Bytes)

  function FirstOf(s: seq<Node>, end: Option<Address>): Option<Address> {
    if s == [] then end else Some(s[0].address)
  }

  function LastOf(s: seq<Node>): Option<Address> {
    if s == [] then None else Some(s[|s| - 1].address)
  }

  ghost predicate Chain(mem: Memory, s: seq<Node>, end: Option<Address>) {
    forall i :: 0 <= i < |s| ==>
      s[i].address in mem && mem[s[i].address] == Entry(s[i].buf, NextOf(s, i, end))
  }

  function NextOf(s: seq<Node>, i: nat, end: Option<Address>): Option<Address>
    requires i < |s|
  {
    if i + 1 < |s| then Some(s[i + 1].address) else end
  }

  ghost predicate Distinct(s: seq<Node>) {
    forall i, j :: 0 <= i < j < |s| ==> s[i].address != s[j].address
  }

  ghost predicate Absent(a: Address, s: seq<Node>) {
    forall i :: 0 <= i < |s| ==> s[i].address != a
  }

  function Contents(s: seq<Node>): (c: seq<Bytes>)
    ensures |c| == |s|
  {
    if s == [] then [] else [s[0].buf] + Contents(s[1..])
  }

  lemma {:induction false} ContentsConcat(a: seq<Node>, b: seq<Node>)
    ensures Contents(a + b) == Contents(a) + Contents(b)
  {
    if a == [] {
      assert a + b == b;
    } else {
      ContentsConcat(a[1..], b);
      TailConcat(a, b);
      Associate([a[0].buf], Contents(a[1..]), Contents(b));
    }
  }

  lemma {:induction false} ContentsAt(s: seq<Node>)
    ensures forall i :: 0 <= i < |s| ==> Contents(s)[i] == s[i].buf
  {
    if s != [] {
      ContentsAt(s[1..]);
    }
  }

  lemma {:induction false} ContentsSlice(s: seq<Node>, k: nat)
    requires k <= |s|
    ensures Contents(s)[..k] == Contents(s[..k]) && Contents(s)[k..] == Contents(s[k..])
  {
    ContentsAt(s);
    ContentsAt(s[..k]);
    ContentsAt(s[k..]);
  }

  lemma AbsentFromChain(mem: Memory, s: seq<Node>, end: Option<Address>, a: Address)
    requires Chain(mem, s, end) && a !in mem
    ensures Absent(a, s)
  {
  }

  lemma ChainKept(mem: Memory, s: seq<Node>, end: Option<Address>, a: Address, e: Entry)
    requires Chain(mem, s, end) && Absent(a, s)
    ensures Chain(mem[a := e], s, end) && Chain(mem - {a}, s, end)
  {
  }

  lemma ChainRedirected(mem: Memory, s: seq<Node>, end: Option<Address>, v: Option<Address>)
    requires Chain(mem, s, end) && s != [] && Distinct(s)
    ensures var last := s[|s| - 1].address;
            last in mem && Chain(mem[last := mem[last].(next := v)], s, v)
  {
  }

  lemma ChainJoins(mem: Memory, s: seq<Node>, t: seq<Node>, end: Option<Address>)
    requires Chain(mem, s, FirstOf(t, end)) && Chain(mem, t, end)
    ensures Chain(mem, s + t, end)
  {
  }

  lemma ChainTail(mem: Memory, s: seq<Node>)
    requires Chain(mem, s, None) && Distinct(s) && s != []
    ensures Chain(mem, s[1..], None) && Distinct(s[1..]) && Absent(s[0].address, s[1..])
    ensures mem[s[0].address] == Entry(s[0].buf, FirstOf(s[1..], None))
    ensures s[1..] != [] ==> LastOf(s) == LastOf(s[1..])
  {
  }

  class List {
    var mem: Memory
    var head: Option<Address>
    var tail: Option<Address>
    var size: int

    /** Head, tail and size agree with the chain of nodes. */
    ghost predicate Holds(s: seq<Node>)
      reads this
    {
      && Chain(mem, s, None) && Distinct(s)
      && head == FirstOf(s, None) && tail == LastOf(s) && size == |s|
    }

    constructor ()
      ensures Holds([])
    {
      mem, head, tail, size := map[], None, None, 0;
    }

    /** `buffer_list_push_data`, the new node at a free address; no data, nothing happens. */
    method PushData(data: Option<Bytes>, e: Address, ghost s: seq<Node>) returns (ghost after: seq<Node>)
      requires Holds(s) && e !in mem
      modifies this
      ensures Holds(after)
      ensures Contents(after) == Contents(s) + if data.Some? then [data.value] else []
    {
      if data.None? {
        return s;
      }
      AbsentFromChain(mem, s, None, e);
      after := s + [Node(e, data.value)];
      ContentsConcat(s, [Node(e, data.value)]);
      ChainKept(mem, s, None, e, Entry(data.value, None));
      mem := mem[e := Entry(data.value, None)];
      size := size + 1;
      if tail.Some? {
        ChainRedirected(mem, s, None, Some(e));
        mem := mem[tail.value := mem[tail.value].(next := Some(e))];
      } else {
        head := Some(e);
      }
      ChainJoins(mem, s, [Node(e, data.value)], None);
      tail := Some(e);
    }

    /** `buffer_list_peek`. */
    method Peek(ghost s: seq<Node>) returns (buf: Option<Bytes>)
      requires Holds(s)
      ensures buf == if Contents(s) == [] then None else Some(Contents(s)[0])
    {
      if head.Some? {
        buf := Some(mem[head.value].buf);
      } else {
        buf := None;
      }
    }

    /** `buffer_list_pop`. */
    method PopHead(ghost s: seq<Node>) returns (ghost after: seq<Node>)
      requires Holds(s)
      modifies this
      ensures Holds(after) && Contents(after) == Popped(Contents(s))
    {
      after := s;
      if head.Some? {
        after := s[1..];
        ChainTail(mem, s);
        ChainKept(mem, after, None, head.value, mem[head.value]);
        var e := mem[head.value].next;
        mem := mem - {head.value};
        head := e;
        size := size - 1;
        if e.None? {
          tail := None;
        }
      }
    }

    /** `buffer_list_advance`; `ok` is false where its assertion fails. */
    method AdvanceHead(n: int, ghost s: seq<Node>) returns (ok: bool, ghost after: seq<Node>)
      requires Holds(s)
      modifies this
      ensures Holds(after) && ok == CanAdvance(Contents(s), n)
      ensures Contents(after) == if ok then Advanced(Contents(s), n) else Contents(s)
    {
      ok, after := true, s;
      if head.Some? {
        var buf := mem[head.value].buf;
        if !(0 <= n <= |buf|) {
          return false, s;
        }
        after := SetHead(buf[n..], s);
        if |buf[n..]| == 0 {
          after := PopHead(after);
        }
      }
    }

    method SetHead(buf: Bytes, ghost s: seq<Node>) returns (ghost after: seq<Node>)
      requires Holds(s) && s != []
      modifies this`mem
      ensures Holds(after) && Contents(after) == [buf] + Contents(s)[1..]
    {
      after := [Node(s[0].address, buf)] + s[1..];
      ChainTail(mem, s);
      ChainKept(mem, s[1..], None, s[0].address, mem[s[0].address].(buf := buf));
      mem := mem[head.value := mem[head.value].(buf := buf)];
      ChainJoins(mem, [after[0]], s[1..], None);
    }

    /** `buffer_list_aggregate_separator`, the new node at a free address. */
    method AggregateSeparator(maxLen: nat, sep: Bytes, f: Address, ghost s: seq<Node>) returns (ghost after: seq<Node>)
      requires Holds(s) && f !in mem
      modifies this
      ensures Holds(after) && Contents(after) == Aggregated(Contents(s), maxLen, sep)
    {
      var more, total, count := CountFitting(maxLen, sep, s);
      after := s;
      if count >= 2 {
        var buf := CopyAndFree(total + 1, count, sep, s);
        ReplaceFront(f, buf, more, count, s);
        after := [Node(f, buf)] + s[count..];
        ContentsReplaced(s, count, f, buf);
      }
    }

    /** The new node takes the place of the first ones. */
    method ReplaceFront(f: Address, buf: Bytes, more: Option<Address>, count: nat, ghost s: seq<Node>)
      requires 0 < count <= |s| && Distinct(s) && tail == LastOf(s) && size == |s|
      requires Chain(mem, s[count..], None) && more == FirstOf(s[count..], None) && f !in mem
      modifies this
      ensures Holds([Node(f, buf)] + s[count..])
    {
      AbsentFromChain(mem, s[count..], None, f);
      ChainKept(mem, s[count..], None, f, Entry(buf, more));
      mem := mem[f := Entry(buf, more)];
      ChainJoins(mem, [Node(f, buf)], s[count..], None);
      head := Some(f);
      size := size - (count - 1);
      if more.None? {
        tail := Some(f);
      }
    }

    /** Its first loop: how many buffers fit, and how long they are with their separators. */
    method CountFitting(maxLen: nat, sep: Bytes, ghost s: seq<Node>)
      returns (more: Option<Address>, total: nat, count: nat)
      requires Holds(s)
      ensures count == Fitting(Contents(s), sep, maxLen) && count <= |s|
      ensures more == FirstOf(s[count..], None)
      ensures total == |Joined(Contents(s[..count]), sep)|
    {
      more, total, count := head, 0, 0;
      CountStart(s, sep, maxLen);
      while more.Some?
        invariant Counted(s, sep, maxLen, more, total, count)
        decreases |s| - count
      {
        ChainAt(mem, s, count);
        CountStep(s, sep, maxLen, total, count);
        var extra := |mem[more.value].buf| + |sep|;
        if total + extra > maxLen {
          return;
        }
        total := total + extra;
        more := mem[more.value].next;
        count := count + 1;
      }
      CountEnd(s, sep, maxLen, total, count);
    }

    /** Its second loop: the buffers are copied into one of the given capacity and freed. */
    method CopyAndFree(capacity: nat, count: nat, sep: Bytes, ghost s: seq<Node>) returns (buf: Bytes)
      requires Holds(s) && count <= |s| && capacity == |Joined(Contents(s[..count]), sep)| + 1
      modifies this`mem
      ensures buf == Joined(Contents(s[..count]), sep)
      ensures Chain(mem, s[count..], None) && forall a :: a !in old(mem) ==> a !in mem
    {
      buf := [];
      var e := head;
      var i := 0;
      assert s[0..] == s;
      while e.Some? && i < count
        invariant i <= count && e == FirstOf(s[i..], None)
        invariant buf == Joined(Contents(s[..i]), sep)
        invariant Chain(mem, s[i..], None) && Distinct(s[i..])
        invariant forall a :: a !in old(mem) ==> a !in mem
      {
        assert s[i..][1..] == s[i + 1..] && s[i..][0] == s[i];
        ChainTail(mem, s[i..]);
        ChainKept(mem, s[i + 1..], None, e.value, mem[e.value]);
        CopyFits(s, i, count, sep);
        buf := Written(buf, capacity, mem[e.value].buf);
        buf := Written(buf, capacity, sep);
        var next := mem[e.value].next;
        mem := mem - {e.value};
        e := next;
        i := i + 1;
      }
    }
  }

  /** `buf_write` and `buf_copy`: all or nothing. */
  function Written(buf: Bytes, capacity: nat, data: Bytes): Bytes {
    if |buf| + |data| <= capacity then buf + data else buf
  }

  /** The counting loop has passed `count` buffers. */
  ghost predicate Counted(s: seq<Node>, sep: Bytes, maxLen: nat, more: Option<Address>, total: nat, count: nat) {
    && count <= |s| && more == FirstOf(s[count..], None) && total <= maxLen
    && Fitting(Contents(s), sep, maxLen) == count + Fitting(Contents(s[count..]), sep, maxLen - total)
    && total == |Joined(Contents(s[..count]), sep)|
  }

  lemma CountStart(s: seq<Node>, sep: Bytes, maxLen: nat)
    ensures Counted(s, sep, maxLen, FirstOf(s, None), 0, 0)
  {
    assert s[0..] == s;
  }

  lemma CountEnd(s: seq<Node>, sep: Bytes, maxLen: nat, total: nat, k: nat)
    requires Counted(s, sep, maxLen, None, total, k)
    ensures Fitting(Contents(s), sep, maxLen) == k
  {
  }

  lemma ChainAt(mem: Memory, s: seq<Node>, k: nat)
    requires k <= |s| && FirstOf(s[k..], None).Some? && Chain(mem, s, None)
    ensures k < |s| && FirstOf(s[k..], None).value == s[k].address && s[k].address in mem
    ensures mem[s[k].address] == Entry(s[k].buf, NextOf(s, k, None))
  {
  }

  lemma CountStep(s: seq<Node>, sep: Bytes, maxLen: nat, total: nat, k: nat)
    requires k < |s| && Counted(s, sep, maxLen, Some(s[k].address), total, k)
    ensures var extra := |s[k].buf| + |sep|;
            if total + extra > maxLen then Fitting(Contents(s), sep, maxLen) == k
            else Counted(s, sep, maxLen, NextOf(s, k, None), total + extra, k + 1)
  {
    FitOneMore(s, k, sep, maxLen - total);
  }

  /** Copying never meets the end of the buffer. */
  lemma CopyFits(s: seq<Node>, i: nat, count: nat, sep: Bytes)
    requires i < count <= |s|
    ensures var capacity := |Joined(Contents(s[..count]), sep)| + 1;
            Written(Written(Joined(Contents(s[..i]), sep), capacity, s[i].buf), capacity, sep)
            == Joined(Contents(s[..i + 1]), sep)
  {
    JoinOneMore(s, i, sep);
    JoinedFits(s, i + 1, count, sep);
  }

  lemma ContentsReplaced(s: seq<Node>, count: nat, f: Address, buf: Bytes)
    requires count <= |s|
    ensures Contents([Node(f, buf)] + s[count..]) == [buf] + Contents(s)[count..]
    ensures Contents(s)[..count] == Contents(s[..count])
  {
    ContentsSlice(s, count);
    ContentsConcat([Node(f, buf)], s[count..]);
    assert Contents([Node(f, buf)]) == [buf];
  }

  lemma FitOneMore(s: seq<Node>, k: nat, sep: Bytes, room: int)
    requires k < |s| && room >= 0
    ensures var rest := Contents(s[k..]);
            && Fitting(rest, sep, room) == (if |s[k].buf| + |sep| > room then 0
                                            else 1 + Fitting(Contents(s[k + 1..]), sep, room - |s[k].buf| - |sep|))
    ensures |Joined(Contents(s[..k + 1]), sep)| == |Joined(Contents(s[..k]), sep)| + |s[k].buf| + |sep|
  {
    assert s[k..][1..] == s[k + 1..];
    JoinOneMore(s, k, sep);
  }

  lemma JoinOneMore(s: seq<Node>, k: nat, sep: Bytes)
    requires k < |s|
    ensures Joined(Contents(s[..k + 1]), sep) == Joined(Contents(s[..k]), sep) + s[k].buf + sep
  {
    assert s[..k + 1] == s[..k] + [s[k]];
    ContentsConcat(s[..k], [s[k]]);
    assert Contents([s[k]]) == [s[k].buf];
    JoinedConcat(Contents(s[..k]), [s[k].buf], sep);
    assert Joined([s[k].buf], sep) == s[k].buf + sep;
  }

  lemma JoinedFits(s: seq<Node>, j: nat, k: nat, sep: Bytes)
    requires j <= k <= |s|
    ensures |Joined(Contents(s[..j]), sep)| <= |Joined(Contents(s[..k]), sep)|
  {
    assert s[..k] == s[..j] + s[j..k];
    ContentsConcat(s[..j], s[j..k]);
    JoinedConcat(Contents(s[..j]), Contents(s[j..k]), sep);
  }

  /** Advancing over the whole first buffer removes it; over less of it leaves what remains, which is not empty. */
  lemma AdvancedDropsEmpty(c: seq<Bytes>, n: int)
    requires c != []
    ensures CanAdvance(c, n) <==> 0 <= n <= |c[0]|
    ensures CanAdvance(c, n) ==> (n == |c[0]| <==> |Advanced(c, n)| == |c| - 1)
    ensures CanAdvance(c, n) ==>
            if n == |c[0]| then Advanced(c, n) == Popped(c)
            else Advanced(c, n) != [] && Advanced(c, n)[0] == c[0][n..] != [] && Advanced(c, n)[1..] == Popped(c)
  {
  }
}

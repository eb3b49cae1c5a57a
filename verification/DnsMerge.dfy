/** The DNS server lists (dns.c): sorted insertion and the merge of pulled with local servers. */
module DnsMerge {
  import opened Bytes

  /** A node of the list: its address in memory and its priority, which never changes. What else the source
      keeps in a node travels with it. */
  datatype Server = Server(address: nat, priority: int)

  /** The `next` pointers of the nodes in memory. */
  type Memory = map<Server, Option<Server>>

  predicate Sorted(s: seq<Server>) {
    forall i, j :: 0 <= i < j < |s| ==> s[i].priority < s[j].priority
  }

  /** `s` is the chain of nodes from `head` on. */
  ghost predicate Linked(next: Memory, head: Option<Server>, s: seq<Server>) {
    head == First(s, None) && Chain(next, s, None)
  }

  /** Every node of `s` points to the one after it, the last to `end`. */
  ghost predicate Chain(next: Memory, s: seq<Server>, end: Option<Server>) {
    forall i :: 0 <= i < |s| ==> s[i] in next && next[s[i]] == After(s, i, end)
  }

  function After(s: seq<Server>, i: nat, end: Option<Server>): Option<Server>
    requires i < |s|
  {
    if i + 1 < |s| then Some(s[i + 1]) else end
  }

  function First(s: seq<Server>, end: Option<Server>): Option<Server> {
    if s == [] then end else Some(s[0])
  }

  function Last(s: seq<Server>): Option<Server> {
    if s == [] then None else Some(s[|s| - 1])
  }

  /** Pulled servers and, where none has the same priority, local ones, in order. */
  function Merged(pulled: seq<Server>, local: seq<Server>): seq<Server>
    decreases |pulled| + |local|
  {
    if pulled == [] then local
    else if local == [] then pulled
    else if pulled[0].priority > local[0].priority then [local[0]] + Merged(pulled, local[1..])
    else if pulled[0].priority == local[0].priority then [pulled[0]] + Merged(pulled[1..], local[1..])
    else [pulled[0]] + Merged(pulled[1..], local)
  }

  ghost predicate Above(s: seq<Server>, p: int) {
    forall x :: x in s ==> x.priority > p
  }

  ghost predicate Below(a: seq<Server>, b: seq<Server>) {
    forall x, y :: x in a && y in b ==> x.priority < y.priority
  }

  ghost predicate Separate(a: seq<Server>, b: seq<Server>) {
    forall x :: x in a ==> x !in b
  }

  ghost predicate HasPriority(s: seq<Server>, p: int) {
    exists x :: x in s && x.priority == p
  }

  /** Membership in the merge. */
  ghost predicate Belongs(x: Server, pulled: seq<Server>, local: seq<Server>) {
    x in pulled || (x in local && !HasPriority(pulled, x.priority))
  }

  lemma SortedTail(s: seq<Server>)
    requires Sorted(s) && s != []
    ensures Sorted(s[1..]) && Above(s[1..], s[0].priority)
    ensures forall x :: x in s <==> x == s[0] || x in s[1..]
  {
    assert s == [s[0]] + s[1..];
  }

  lemma SortedCons(x: Server, s: seq<Server>)
    requires Sorted(s) && Above(s, x.priority)
    ensures Sorted([x] + s)
  {
  }

  lemma HasPriorityTail(s: seq<Server>, p: int)
    requires Sorted(s) && s != []
    ensures HasPriority(s, p) <==> s[0].priority == p || HasPriority(s[1..], p)
  {
    SortedTail(s);
  }

  /** The merge is strictly sorted and holds every pulled server and exactly the local ones whose
      priority was not pulled. */
  lemma {:induction false} MergedIsExact(pulled: seq<Server>, local: seq<Server>)
    requires Sorted(pulled) && Sorted(local)
    ensures Sorted(Merged(pulled, local))
    ensures forall x :: x in Merged(pulled, local) <==> Belongs(x, pulled, local)
    decreases |pulled| + |local|
  {
    if pulled == [] || local == [] {
    } else if pulled[0].priority > local[0].priority {
      MergedIsExact(pulled, local[1..]);
      TakeLocal(pulled, local, Merged(pulled, local[1..]));
    } else if pulled[0].priority == local[0].priority {
      MergedIsExact(pulled[1..], local[1..]);
      TakeBoth(pulled, local, Merged(pulled[1..], local[1..]));
    } else {
      MergedIsExact(pulled[1..], local);
      TakePulled(pulled, local, Merged(pulled[1..], local));
    }
  }

  lemma TakeLocal(pulled: seq<Server>, local: seq<Server>, rest: seq<Server>)
    requires Sorted(pulled) && Sorted(local) && pulled != [] && local != []
    requires pulled[0].priority > local[0].priority
    requires Sorted(rest) && forall x :: x in rest <==> Belongs(x, pulled, local[1..])
    ensures Sorted([local[0]] + rest)
    ensures forall x :: x in [local[0]] + rest <==> Belongs(x, pulled, local)
  {
    SortedTail(pulled);
    SortedTail(local);
    SortedCons(local[0], rest);
    assert !HasPriority(pulled, local[0].priority);
  }

  lemma TakeBoth(pulled: seq<Server>, local: seq<Server>, rest: seq<Server>)
    requires Sorted(pulled) && Sorted(local) && pulled != [] && local != []
    requires pulled[0].priority == local[0].priority
    requires Sorted(rest) && forall x :: x in rest <==> Belongs(x, pulled[1..], local[1..])
    ensures Sorted([pulled[0]] + rest)
    ensures forall x :: x in [pulled[0]] + rest <==> Belongs(x, pulled, local)
  {
    SortedTail(pulled);
    SortedTail(local);
    SortedCons(pulled[0], rest);
    forall x: Server
      ensures x in [pulled[0]] + rest <==> Belongs(x, pulled, local)
    {
      HasPriorityTail(pulled, x.priority);
    }
  }

  lemma TakePulled(pulled: seq<Server>, local: seq<Server>, rest: seq<Server>)
    requires Sorted(pulled) && Sorted(local) && pulled != [] && local != []
    requires pulled[0].priority < local[0].priority
    requires Sorted(rest) && forall x :: x in rest <==> Belongs(x, pulled[1..], local)
    ensures Sorted([pulled[0]] + rest)
    ensures forall x :: x in [pulled[0]] + rest <==> Belongs(x, pulled, local)
  {
    SortedTail(pulled);
    SortedTail(local);
    SortedCons(pulled[0], rest);
    forall x: Server
      ensures x in [pulled[0]] + rest <==> Belongs(x, pulled, local)
    {
      HasPriorityTail(pulled, x.priority);
    }
  }

  lemma SameTails(a: seq<Server>, b: seq<Server>)
    requires Sorted(a) && Sorted(b) && a != [] && b != [] && forall x :: x in a <==> x in b
    ensures a[0] == b[0] && forall x :: x in a[1..] <==> x in b[1..]
  {
    SortedTail(a);
    SortedTail(b);
    assert a[0] in b && b[0] in a;
  }

  /** Sortedness and membership leave only one list. */
  lemma {:induction false} SortedIsUnique(a: seq<Server>, b: seq<Server>)
    requires Sorted(a) && Sorted(b) && forall x :: x in a <==> x in b
    ensures a == b
    decreases |a|
  {
    assert |b| > 0 ==> b[0] in a;
    assert |a| > 0 ==> a[0] in b;
    if a != [] {
      SameTails(a, b);
      SortedTail(a);
      SortedTail(b);
      SortedIsUnique(a[1..], b[1..]);
      Rejoined(a);
      Rejoined(b);
    }
  }

  lemma Rejoined(s: seq<Server>)
    requires s != []
    ensures s == [s[0]] + s[1..]
  {
  }

  // ---- The lists in memory -------------------------------------------------------------------------

  /** A write to a node outside a chain leaves the chain alone. */
  lemma ChainKept(next: Memory, s: seq<Server>, end: Option<Server>, x: Server, v: Option<Server>)
    requires Chain(next, s, end) && x !in s
    ensures Chain(next[x := v], s, end)
  {
  }

  /** A write to the last node of a sorted chain redirects its end. */
  lemma ChainRedirected(next: Memory, s: seq<Server>, end: Option<Server>, v: Option<Server>)
    requires Chain(next, s, end) && s != [] && Sorted(s)
    ensures Chain(next[s[|s| - 1] := v], s, v)
  {
  }

  /** A chain whose last link goes to `x` goes on with `x`. */
  lemma ChainGrows(next: Memory, s: seq<Server>, x: Server, end: Option<Server>)
    requires x in next && next[x] == end && Chain(next, s, Some(x))
    ensures Chain(next, s + [x], end)
  {
  }

  lemma ChainJoins(next: Memory, s: seq<Server>, t: seq<Server>, end: Option<Server>)
    requires Chain(next, s, First(t, end)) && Chain(next, t, end)
    ensures Chain(next, s + t, end) && First(s + t, end) == First(s, First(t, end))
  {
  }

  lemma ChainSplits(next: Memory, s: seq<Server>, k: nat)
    requires k <= |s| && Chain(next, s, None)
    ensures Chain(next, s[..k], First(s[k..], None)) && Chain(next, s[k..], None)
  {
  }

  class DnsOptions {
    var next: Memory
    var servers: Option<Server>
    var serversPrepull: Option<Server>

    /** The nodes behind the two pointers. */
    ghost predicate Holds(pulled: seq<Server>, local: seq<Server>)
      reads this
    {
      && Linked(next, servers, pulled) && Sorted(pulled)
      && Linked(next, serversPrepull, local) && Sorted(local)
      && Separate(pulled, local)
    }

    constructor ()
      ensures Holds([], [])
    {
      next, servers, serversPrepull := map[], None, None;
    }

    /** `dns_server_get`: the server of that priority, a new one, in free memory, if there is none. */
    method ServerGet(priority: int, address: nat, ghost pulled: seq<Server>, ghost local: seq<Server>)
      returns (obj: Server, ghost after: seq<Server>)
      requires Holds(pulled, local) && Server(address, priority) !in next
      modifies this
      ensures Holds(after, local) && serversPrepull == old(serversPrepull)
      ensures obj in after && obj.priority == priority
      ensures forall x :: x in after <==> x in pulled || x == obj
      ensures HasPriority(pulled, priority) ==> after == pulled
    {
      var prev, cur, k := FindPlace(priority, pulled);
      if cur.Some? && cur.value.priority == priority {
        return cur.value, pulled;
      }
      NotThere(pulled, k, priority);
      obj := Server(address, priority);
      after := Inserted(pulled, k, obj);
      InsertedHolds(pulled, k, obj);
      InsertedIsSorted(pulled, k, obj);
      NotInChain(next, local, obj);
      InsertAt(prev, cur, obj, pulled, k, local);
    }

    /** A new node linked in at the cursor; other lists stay as they are. */
    method InsertAt(prev: Option<Server>, cur: Option<Server>, obj: Server,
                    ghost s: seq<Server>, ghost k: nat, ghost other: seq<Server>)
      requires Linked(next, servers, s) && Sorted(s) && Chain(next, other, None) && Separate(s, other)
      requires k <= |s| && prev == Last(s[..k]) && cur == First(s[k..], None) && obj !in next
      modifies this`servers, this`next
      ensures Linked(next, servers, Inserted(s, k, obj)) && Chain(next, other, None)
    {
      ChainSplits(next, s, k);
      NotInChain(next, s, obj);
      NotInChain(next, other, obj);
      SortedHalves(s, k);
      ChainKept(next, s[..k], cur, obj, cur);
      ChainKept(next, s[k..], None, obj, cur);
      ChainKept(next, other, None, obj, cur);
      next := next[obj := cur];
      if prev.Some? {
        ChainKept(next, s[k..], None, prev.value, Some(obj));
        ChainKept(next, other, None, prev.value, Some(obj));
      }
      SetEntry(prev, Some(obj), s[..k], cur);
      ChainGrows(next, s[..k], obj, cur);
      ChainJoins(next, s[..k] + [obj], s[k..], None);
    }

    /** The walk to the first server that does not come before the given priority. */
    method FindPlace(priority: int, ghost s: seq<Server>)
      returns (prev: Option<Server>, cur: Option<Server>, ghost k: nat)
      requires Linked(next, servers, s)
      ensures k <= |s| && prev == Last(s[..k]) && cur == First(s[k..], None)
      ensures forall i :: 0 <= i < k ==> s[i].priority < priority
      ensures cur.Some? ==> cur.value.priority >= priority
    {
      prev, cur, k := None, servers, 0;
      while cur.Some? && cur.value.priority < priority
        invariant k <= |s| && prev == Last(s[..k]) && cur == First(s[k..], None)
        invariant forall i :: 0 <= i < k ==> s[i].priority < priority
        decreases |s| - k
      {
        assert cur.value == s[k];
        prev := cur;
        cur := next[cur.value];
        k := k + 1;
      }
    }

    /** An assignment through the pointer-to-pointer cursor, which stands behind the nodes of `done`. */
    method SetEntry(prev: Option<Server>, target: Option<Server>, ghost done: seq<Server>, ghost end: Option<Server>)
      requires Sorted(done) && Chain(next, done, end) && prev == Last(done)
      modifies this`servers, this`next
      ensures Chain(next, done, target)
      ensures servers == if done == [] then target else old(servers)
      ensures next == if prev.None? then old(next) else old(next)[prev.value := target]
    {
      if prev.None? {
        servers := target;
      } else {
        ChainRedirected(next, done, end, target);
        next := next[prev.value := target];
      }
    }

    /** `dns_options_preprocess_pull`. */
    method PreprocessPull(ghost pulled: seq<Server>, ghost local: seq<Server>)
      requires Holds(pulled, local)
      modifies this
      ensures Holds([], pulled)
    {
      serversPrepull := servers;
      servers := None;
    }

    /** `dns_options_postprocess_pull`: the lists relinked into one. */
    method PostprocessPull(ghost pulled: seq<Server>, ghost local: seq<Server>)
      requires Holds(pulled, local)
      modifies this
      ensures Holds(Merged(pulled, local), [])
    {
      var prev, server, pp;
      ghost var done, rest, pps;
      prev, server, pp, done, rest, pps := MergeLoop(pulled, local);
      if pp.Some? {
        AppendRest(prev, pp, done, pps);
      } else {
        ChainJoins(next, done, rest, None);
      }
      serversPrepull := None;
      MergedIsExact(pulled, local);
    }

    /** Its loop. */
    method MergeLoop(ghost pulled: seq<Server>, ghost local: seq<Server>)
      returns (prev: Option<Server>, server: Option<Server>, pp: Option<Server>,
               ghost done: seq<Server>, ghost rest: seq<Server>, ghost pps: seq<Server>)
      requires Holds(pulled, local)
      modifies this`servers, this`next
      ensures Merged(pulled, local) == done + if rest == [] then pps else rest
      ensures rest == [] || pps == []
      ensures Halfway(prev, server, pp, done, rest, pps)
    {
      ghost var all := Merged(pulled, local);
      done, rest, pps := [], pulled, local;
      prev, server, pp := None, servers, serversPrepull;
      assert [] + all == all;
      while server.Some? && pp.Some?
        invariant all == done + Merged(rest, pps)
        invariant Halfway(prev, server, pp, done, rest, pps)
        decreases |rest| + |pps|
      {
        prev, server, pp, done, rest, pps := MergeOne(prev, server.value, pp.value, done, rest, pps, all);
      }
    }

    method AppendRest(prev: Option<Server>, pp: Option<Server>, ghost done: seq<Server>, ghost pps: seq<Server>)
      requires Halfway(prev, None, pp, done, [], pps)
      modifies this`servers, this`next
      ensures Linked(next, servers, done + pps)
    {
      OrderedApart(done, [], pps);
      if prev.Some? {
        ChainKept(next, pps, None, prev.value, pp);
      }
      SetEntry(prev, pp, done, None);
      ChainJoins(next, done, pps, None);
    }

    /** The nodes placed so far, and the two lists still to be merged. */
    ghost predicate Halfway(prev: Option<Server>, server: Option<Server>, pp: Option<Server>,
                            done: seq<Server>, rest: seq<Server>, pps: seq<Server>)
      reads this
    {
      && prev == Last(done) && servers == First(done, server)
      && Chain(next, done, server) && Linked(next, server, rest) && Linked(next, pp, pps)
      && Ordered(done, rest, pps)
    }

    /** One round of its loop. */
    method MergeOne(prev: Option<Server>, server: Server, pp: Server,
                    ghost done: seq<Server>, ghost rest: seq<Server>, ghost pps: seq<Server>,
                    ghost all: seq<Server>)
      returns (prev': Option<Server>, server': Option<Server>, pp': Option<Server>,
               ghost done': seq<Server>, ghost rest': seq<Server>, ghost pps': seq<Server>)
      requires Halfway(prev, Some(server), Some(pp), done, rest, pps) && all == done + Merged(rest, pps)
      modifies this`servers, this`next
      ensures Halfway(prev', server', pp', done', rest', pps') && all == done' + Merged(rest', pps')
      ensures |rest'| + |pps'| < |rest| + |pps|
    {
      MergeStep(all, done, rest, pps);
      if server.priority > pp.priority {
        pp' := LinkLocal(prev, server, pp, done, rest, pps);
        prev', server' := Some(pp), Some(server);
        done', rest', pps' := done + [pps[0]], rest, pps[1..];
      } else {
        pp', pps' := Some(pp), pps;
        if server.priority == pp.priority {
          SkipLocal(prev, server, pp, done, rest, pps);
          pp', pps' := next[pp], pps[1..];
        } else {
          SortedTail(pps);
        }
        PassPulled(prev, server, pp', done, rest, pps');
        prev', server' := Some(server), next[server];
        done', rest' := done + [rest[0]], rest[1..];
      }
    }

    /** A local server goes in front of the pulled one. */
    method LinkLocal(prev: Option<Server>, server: Server, pp: Server,
                     ghost done: seq<Server>, ghost rest: seq<Server>, ghost pps: seq<Server>)
      returns (pp': Option<Server>)
      requires Halfway(prev, Some(server), Some(pp), done, rest, pps) && server.priority > pp.priority
      modifies this`servers, this`next
      ensures Halfway(Some(pp), Some(server), pp', done + [pp], rest, pps[1..])
    {
      OrderedLocal(done, rest, pps);
      OrderedApart(done, rest, pps);
      TailIsLinked(next, pp, pps);
      pp' := next[pp];
      ChainKept(next, done, Some(server), pp, Some(server));
      ChainKept(next, rest, None, pp, Some(server));
      ChainKept(next, pps[1..], None, pp, Some(server));
      next := next[pp := Some(server)];
      if prev.Some? {
        ChainKept(next, rest, None, prev.value, Some(pp));
        ChainKept(next, pps[1..], None, prev.value, Some(pp));
      }
      SetEntry(prev, Some(pp), done, Some(server));
      ChainGrows(next, done, pp, Some(server));
    }

    lemma SkipLocal(prev: Option<Server>, server: Server, pp: Server,
                    done: seq<Server>, rest: seq<Server>, pps: seq<Server>)
      requires Halfway(prev, Some(server), Some(pp), done, rest, pps) && server.priority == pp.priority
      ensures pp in next && Halfway(prev, Some(server), next[pp], done, rest, pps[1..])
      ensures Above(pps[1..], server.priority)
    {
      TailIsLinked(next, pp, pps);
      SortedTail(pps);
    }

    lemma PassPulled(prev: Option<Server>, server: Server, pp: Option<Server>,
                     done: seq<Server>, rest: seq<Server>, pps: seq<Server>)
      requires Halfway(prev, Some(server), pp, done, rest, pps) && Above(pps, server.priority)
      ensures server in next && Halfway(Some(server), next[server], pp, done + [server], rest[1..], pps)
    {
      TailIsLinked(next, server, rest);
      ChainGrows(next, done, server, next[server]);
      OrderedPulled(done, rest, pps);
    }
  }

  lemma SortedHalves(s: seq<Server>, k: nat)
    requires Sorted(s) && k <= |s|
    ensures Sorted(s[..k])
    ensures k > 0 ==> s[k - 1] in s && s[k - 1] !in s[k..]
  {
  }

  lemma NotInChain(next: Memory, s: seq<Server>, x: Server)
    requires Chain(next, s, None) && x !in next
    ensures x !in s
  {
  }

  lemma TailIsLinked(next: Memory, x: Server, s: seq<Server>)
    requires Linked(next, Some(x), s)
    ensures s != [] && s[0] == x && x in next && Linked(next, next[x], s[1..])
  {
  }

  ghost predicate Ordered(done: seq<Server>, rest: seq<Server>, pps: seq<Server>) {
    && Sorted(done) && Sorted(rest) && Sorted(pps)
    && Below(done, rest) && Below(done, pps) && Separate(rest, pps)
  }

  lemma SortedSnoc(s: seq<Server>, x: Server)
    requires Sorted(s) && forall y :: y in s ==> y.priority < x.priority
    ensures Sorted(s + [x])
  {
  }

  lemma OrderedLocal(done: seq<Server>, rest: seq<Server>, pps: seq<Server>)
    requires Ordered(done, rest, pps) && rest != [] && pps != [] && rest[0].priority > pps[0].priority
    ensures Ordered(done + [pps[0]], rest, pps[1..])
    ensures pps[0] !in done && pps[0] !in rest && pps[0] !in pps[1..]
  {
    SortedTail(pps);
    SortedTail(rest);
    SortedSnoc(done, pps[0]);
  }

  lemma OrderedApart(done: seq<Server>, rest: seq<Server>, pps: seq<Server>)
    requires Ordered(done, rest, pps)
    ensures forall x :: x in done ==> x !in rest && x !in pps
    ensures done != [] && pps != [] ==> done[|done| - 1] !in pps[1..]
  {
  }

  lemma OrderedPulled(done: seq<Server>, rest: seq<Server>, pps: seq<Server>)
    requires Ordered(done, rest, pps) && rest != [] && Above(pps, rest[0].priority)
    ensures Ordered(done + [rest[0]], rest[1..], pps)
  {
    SortedTail(rest);
    SortedSnoc(done, rest[0]);
  }

  function Inserted(s: seq<Server>, k: nat, x: Server): seq<Server>
    requires k <= |s|
  {
    s[..k] + [x] + s[k..]
  }

  lemma NotThere(s: seq<Server>, k: nat, p: int)
    requires Sorted(s) && k <= |s| && (forall i :: 0 <= i < k ==> s[i].priority < p)
    requires k < |s| ==> s[k].priority > p
    ensures !HasPriority(s, p)
    ensures forall i :: k <= i < |s| ==> s[i].priority > p
  {
  }

  lemma InsertedHolds(s: seq<Server>, k: nat, x: Server)
    requires k <= |s|
    ensures forall y :: y in Inserted(s, k, x) <==> y in s || y == x
  {
    assert s == s[..k] + s[k..];
  }

  lemma InsertedIsSorted(s: seq<Server>, k: nat, x: Server)
    requires Sorted(s) && k <= |s| && (forall i :: 0 <= i < k ==> s[i].priority < x.priority)
    requires forall i :: k <= i < |s| ==> s[i].priority > x.priority
    ensures Sorted(Inserted(s, k, x))
  {
  }

  /** One step of the merge on the nodes placed and the two lists. */
  ghost function Stepped(done: seq<Server>, rest: seq<Server>, pps: seq<Server>)
    : (seq<Server>, seq<Server>, seq<Server>)
    requires rest != [] && pps != []
  {
    if rest[0].priority > pps[0].priority then (done + [pps[0]], rest, pps[1..])
    else (done + [rest[0]], rest[1..], if rest[0].priority == pps[0].priority then pps[1..] else pps)
  }

  lemma MergeStep(all: seq<Server>, done: seq<Server>, rest: seq<Server>, pps: seq<Server>)
    requires rest != [] && pps != [] && all == done + Merged(rest, pps)
    ensures var (done', rest', pps') := Stepped(done, rest, pps); all == done' + Merged(rest', pps')
  {
    if rest[0].priority > pps[0].priority {
      Associate(done, pps[0], Merged(rest, pps[1..]));
    } else if rest[0].priority == pps[0].priority {
      Associate(done, rest[0], Merged(rest[1..], pps[1..]));
    } else {
      Associate(done, rest[0], Merged(rest[1..], pps));
    }
  }

  lemma Associate(a: seq<Server>, x: Server, b: seq<Server>)
    ensures a + ([x] + b) == a + [x] + b
  {
  }
}

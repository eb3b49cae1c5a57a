/** Removal of router options from the options of a DHCP reply (RFC 2132). */
module Dhcp {
  import opened Bytes
  import opened Checksum

  const PAD := 0
  const ROUTER := 3
  const MSG_TYPE := 53
  const END := 255
  const DHCPOFFER := 2
  const DHCPACK := 5

  /** What the scan of `get_dhcp_message_type` finds in the options from some point on, or -1. */
  function MessageType(x: Bytes): int
    decreases |x|
  {
    if x == [] || x[0] == END then -1
    else if x[0] == PAD then MessageType(x[1..])
    else if x[0] == MSG_TYPE then
      if |x| >= 3 && x[1] == 1 then x[2] else -1
    else if |x| >= 2 && x[1] + 2 <= |x| then MessageType(x[x[1] + 2..])
    else -1
  }

  /** Code and length byte and the bytes counted by the length byte. */
  function Total(x: Bytes): (n: nat)
    requires |x| >= 2
    ensures n - 2 == x[1]
  {
    var len: nat := x[1];
    len + 2
  }

  /** A router option that lies completely inside the options. */
  predicate StartsWithRouter(x: Bytes) {
    |x| >= 2 && x[0] == ROUTER && x[1] + 2 <= |x|
  }

  /** Another option, padding included, with more options behind it. */
  predicate StartsWithOther(x: Bytes) {
    && x != [] && x[0] != END && x[0] != ROUTER
    && (x[0] == PAD || (|x| >= 2 && x[1] + 2 <= |x|))
  }

  function OptionLength(x: Bytes): (n: nat)
    requires x != [] && (x[0] == PAD || |x| >= 2)
    ensures n >= 1
  {
    if x[0] == PAD then 1 else Total(x)
  }

  /** The options without the first one, padded at the end. */
  function Deleted(x: Bytes): (r: Bytes)
    requires StartsWithRouter(x)
    ensures |r| == |x|
  {
    x[Total(x)..] + Zeros(Total(x))
  }

  /** The address in a router option, if no other was found before. */
  function Address(x: Bytes, found: nat): nat
    requires StartsWithRouter(x)
  {
    if found == 0 && x[1] >= 4 && x[1] % 4 == 0 then FromBigEndian(x[2..6]) else found
  }

  function NonPads(x: Bytes): nat {
    if x == [] then 0 else NonPads(x[1..]) + if x[0] == PAD then 0 else 1
  }

  lemma {:induction false} NonPadsConcat(x: Bytes, y: Bytes)
    ensures NonPads(x + y) == NonPads(x) + NonPads(y)
  {
    if x == [] {
      assert x + y == y;
    } else {
      NonPadsConcat(x[1..], y);
      assert (x + y)[1..] == x[1..] + y;
    }
  }

  lemma {:induction false} NonPadsOfZeros(n: nat)
    ensures NonPads(Zeros(n)) == 0
  {
    if n > 0 {
      NonPadsOfZeros(n - 1);
      assert Zeros(n)[1..] == Zeros(n - 1);
    }
  }

  /** Deleting an option leaves fewer bytes that are not padding: the reason why the scan ends
      although it does not move on after a deletion. */
  lemma DeletionShrinks(x: Bytes)
    requires StartsWithRouter(x)
    ensures NonPads(Deleted(x)) < NonPads(x)
  {
    var n := Total(x);
    NonPadsConcat(x[n..], Zeros(n));
    NonPadsOfZeros(n);
    assert x == x[..n] + x[n..];
    NonPadsConcat(x[..n], x[n..]);
  }

  lemma {:induction false} NonPadsOfTail(x: Bytes, n: nat)
    requires n <= |x|
    ensures NonPads(x[n..]) <= NonPads(x)
  {
    assert x == x[..n] + x[n..];
    NonPadsConcat(x[..n], x[n..]);
  }

  /** What `do_extract` makes of the options from some point on, and the address it returns. */
  function Extract(x: Bytes, found: nat): (r: (Bytes, nat))
    ensures |r.0| == |x|
    decreases NonPads(x), |x|
  {
    if StartsWithRouter(x) then
      DeletionShrinks(x);
      Extract(Deleted(x), Address(x, found))
    else if StartsWithOther(x) then
      var n := OptionLength(x);
      NonPadsOfTail(x, n);
      var rest := Extract(x[n..], found);
      (x[..n] + rest.0, rest.1)
    else (x, found)
  }

  /** State of the loop of `do_extract` at `i`: what is left to do leads to `goal`. */
  ghost predicate OnTheWay(goal: (Bytes, nat), p: Bytes, i: nat, found: nat) {
    i <= |p| && goal == (p[..i] + Extract(p[i..], found).0, Extract(p[i..], found).1)
  }

  lemma Begin(p: Bytes)
    ensures OnTheWay(Extract(p, 0), p, 0, 0)
  {
    assert p[0..] == p;
    assert p[..0] + Extract(p, 0).0 == Extract(p, 0).0;
  }

  /** The loop steps over an option it keeps. */
  lemma Advance(goal: (Bytes, nat), p: Bytes, i: nat, n: nat, found: nat)
    requires OnTheWay(goal, p, i, found)
    requires i + n <= |p| && StartsWithOther(p[i..]) && n == OptionLength(p[i..])
    ensures OnTheWay(goal, p, i + n, found)
    ensures NonPads(p[i + n..]) <= NonPads(p[i..])
  {
    var x := p[i..];
    NonPadsOfTail(x, n);
    assert x[n..] == p[i + n..];
    assert p[..i] + x[..n] == p[..i + n];
    var rest := Extract(x[n..], found);
    assert p[..i] + (x[..n] + rest.0) == p[..i + n] + rest.0;
  }

  /** The loop deletes a router option and looks at the same place again. */
  lemma Remove(goal: (Bytes, nat), p: Bytes, q: Bytes, i: nat, found: nat)
    requires OnTheWay(goal, p, i, found) && StartsWithRouter(p[i..])
    requires |q| == |p| && q[..i] == p[..i] && q[i..] == Deleted(p[i..])
    ensures OnTheWay(goal, q, i, Address(p[i..], found))
    ensures NonPads(q[i..]) < NonPads(p[i..])
  {
    DeletionShrinks(p[i..]);
  }

  /** The loop stops. */
  lemma Stop(goal: (Bytes, nat), p: Bytes, i: nat, found: nat)
    requires OnTheWay(goal, p, i, found) && !StartsWithRouter(p[i..]) && !StartsWithOther(p[i..])
    ensures goal == (p, found)
  {
    assert p[..i] + p[i..] == p;
  }

  /** `do_extract`, in place. */
  method DoExtract(p: array<byte>) returns (address: nat)
    modifies p
    ensures (p[..], address) == Extract(old(p[..]), 0)
  {
    ghost var goal := Extract(p[..], 0);
    var i, more := 0, true;
    address := 0;
    Begin(p[..]);
    while more && i < p.Length
      invariant 0 <= i <= p.Length
      invariant more ==> OnTheWay(goal, p[..], i, address)
      invariant !more ==> goal == (p[..], address)
      decreases NonPads(p[..][i..]), p.Length - i, more
    {
      i, address, more := ExtractStep(p, i, address, goal);
    }
    if more {
      Stop(goal, p[..], i, address);
    }
  }

  /** One turn of the loop of `do_extract`; the loop is left when `more` is false. */
  method ExtractStep(p: array<byte>, i: nat, found: nat, ghost goal: (Bytes, nat))
    returns (next: nat, address: nat, more: bool)
    requires i < p.Length && OnTheWay(goal, p[..], i, found)
    modifies p
    ensures next <= p.Length
    ensures more ==> OnTheWay(goal, p[..], next, address)
    ensures !more ==> goal == (p[..], address) && next == i && p[..] == old(p[..])
    ensures more ==> || NonPads(p[..][next..]) < NonPads(old(p[..][i..]))
                     || (NonPads(p[..][next..]) == NonPads(old(p[..][i..])) && next > i)
  {
    ghost var before := p[..];
    next, address, more := i, found, true;
    var kind := p[i];
    var room := p.Length - i;
    assert before[i..][0] == kind && (room >= 2 ==> before[i..][1] == p[i + 1]);
    if kind == END {
      more := false;
    } else if kind == PAD {
      Advance(goal, before, i, 1, found);
      next := i + 1;
    } else if kind == ROUTER {
      if room >= 2 && p[i + 1] <= room - 2 {
        address := RemoveRouter(p, i, found);
        Remove(goal, before, p[..], i, found);
      } else {
        more := false;
      }
    } else {
      if room >= 2 && p[i + 1] <= room - 2 {
        var n: nat := p[i + 1];
        n := n + 2;
        Advance(goal, before, i, n, found);
        next := i + n;
      } else {
        more := false; // nothing behind it, or the step goes past the end
      }
    }
    if !more {
      Stop(goal, before, i, found);
    }
  }

  /** The branch of `do_extract` for a complete router option at `i`. */
  method RemoveRouter(p: array<byte>, i: nat, found: nat) returns (address: nat)
    requires i <= p.Length && StartsWithRouter(p[..][i..])
    modifies p
    ensures p[..i] == old(p[..i]) && p[..][i..] == Deleted(old(p[..][i..]))
    ensures address == Address(old(p[..][i..]), found)
  {
    var len: nat := p[i + 1];
    address := found;
    if found == 0 && len >= 4 && len % 4 == 0 {
      address := FromBigEndian(p[i + 2..i + 6]);
      assert p[i + 2..i + 6] == p[..][i..][2..6];
    }
    var n := len + 2;
    DeleteAt(p, i, n);
  }

  /** `memmove` over an option and padding of the tail. */
  method DeleteAt(p: array<byte>, i: nat, n: nat)
    requires i + n <= p.Length
    modifies p
    ensures p[..i] == old(p[..i])
    ensures p[..][i..] == old(p[..][i..])[n..] + Zeros(n)
  {
    var end := p.Length;
    forall k | i <= k < end - n {
      p[k] := p[k + n];
    }
    forall k | end - n <= k < end {
      p[k] := PAD;
    }
  }

  /** `get_dhcp_message_type`. */
  method GetMessageType(p: array<byte>) returns (t: int)
    ensures t == MessageType(p[..])
  {
    var i := 0;
    assert p[0..] == p[..];
    while i < p.Length
      invariant 0 <= i
      invariant i <= p.Length ==> MessageType(p[i..]) == MessageType(p[..])
      invariant i > p.Length ==> MessageType(p[..]) == -1
    {
      ghost var x := p[i..];
      var kind := p[i];
      var room := p.Length - i;
      if kind == END {
        return -1;
      } else if kind == PAD {
        assert x[1..] == p[i + 1..];
      } else if kind == MSG_TYPE {
        if room >= 3 {
          assert x[1] == p[i + 1] && x[2] == p[i + 2];
          if p[i + 1] == 1 {
            return p[i + 2];
          }
        }
        return -1;
      } else {
        if room >= 2 {
          var len: nat := p[i + 1];
          assert x[1] == p[i + 1];
          assert i + len + 2 <= p.Length ==> x[len + 2..] == p[i + len + 2..];
          i := i + (len + 1);
        }
      }
      i := i + 1;
    }
    return -1;
  }

  /** Router options aside, the options end in the first two bytes of a message type option, and
      something before it is removed so that padding takes the place of the missing third. */
  predicate TypeCutOff(x: Bytes, padded: bool)
    decreases |x|
  {
    if x == [] then false
    else if x[0] == MSG_TYPE then padded && x == [MSG_TYPE, 1]
    else if StartsWithRouter(x) then TypeCutOff(x[Total(x)..], true)
    else if StartsWithOther(x) then TypeCutOff(x[OptionLength(x)..], padded)
    else false
  }

  lemma {:induction false} NoTypeInZeros(n: nat)
    ensures MessageType(Zeros(n)) == -1
  {
    if n > 0 {
      NoTypeInZeros(n - 1);
      assert Zeros(n)[1..] == Zeros(n - 1);
    }
  }

  /** The first option decides, and extraction keeps the bytes of an option that it steps over. */
  lemma KeptInFront(y: Bytes, n: nat, found: nat)
    requires StartsWithOther(y) && n == OptionLength(y)
    ensures var z := Extract(y, found).0;
            && |z| == |y| && z[..n] == y[..n] && z[n..] == Extract(y[n..], found).0
            && (y[0] != MSG_TYPE ==> MessageType(z) == MessageType(Extract(y[n..], found).0))
            && (y[0] == MSG_TYPE ==> MessageType(z) == if n == 3 then y[2] else -1)
  {
    var z := Extract(y, found).0;
    var rest := Extract(y[n..], found).0;
    assert z == y[..n] + rest;
    assert z[0] == y[0] && (n >= 2 ==> z[1] == y[1]) && (n >= 3 ==> z[2] == y[2]);
  }

  lemma TypeOptionInFront(x: Bytes, padding: nat, found: nat)
    requires x != [] && x[0] == MSG_TYPE
    ensures MessageType(Extract(x + Zeros(padding), found).0)
         == if TypeCutOff(x, padding > 0) then 0 else MessageType(x)
  {
    var y := x + Zeros(padding);
    if StartsWithOther(y) {
      KeptInFront(y, OptionLength(y), found);
      assert y[1] == if |x| >= 2 then x[1] else 0;
      assert |y| >= 3 ==> y[2] == if |x| >= 3 then x[2] else 0;
    }
  }

  /** A first option that is not complete, padding appended. */
  lemma CutOffOptionInFront(x: Bytes, padding: nat, found: nat)
    requires x != [] && x[0] != MSG_TYPE && !StartsWithRouter(x) && !StartsWithOther(x)
    ensures MessageType(Extract(x + Zeros(padding), found).0) == -1 == MessageType(x)
  {
    var y := x + Zeros(padding);
    if x[0] != END && |y| >= 2 && Total(y) <= |y| {
      var n := Total(y);
      assert |x| >= 2 ==> x[1] == y[1];
      assert n >= |x|;
      assert y[n..] == Zeros(|y| - n);
      if x[0] == ROUTER {
        assert Deleted(y) == Zeros(|y|);
        ExtractZeros(|y|, Address(y, found));
        NoTypeInZeros(|y|);
      } else {
        KeptInFront(y, n, found);
        ExtractZeros(|y| - n, found);
        NoTypeInZeros(|y| - n);
      }
    }
  }

  ghost predicate TypeIsAsExpected(x: Bytes, padding: nat, found: nat) {
    MessageType(Extract(x + Zeros(padding), found).0) == if TypeCutOff(x, padding > 0) then 0 else MessageType(x)
  }

  lemma TypeBehindRouter(x: Bytes, padding: nat, found: nat)
    requires StartsWithRouter(x) && StartsWithRouter(x + Zeros(padding))
    requires TypeIsAsExpected(x[Total(x)..], padding + Total(x), Address(x + Zeros(padding), found))
    ensures TypeIsAsExpected(x, padding, found)
  {
    var y, n := x + Zeros(padding), Total(x);
    assert y[1] == x[1] && Deleted(y) == x[n..] + Zeros(padding + n);
  }

  lemma TypeSkipsOther(x: Bytes, padded: bool)
    requires StartsWithOther(x) && x[0] != MSG_TYPE
    ensures MessageType(x) == MessageType(x[OptionLength(x)..])
    ensures TypeCutOff(x, padded) == TypeCutOff(x[OptionLength(x)..], padded)
  {
  }

  lemma PaddedOther(x: Bytes, padding: nat)
    requires StartsWithOther(x)
    ensures var y, n := x + Zeros(padding), OptionLength(x);
            && StartsWithOther(y) && OptionLength(y) == n && y[0] == x[0] && y[n..] == x[n..] + Zeros(padding)
  {
    var y := x + Zeros(padding);
    assert y[0] == x[0] && (x[0] != PAD ==> y[1] == x[1]);
  }

  lemma TypeBehindOther(x: Bytes, padding: nat, found: nat)
    requires StartsWithOther(x) && x[0] != MSG_TYPE
    requires TypeIsAsExpected(x[OptionLength(x)..], padding, found)
    ensures TypeIsAsExpected(x, padding, found)
  {
    TypeSkipsOther(x, padding > 0);
    PaddedOther(x, padding);
    KeptInFront(x + Zeros(padding), OptionLength(x), found);
  }

  /** The message type found after extraction, for every byte string. */
  lemma {:induction false} TypeAfterExtraction(x: Bytes, padding: nat, found: nat)
    ensures TypeIsAsExpected(x, padding, found)
    decreases |x|
  {
    if x == [] {
      assert x + Zeros(padding) == Zeros(padding);
      ExtractZeros(padding, found);
      NoTypeInZeros(padding);
    } else if x[0] == MSG_TYPE {
      TypeOptionInFront(x, padding, found);
    } else if StartsWithRouter(x) {
      assert (x + Zeros(padding))[1] == x[1];
      TypeAfterExtraction(x[Total(x)..], padding + Total(x), Address(x + Zeros(padding), found));
      TypeBehindRouter(x, padding, found);
    } else if StartsWithOther(x) {
      TypeAfterExtraction(x[OptionLength(x)..], padding, found);
      TypeBehindOther(x, padding, found);
    } else {
      CutOffOptionInFront(x, padding, found);
    }
  }

  lemma {:induction false} CutOffMeansNone(x: Bytes, padded: bool)
    ensures TypeCutOff(x, padded) ==> MessageType(x) == -1
    decreases |x|
  {
    if x != [] && x[0] != MSG_TYPE {
      if StartsWithRouter(x) {
        CutOffMeansNone(x[Total(x)..], true);
      } else if StartsWithOther(x) {
        CutOffMeansNone(x[OptionLength(x)..], padded);
      }
    }
  }

  /** Removing the router options keeps the message type exactly when the options do not end in a
      cut off message type option; then a type of 0 appears out of the padding. */
  lemma TypeKeptExactly(x: Bytes, found: nat)
    ensures MessageType(Extract(x, found).0) == MessageType(x) <==> !TypeCutOff(x, false)
  {
    TypeAfterExtraction(x, 0, found);
    assert x + Zeros(0) == x;
    CutOffMeansNone(x, false);
  }

  /** Such options exist: here the type turns from none into 0. */
  lemma CutOffWitness()
    ensures var x: Bytes := [ROUTER, 0, MSG_TYPE, 1];
            TypeCutOff(x, false) && MessageType(x) == -1 && MessageType(Extract(x, 0).0) == 0
  {
    var x: Bytes := [ROUTER, 0, MSG_TYPE, 1];
    assert Total(x) == 2 && x[2..] == [MSG_TYPE, 1];
    CutOffMeansNone(x, false);
    TypeAfterExtraction(x, 0, 0);
    assert x + Zeros(0) == x;
  }

  /** No complete router option is left: removing router options again changes nothing, for every
      byte string. */
  lemma {:induction false} ExtractionIsIdempotent(x: Bytes, found: nat, found2: nat)
    ensures Extract(Extract(x, found).0, found2) == (Extract(x, found).0, found2)
    decreases NonPads(x), |x|
  {
    if StartsWithRouter(x) {
      DeletionShrinks(x);
      ExtractionIsIdempotent(Deleted(x), Address(x, found), found2);
    } else if StartsWithOther(x) {
      var n := OptionLength(x);
      NonPadsOfTail(x, n);
      var rest := Extract(x[n..], found).0;
      var y := x[..n] + rest;
      ExtractionIsIdempotent(x[n..], found, found2);
      assert y[n..] == rest && y[..n] == x[..n];
      assert y[0] == x[0] && (|x| >= 2 && n >= 2 ==> y[1] == x[1]);
      assert StartsWithOther(y) && OptionLength(y) == n;
    }
  }

  /** An option as RFC 2132 has it: padding (section 3.1), or code, length and data (section 2). */
  datatype DhcpOption = Padding | Tagged(code: byte, data: Bytes)

  predicate ValidOption(o: DhcpOption) {
    o.Tagged? ==> o.code != 0 && o.code != 255 && |o.data| <= 255
  }

  function Encode(o: DhcpOption): (b: Bytes)
    requires ValidOption(o)
    ensures |b| >= 1
  {
    match o
    case Padding => [0]
    case Tagged(code, data) => [code, |data|] + data
  }

  predicate ValidOptions(os: seq<DhcpOption>) {
    forall i :: 0 <= i < |os| ==> ValidOption(os[i])
  }

  /** Options in order, then `tail`, then padding. */
  function Layout(os: seq<DhcpOption>, tail: Bytes, padding: nat): Bytes
    requires ValidOptions(os)
  {
    if os == [] then tail + Zeros(padding) else Encode(os[0]) + Layout(os[1..], tail, padding)
  }

  predicate IsRouter(o: DhcpOption) {
    o.Tagged? && o.code == ROUTER
  }

  function WithoutRouters(os: seq<DhcpOption>): (r: seq<DhcpOption>)
    requires ValidOptions(os)
    ensures ValidOptions(r) && forall i :: 0 <= i < |r| ==> !IsRouter(r[i])
  {
    if os == [] then []
    else if IsRouter(os[0]) then WithoutRouters(os[1..])
    else [os[0]] + WithoutRouters(os[1..])
  }

  function RemovedLength(os: seq<DhcpOption>): nat
    requires ValidOptions(os)
  {
    if os == [] then 0
    else RemovedLength(os[1..]) + if IsRouter(os[0]) then |Encode(os[0])| else 0
  }

  /** The first address that is not 0.0.0.0 in a router option of whole addresses. */
  function FirstRouter(os: seq<DhcpOption>, found: nat): nat
    requires ValidOptions(os)
  {
    if os == [] then found
    else FirstRouter(os[1..], NextFound(os[0], found))
  }

  function NextFound(o: DhcpOption, found: nat): nat {
    if IsRouter(o) && found == 0 && |o.data| >= 4 && |o.data| % 4 == 0
    then FromBigEndian(o.data[..4]) else found
  }

  lemma {:induction false} ExtractZeros(n: nat, found: nat)
    ensures Extract(Zeros(n), found) == (Zeros(n), found)
  {
    if n > 0 {
      ExtractZeros(n - 1, found);
      assert Zeros(n)[1..] == Zeros(n - 1);
      assert Zeros(n)[..1] + Zeros(n - 1) == Zeros(n);
      NonPadsOfZeros(n);
    }
  }

  /** Everything but the router options, and the address of the first router. */
  function Goal(os: seq<DhcpOption>, tail: Bytes, padding: nat, found: nat): (r: (Bytes, nat))
    requires ValidOptions(os)
  {
    if os == [] then (tail + Zeros(padding), found)
    else if IsRouter(os[0]) then Goal(os[1..], tail, padding + |Encode(os[0])|, NextFound(os[0], found))
    else
      var r := Goal(os[1..], tail, padding, found);
      (Encode(os[0]) + r.0, r.1)
  }

  lemma {:induction false} GoalIsLayout(os: seq<DhcpOption>, tail: Bytes, padding: nat, found: nat)
    requires ValidOptions(os)
    ensures Goal(os, tail, padding, found)
         == (Layout(WithoutRouters(os), tail, padding + RemovedLength(os)), FirstRouter(os, found))
    decreases |os|
  {
    if os != [] {
      if IsRouter(os[0]) {
        GoalIsLayout(os[1..], tail, padding + |Encode(os[0])|, NextFound(os[0], found));
      } else {
        GoalIsLayout(os[1..], tail, padding, found);
        LayoutOneMore(os[0], WithoutRouters(os[1..]), tail, padding + RemovedLength(os));
      }
    }
  }

  lemma {:induction false} ExtractIsGoal(os: seq<DhcpOption>, tail: Bytes, padding: nat, found: nat)
    requires ValidOptions(os) && (tail == [] || tail[0] == END)
    ensures Extract(Layout(os, tail, padding), found) == Goal(os, tail, padding, found)
    decreases |os|
  {
    if os == [] {
      NoOptions(os, tail, padding, found);
    } else if IsRouter(os[0]) {
      ExtractIsGoal(os[1..], tail, padding + |Encode(os[0])|, NextFound(os[0], found));
      RouterInFront(os, tail, padding, found);
    } else {
      ExtractIsGoal(os[1..], tail, padding, found);
      OtherInFront(os, tail, padding, found);
    }
  }

  /** On well-formed options the result is the same list without its router options, then the end
      option and whatever followed it, then padding; the address is that of the first router. */
  lemma ExtractWellFormed(os: seq<DhcpOption>, tail: Bytes, padding: nat, found: nat)
    requires ValidOptions(os) && (tail == [] || tail[0] == 255)
    ensures Extract(Layout(os, tail, padding), found)
         == (Layout(WithoutRouters(os), tail, padding + RemovedLength(os)), FirstRouter(os, found))
  {
    ExtractIsGoal(os, tail, padding, found);
    GoalIsLayout(os, tail, padding, found);
  }

  lemma RouterInFront(os: seq<DhcpOption>, tail: Bytes, padding: nat, found: nat)
    requires ValidOptions(os) && os != [] && IsRouter(os[0])
    requires var n, next := |Encode(os[0])|, NextFound(os[0], found);
             Extract(Layout(os[1..], tail, padding + n), next) == Goal(os[1..], tail, padding + n, next)
    ensures Extract(Layout(os, tail, padding), found) == Goal(os, tail, padding, found)
  {
    StepRouter(os[0], Layout(os[1..], tail, padding), found);
    PadMore(os[1..], tail, padding, |Encode(os[0])|);
  }

  lemma OtherInFront(os: seq<DhcpOption>, tail: Bytes, padding: nat, found: nat)
    requires ValidOptions(os) && os != [] && !IsRouter(os[0])
    requires Extract(Layout(os[1..], tail, padding), found) == Goal(os[1..], tail, padding, found)
    ensures Extract(Layout(os, tail, padding), found) == Goal(os, tail, padding, found)
  {
    StepOther(os[0], Layout(os[1..], tail, padding), found);
  }

  lemma NoOptions(os: seq<DhcpOption>, tail: Bytes, padding: nat, found: nat)
    requires os == [] && (tail == [] || tail[0] == END)
    ensures Extract(Layout(os, tail, padding), found) == Goal(os, tail, padding, found)
  {
    var x := tail + Zeros(padding);
    if tail == [] {
      ExtractZeros(padding, found);
      assert x == Zeros(padding);
    } else {
      assert x[0] == END;
    }
  }

  lemma {:induction false} PadMore(os: seq<DhcpOption>, tail: Bytes, padding: nat, n: nat)
    requires ValidOptions(os)
    ensures Layout(os, tail, padding) + Zeros(n) == Layout(os, tail, padding + n)
  {
    if os == [] {
      assert Zeros(padding) + Zeros(n) == Zeros(padding + n);
      assert tail + Zeros(padding) + Zeros(n) == tail + (Zeros(padding) + Zeros(n));
    } else {
      PadMore(os[1..], tail, padding, n);
      var e, rest := Encode(os[0]), Layout(os[1..], tail, padding);
      assert e + rest + Zeros(n) == e + (rest + Zeros(n));
    }
  }

  lemma LayoutOneMore(o: DhcpOption, os: seq<DhcpOption>, tail: Bytes, padding: nat)
    requires ValidOption(o) && ValidOptions(os)
    ensures Layout([o] + os, tail, padding) == Encode(o) + Layout(os, tail, padding)
  {
    assert ([o] + os)[1..] == os;
  }

  lemma StepOther(o: DhcpOption, rest: Bytes, found: nat)
    requires ValidOption(o) && !IsRouter(o)
    ensures Extract(Encode(o) + rest, found) == (Encode(o) + Extract(rest, found).0, Extract(rest, found).1)
  {
    HeadOption(o, rest);
  }

  lemma StepRouter(o: DhcpOption, rest: Bytes, found: nat)
    requires ValidOption(o) && IsRouter(o)
    ensures Extract(Encode(o) + rest, found) == Extract(rest + Zeros(|Encode(o)|), NextFound(o, found))
  {
    HeadOption(o, rest);
    var x := Encode(o) + rest;
    assert x[1] == |o.data|;
    assert Deleted(x) == rest + Zeros(|Encode(o)|);
    assert Address(x, found) == NextFound(o, found);
  }

  /** How the scan sees an encoded option in front of other bytes. */
  lemma HeadOption(o: DhcpOption, rest: Bytes)
    requires ValidOption(o)
    ensures var e := Encode(o);
            var x := e + rest;
            && x[..|e|] == e && x[|e|..] == rest
            && (IsRouter(o) ==> StartsWithRouter(x) && Total(x) == |e| && |e| == |o.data| + 2
                                && (|o.data| >= 4 ==> x[2..6] == o.data[..4]))
            && (!IsRouter(o) ==> !StartsWithRouter(x) && StartsWithOther(x) && OptionLength(x) == |e|)
  {
    var e := Encode(o);
    var x := e + rest;
    if o.Tagged? {
      assert x[0] == o.code && x[1] == |o.data|;
      assert x[2..|e|] == o.data;
      if |o.data| >= 4 {
        assert x[2..6] == x[2..|e|][..4];
      }
    }
  }

  /** The rewriting half of `dhcp_extract_router_msg`, on the options: only offers and acknowledgements are
      touched, their message type stays what it was, and only an acknowledgement yields an address. */
  method RewriteOptions(options: array<byte>) returns (touched: bool, address: nat)
    modifies options
    ensures var before := old(options[..]);
            var t := MessageType(before);
            && touched == (t == DHCPACK || t == DHCPOFFER)
            && options[..] == (if touched then Extract(before, 0).0 else before)
            && MessageType(options[..]) == t
            && address == (if t == DHCPACK then Extract(before, 0).1 else 0)
  {
    touched, address := false, 0;
    var t := GetMessageType(options);
    if t == DHCPACK || t == DHCPOFFER {
      TypeKeptExactly(options[..], 0);
      CutOffMeansNone(options[..], false);
      var found := DoExtract(options);
      touched := true;
      if t == DHCPACK {
        address := found;
      }
    }
  }

  // ---- The packet ---------------------------------------------------------------------------------------

  const UDP := 20
  const UDP_CHECK := 26
  const BOOTP := 28
  const OPTIONS := 268
  const IPPROTO_UDP := 17

  /** A UDP packet from the server port to the client port that carries a BOOTP reply. */
  predicate IsReply(p: Bytes) {
    && |p| >= OPTIONS
    && p[9] == IPPROTO_UDP
    && p[UDP..UDP + 2] == [0, 67] && p[UDP + 2..UDP + 4] == [0, 68]
    && p[BOOTP] == 2
  }

  /** The words of the UDP datagram and of its pseudo header sum to zero. */
  predicate ChecksumIsCorrect(p: Bytes)
    requires |p| >= OPTIONS
  {
    Congruent(WordSum(p[UDP..]) + Pseudo(p[12..16], p[16..20], |p| - UDP, IPPROTO_UDP), 0)
  }

  predicate IsRewritten(p: Bytes) {
    IsReply(p) && (MessageType(p[OPTIONS..]) == 5 || MessageType(p[OPTIONS..]) == 2)
  }

  /** `after` is `before` without its router options: headers, the rest of the BOOTP message and the message type
      are as before, and the UDP checksum is correct. */
  predicate RoutersRemoved(before: Bytes, after: Bytes)
    requires |before| >= OPTIONS
  {
    && |after| == |before|
    && after[..UDP_CHECK] == before[..UDP_CHECK] && after[BOOTP..OPTIONS] == before[BOOTP..OPTIONS]
    && after[OPTIONS..] == Extract(before[OPTIONS..], 0).0
    && MessageType(after[OPTIONS..]) == MessageType(before[OPTIONS..])
    && ChecksumIsCorrect(after)
  }

  /** `dhcp_extract_router_msg` on a packet whose UDP length fits its 16-bit field: exactly the replies that
      offer or acknowledge are rewritten, and only an acknowledgement yields an address. */
  method ExtractRouterMsg(p: array<byte>) returns (address: nat)
    requires p.Length - UDP <= 0xffff
    modifies p
    ensures var before := old(p[..]);
            if IsRewritten(before) then
              && RoutersRemoved(before, p[..])
              && address == (if MessageType(before[OPTIONS..]) == DHCPACK then Extract(before[OPTIONS..], 0).1 else 0)
            else p[..] == before && address == 0
  {
    ghost var before := p[..];
    if !IsReply(p[..]) {
      return 0;
    }
    var options := CopyOptions(p);
    var touched;
    touched, address := RewriteOptions(options);
    if touched {
      WriteBack(p, options);
      ghost var field := Recompute(p);
      Assembled(before, options[..], field, p[..]);
    }
  }

  method CopyOptions(p: array<byte>) returns (options: array<byte>)
    requires p.Length >= OPTIONS
    ensures fresh(options) && options[..] == p[..][OPTIONS..]
  {
    options := new byte[p.Length - OPTIONS];
    forall i | 0 <= i < options.Length {
      options[i] := p[OPTIONS + i];
    }
  }

  /** The options as they stand in the packet. */
  method WriteBack(p: array<byte>, options: array<byte>)
    requires p != options && p.Length == OPTIONS + options.Length
    modifies p
    ensures p[..] == old(p[..])[..OPTIONS] + options[..]
  {
    forall i | 0 <= i < options.Length {
      p[OPTIONS + i] := options[i];
    }
  }

  /** The checksum field is cleared and computed afresh. */
  method Recompute(p: array<byte>) returns (ghost field: Bytes)
    requires OPTIONS <= p.Length <= 0xffff + UDP
    modifies p
    ensures |field| == 2 && p[..] == old(p[..])[..UDP_CHECK] + field + old(p[..])[BOOTP..]
    ensures ChecksumIsCorrect(p[..])
  {
    p[UDP_CHECK], p[UDP_CHECK + 1] := 0, 0;
    ghost var front, back := p[UDP..UDP_CHECK], p[BOOTP..];
    assert p[UDP..] == front + [0, 0] + back;
    var r := IpChecksum(p[UDP..], p[12..16], p[16..20], IPPROTO_UDP);
    p[UDP_CHECK], p[UDP_CHECK + 1] := r / 256, r % 256;
    field := [r / 256, r % 256];
    assert p[..][UDP..] == front + field + back;
    assert p[..][12..16] == p[12..16] && p[..][16..20] == p[16..20];
    FieldInSum(front, back, r);
  }

  lemma Assembled(before: Bytes, options: Bytes, field: Bytes, after: Bytes)
    requires |before| == OPTIONS + |options| && |field| == 2
    requires options == Extract(before[OPTIONS..], 0).0 && MessageType(options) == MessageType(before[OPTIONS..])
    requires after == (before[..OPTIONS] + options)[..UDP_CHECK] + field + (before[..OPTIONS] + options)[BOOTP..]
    requires ChecksumIsCorrect(after)
    ensures RoutersRemoved(before, after)
  {
    var head, mid := before[..UDP_CHECK], before[BOOTP..OPTIONS];
    assert (before[..OPTIONS] + options)[..UDP_CHECK] == head;
    assert (before[..OPTIONS] + options)[BOOTP..] == mid + options;
    FourParts(head, field, mid, options, after);
  }

  lemma FourParts(head: Bytes, field: Bytes, mid: Bytes, options: Bytes, after: Bytes)
    requires |head| == UDP_CHECK && |field| == 2 && |mid| == OPTIONS - BOOTP && after == head + field + (mid + options)
    ensures after[..UDP_CHECK] == head && after[BOOTP..OPTIONS] == mid && after[OPTIONS..] == options
  {
  }

  lemma FieldInSum(front: Bytes, back: Bytes, r: nat)
    requires |front| % 2 == 0 && r < 0x1_0000
    ensures WordSum(front + [r / 256, r % 256] + back) == r + WordSum(front + [0, 0] + back)
  {
    var field: Bytes, zero: Bytes := [r / 256, r % 256], [0, 0];
    assert front + field + back == front + (field + back) && front + zero + back == front + (zero + back);
    WordSumConcat(front, field + back);
    WordSumConcat(front, zero + back);
    assert (field + back)[2..] == back && (zero + back)[2..] == back;
  }

  // ---- The fields, by what they mean --------------------------------------------------------------

  /** The address a router option carries. */
  predicate Carries(o: DhcpOption, a: nat) {
    o.Tagged? && o.code == 3 && |o.data| >= 4 && |o.data| % 4 == 0 && FromBigEndian(o.data[..4]) == a
  }

  /** The address found is that of the first router option that carries one other than 0.0.0.0, and 0 if none does. */
  lemma {:induction false} FirstRouterIsFirst(os: seq<DhcpOption>, i: nat, a: nat)
    requires ValidOptions(os)
    ensures (i < |os| && a != 0 && Carries(os[i], a) && (forall j, b :: 0 <= j < i && Carries(os[j], b) ==> b == 0)) ==>
              FirstRouter(os, 0) == a
    ensures (forall j, b :: 0 <= j < |os| && Carries(os[j], b) ==> b == 0) ==> FirstRouter(os, 0) == 0
    decreases |os|
  {
    if os != [] {
      var rest, next := os[1..], NextFound(os[0], 0);
      assert next != 0 ==> Carries(os[0], next);
      if next == 0 {
        FirstRouterIsFirst(rest, if i == 0 then 0 else i - 1, a);
      } else {
        FoundIsKept(rest, next);
      }
    }
  }

  lemma {:induction false} FoundIsKept(os: seq<DhcpOption>, found: nat)
    requires ValidOptions(os) && found != 0
    ensures FirstRouter(os, found) == found
  {
    if os != [] {
      FoundIsKept(os[1..], found);
    }
  }

  /** On well-formed options the message type is that of the first message type option with one byte, and there is
      none without such an option. */
  lemma {:induction false} TypeOfOptions(os: seq<DhcpOption>, tail: Bytes, padding: nat, i: nat)
    requires ValidOptions(os) && (tail == [] || tail[0] == END) && i <= |os|
    requires forall j :: 0 <= j < i ==> os[j].Tagged? ==> os[j].code != 53
    requires i < |os| ==> os[i].Tagged? && os[i].code == 53
    ensures MessageType(Layout(os, tail, padding)) == if i < |os| && |os[i].data| == 1 then os[i].data[0] else -1
    decreases |os|
  {
    if os == [] {
      TypeOfTail(tail, padding);
    } else {
      var rest := Layout(os[1..], tail, padding);
      HeadOption(os[0], rest);
      if i == 0 {
        TypeInFront(os[0], rest);
      } else {
        TypeOfOptions(os[1..], tail, padding, i - 1);
        TypeBehind(os[0], rest);
      }
    }
  }

  lemma TypeInFront(o: DhcpOption, rest: Bytes)
    requires ValidOption(o) && o.Tagged? && o.code == 53
    ensures MessageType(Encode(o) + rest) == if |o.data| == 1 then o.data[0] else -1
  {
    var x := Encode(o) + rest;
    assert x[0] == 53 && x[1] == |o.data|;
    if |o.data| == 1 {
      assert x[2] == o.data[0];
    }
  }

  lemma TypeBehind(o: DhcpOption, rest: Bytes)
    requires ValidOption(o) && (o.Tagged? ==> o.code != 53)
    ensures MessageType(Encode(o) + rest) == MessageType(rest)
  {
    var x := Encode(o) + rest;
    if o.Tagged? {
      assert x[0] == o.code && x[1] == |o.data| && x[|o.data| + 2..] == rest;
    } else {
      assert x[0] == PAD && x[1..] == rest;
    }
  }

  lemma {:induction false} TypeOfTail(tail: Bytes, padding: nat)
    requires tail == [] || tail[0] == END
    ensures MessageType(tail + Zeros(padding)) == -1
    decreases padding
  {
    var x := tail + Zeros(padding);
    if tail == [] && padding > 0 {
      TypeOfTail(tail, padding - 1);
      assert x[1..] == tail + Zeros(padding - 1);
    }
  }

  /** The header test by the fields of the packet: UDP, from port 67 to port 68, a BOOTP reply. */
  lemma ReplyFields(ip: Bytes, source: nat, dest: nat, rest: Bytes)
    requires |ip| == 20 && source < 65536 && dest < 65536 && |rest| >= 244
    ensures IsReply(ip + BigEndian(source, 2) + BigEndian(dest, 2) + rest)
            <==> ip[9] == 17 && source == 67 && dest == 68 && rest[4] == 2
  {
    var p := ip + BigEndian(source, 2) + BigEndian(dest, 2) + rest;
    assert Pow256(2) == 65536;
    BigEndianRoundTrip(source, 2);
    BigEndianRoundTrip(dest, 2);
    assert BigEndian(67, 2) == [0, 67] && BigEndian(68, 2) == [0, 68];
    assert p[20..22] == BigEndian(source, 2) && p[22..24] == BigEndian(dest, 2) && p[9] == ip[9] && p[28] == rest[4];
  }
}

/** One-to-one address translation for clients (clinat.c). */
module ClientNat {
  import opened Bytes
  import opened Checksum

  // ---- Addresses -------------------------------------------------------------------------------

  /** An address or a mask as its 32 bits, the most significant first. */
  type Addr = b: seq<bool> | |b| == 32 witness seq(32, i => false)

  function Network(a: Addr, mask: Addr): Addr {
    seq(32, i requires 0 <= i < 32 => a[i] && mask[i])
  }

  function Host(a: Addr, mask: Addr): Addr {
    seq(32, i requires 0 <= i < 32 => a[i] && !mask[i])
  }

  function Either(a: Addr, b: Addr): Addr {
    seq(32, i requires 0 <= i < 32 => a[i] || b[i])
  }

  function Number(bits: seq<bool>): nat {
    if bits == [] then 0 else 2 * Number(bits[..|bits| - 1]) + if bits[|bits| - 1] then 1 else 0
  }

  lemma {:induction false} NumberBound(bits: seq<bool>)
    ensures Number(bits) < Pow2(|bits|)
  {
    if bits != [] {
      NumberBound(bits[..|bits| - 1]);
    }
  }

  lemma Pow2Of16()
    ensures Pow2(16) == 0x1_0000
  {
    assert Pow2(8) == 0x100;
    assert Pow2(12) == 0x1000;
  }

  /** The two 16-bit words of an address, added. */
  function Words(a: Addr): nat {
    Number(a[..16]) + Number(a[16..])
  }

  /** The leading bit counts most. */
  lemma {:induction false} LeadingBit(first: bool, rest: seq<bool>)
    ensures Number([first] + rest) == (if first then Pow2(|rest|) else 0) + Number(rest)
    decreases |rest|
  {
    if rest == [] {
      assert [first] + rest == [first] && [first][..0] == [];
    } else {
      var init := rest[..|rest| - 1];
      LeadingBit(first, init);
      assert ([first] + rest)[..|rest|] == [first] + init;
    }
  }

  lemma {:induction false} NumberConcat(a: seq<bool>, b: seq<bool>)
    ensures Number(a + b) == Number(a) * Pow2(|b|) + Number(b)
    decreases |b|
  {
    if b == [] {
      assert a + b == a;
    } else {
      var init, q := b[..|b| - 1], Pow2(|b| - 1);
      NumberConcat(a, init);
      assert (a + b)[..|a + b| - 1] == a + init;
      Doubled(Number(a), q);
    }
  }

  lemma Doubled(x: int, y: int)
    ensures x * (2 * y) == 2 * (x * y)
  {
  }

  /** The two words of an address are, in one's complement, the 32-bit number it is. */
  lemma WordsAreTheAddress(a: Addr)
    ensures Congruent(Words(a), Number(a))
  {
    assert a == a[..16] + a[16..];
    NumberConcat(a[..16], a[16..]);
    Pow2Of16();
    var high: int := Number(a[..16]);
    assert Number(a) == Words(a) + 0xffff * high;
    Multiples(Words(a), Number(a), -high);
  }

  lemma WordsBound(a: Addr)
    ensures Words(a) < 0x2_0000
  {
    NumberBound(a[..16]);
    NumberBound(a[16..]);
    Pow2Of16();
  }

  // ---- Rules -----------------------------------------------------------------------------------

  /** A source or destination rule between a network and the range it appears as on the far side. */
  datatype Entry = Entry(dnat: bool, network: Addr, netmask: Addr, foreign: Addr)

  function From(e: Entry, incoming: bool): Addr {
    if incoming then e.foreign else e.network
  }

  function To(e: Entry, incoming: bool): Addr {
    if incoming then e.network else e.foreign
  }

  predicate Hits(e: Entry, dnat: bool, incoming: bool, a: Addr) {
    e.dnat == dnat && Network(a, e.netmask) == From(e, incoming)
  }

  function Translated(e: Entry, incoming: bool, a: Addr): Addr {
    Either(Host(a, e.netmask), To(e, incoming))
  }

  /** An address under the rules of one type: the first that hits it rewrites it. */
  function Rewritten(rules: seq<Entry>, dnat: bool, incoming: bool, a: Addr): Addr {
    if rules == [] then a
    else if Hits(rules[0], dnat, incoming, a) then Translated(rules[0], incoming, a)
    else Rewritten(rules[1..], dnat, incoming, a)
  }

  /** Field and address words together are what they were, in one's complement. */
  ghost predicate Balanced(check: Word, sum: nat, wasCheck: Word, wasSum: nat) {
    Congruent(check + sum, wasCheck + wasSum)
  }

  datatype Protocol = Tcp | Udp | Other

  /** The headers of a packet; `long` says that it is long enough for its transport header. */
  class IpPacket {
    var saddr: Addr
    var daddr: Addr
    var check: Word
    var transportCheck: Word
    const protocol: Protocol
    const long: bool

    constructor (s: Addr, d: Addr, c: Word, t: Word, p: Protocol, l: bool)
      ensures saddr == s && daddr == d && check == c && transportCheck == t && protocol == p && long == l
    {
      saddr, daddr, check, transportCheck, protocol, long := s, d, c, t, p, l;
    }

    /** What the address words add to a checksum. */
    ghost function AddressSum(): nat
      reads this
    {
      Words(saddr) + Words(daddr)
    }

    predicate HasTransportCheck() {
      long && (protocol == Tcp || protocol == Udp)
    }

    /** `client_nat_transform`. */
    method Transform(rules: seq<Entry>, incoming: bool)
      modifies this
      ensures saddr == Rewritten(rules, incoming, incoming, old(saddr))
      ensures daddr == Rewritten(rules, !incoming, incoming, old(daddr))
      ensures BothLand(rules, incoming, old(saddr), old(daddr), saddr, daddr)
      ensures Balanced(check, AddressSum(), old(check), old(AddressSum()))
      ensures if long && (protocol == Tcp || protocol == Udp)
              then Balanced(transportCheck, AddressSum(), old(transportCheck), old(AddressSum()))
              else transportCheck == old(transportCheck)
      ensures !old(Touched(rules, incoming, saddr, daddr)) ==>
                check == old(check) && transportCheck == old(transportCheck)
    {
      ghost var before := AddressSum();
      var accumulate, changed := RewriteAddresses(rules, incoming);
      AdjustChecks(accumulate, changed, before);
      RewrittenBothLand(rules, incoming, old(saddr), old(daddr));
    }

    /** Its end: the checksums follow the addresses. */
    method AdjustChecks(accumulate: int, changed: bool, ghost before: nat)
      requires accumulate == before - AddressSum() && -0x4_0000 < accumulate < 0x4_0000
      requires !changed ==> accumulate == 0
      modifies this`check, this`transportCheck
      ensures Balanced(check, AddressSum(), old(check), before)
      ensures HasTransportCheck() ==> Balanced(transportCheck, AddressSum(), old(transportCheck), before)
      ensures !HasTransportCheck() ==> transportCheck == old(transportCheck)
      ensures !changed ==> check == old(check) && transportCheck == old(transportCheck)
    {
      ghost var now := AddressSum();
      if changed {
        check := Rebalance(accumulate, check, now, before);
        AdjustTransport(accumulate, before);
      } else {
        Unchanged(check, now, before);
        Unchanged(transportCheck, now, before);
      }
    }

    /** The checksum of the transport header, if the packet has one. */
    method AdjustTransport(accumulate: int, ghost before: nat)
      requires accumulate == before - AddressSum() && -0x4_0000 < accumulate < 0x4_0000
      modifies this`transportCheck
      ensures HasTransportCheck() ==> Balanced(transportCheck, AddressSum(), old(transportCheck), before)
      ensures !HasTransportCheck() ==> transportCheck == old(transportCheck)
    {
      if protocol == Tcp {
        if long {
          transportCheck := Rebalance(accumulate, transportCheck, AddressSum(), before);
        }
      } else if protocol == Udp {
        if long {
          transportCheck := Rebalance(accumulate, transportCheck, AddressSum(), before);
        }
      }
    }

    /** Its loop: the addresses, the accumulated change, and whether there was a rewrite. */
    method RewriteAddresses(rules: seq<Entry>, incoming: bool) returns (accumulate: int, changed: bool)
      modifies this`saddr, this`daddr
      ensures saddr == Rewritten(rules, incoming, incoming, old(saddr))
      ensures daddr == Rewritten(rules, !incoming, incoming, old(daddr))
      ensures accumulate == old(AddressSum()) - AddressSum()
      ensures -0x4_0000 < accumulate < 0x4_0000
      ensures changed ==> old(Touched(rules, incoming, saddr, daddr))
      ensures !changed ==> saddr == old(saddr) && daddr == old(daddr) && accumulate == 0
    {
      SumBound();
      accumulate := 0;
      var sourceDone, destDone := false, false;
      var i := 0;
      assert rules[0..] == rules;
      while i < |rules|
        invariant 0 <= i <= |rules|
        invariant Progress(rules, i, incoming, incoming, old(saddr), saddr, sourceDone)
        invariant Progress(rules, i, !incoming, incoming, old(daddr), daddr, destDone)
        invariant accumulate == old(AddressSum()) - AddressSum()
        invariant sourceDone || destDone ==> Touched(rules, incoming, old(saddr), old(daddr))
      {
        var e := rules[i];
        var addr, done, change;
        if e.dnat != incoming {
          addr, done, change := TryRule(rules, i, incoming, old(daddr), daddr, destDone);
          ProgressOther(rules, i, incoming, old(saddr), saddr, sourceDone);
          daddr, destDone := addr, done;
        } else {
          addr, done, change := TryRule(rules, i, incoming, old(saddr), saddr, sourceDone);
          ProgressOther(rules, i, incoming, old(daddr), daddr, destDone);
          saddr, sourceDone := addr, done;
        }
        accumulate := accumulate + change;
        i := i + 1;
      }
      assert rules[|rules|..] == [];
      changed := sourceDone || destDone;
      SumBound();
    }

    lemma SumBound()
      ensures AddressSum() < 0x4_0000
    {
      WordsBound(saddr);
      WordsBound(daddr);
    }
  }

  /** Some rule hits one of the two addresses. */
  ghost predicate Touched(rules: seq<Entry>, incoming: bool, s: Addr, d: Addr) {
    exists k :: 0 <= k < |rules| && (Hits(rules[k], incoming, incoming, s) || Hits(rules[k], !incoming, incoming, d))
  }

  /** Where an address stands when the rules before `i` have been tried. */
  ghost predicate Progress(rules: seq<Entry>, i: nat, dnat: bool, incoming: bool, was: Addr, addr: Addr, done: bool) {
    i <= |rules| &&
    if done then addr == Rewritten(rules, dnat, incoming, was)
    else addr == was && Rewritten(rules, dnat, incoming, was) == Rewritten(rules[i..], dnat, incoming, was)
  }

  /** One rule on the address it is about, and the change of the address words. */
  method TryRule(rules: seq<Entry>, i: nat, incoming: bool, ghost was: Addr, addr: Addr, done: bool)
    returns (addr': Addr, done': bool, change: int)
    requires i < |rules| && Progress(rules, i, rules[i].dnat, incoming, was, addr, done)
    ensures Progress(rules, i + 1, rules[i].dnat, incoming, was, addr', done')
    ensures change == Words(addr) - Words(addr')
    ensures done' && !done ==> Hits(rules[i], rules[i].dnat, incoming, was)
    ensures done ==> done'
  {
    var e := rules[i];
    addr', done', change := addr, done, 0;
    assert rules[i..][0] == e && rules[i..][1..] == rules[i + 1..];
    if Network(addr, e.netmask) == From(e, incoming) && !done {
      change := Words(addr);
      addr' := Translated(e, incoming, addr);
      change := change - Words(addr');
      done' := true;
    }
  }

  lemma ProgressOther(rules: seq<Entry>, i: nat, incoming: bool, was: Addr, addr: Addr, done: bool)
    requires i < |rules| && Progress(rules, i, !rules[i].dnat, incoming, was, addr, done)
    ensures Progress(rules, i + 1, !rules[i].dnat, incoming, was, addr, done)
  {
    assert rules[i..][0] == rules[i] && rules[i..][1..] == rules[i + 1..];
  }

  // ---- Replies -----------------------------------------------------------------------------------

  function Fill(v: bool): Addr {
    seq(32, i => v)
  }

  predicate Aligned(e: Entry) {
    Host(e.network, e.netmask) == Fill(false) && Host(e.foreign, e.netmask) == Fill(false)
  }

  /** No address lies in the foreign ranges of both. */
  ghost predicate Disjoint(e: Entry, f: Entry) {
    forall a: Addr :: !(Hits(e, e.dnat, true, a) && Hits(f, e.dnat, true, a))
  }

  ghost predicate Invertible(rules: seq<Entry>) {
    && AllAligned(rules)
    && (forall i, j :: 0 <= i < j < |rules| && rules[i].dnat == rules[j].dnat ==> Disjoint(rules[i], rules[j]))
  }

  /** A rule of the given type and direction hits the address. */
  ghost predicate HitBy(rules: seq<Entry>, dnat: bool, incoming: bool, a: Addr) {
    exists k :: 0 <= k < |rules| && Hits(rules[k], dnat, incoming, a)
  }

  lemma NoHostBits(n: Addr, mask: Addr, i: nat)
    requires i < 32 && Host(n, mask) == Fill(false) && n[i]
    ensures mask[i]
  {
    assert Host(n, mask)[i] == Fill(false)[i];
  }

  lemma TranslationInverts(e: Entry, a: Addr)
    requires Aligned(e) && Network(a, e.netmask) == e.network
    ensures Network(Translated(e, false, a), e.netmask) == e.foreign
    ensures Translated(e, true, Translated(e, false, a)) == a
  {
    var b := Translated(e, false, a);
    forall i | 0 <= i < 32
      ensures Network(b, e.netmask)[i] == e.foreign[i] && Translated(e, true, b)[i] == a[i]
    {
      if e.foreign[i] {
        NoHostBits(e.foreign, e.netmask, i);
      }
      assert Network(a, e.netmask)[i] == e.network[i];
    }
  }

  /** Translation by an aligned rule, in both directions: the network part becomes that of the other side, and the
      host part stays. */
  lemma TranslationKeepsHost(e: Entry, incoming: bool, a: Addr)
    requires Aligned(e)
    ensures Network(Translated(e, incoming, a), e.netmask) == if incoming then e.network else e.foreign
    ensures Host(Translated(e, incoming, a), e.netmask) == Host(a, e.netmask)
  {
    var b, to := Translated(e, incoming, a), if incoming then e.network else e.foreign;
    forall i | 0 <= i < 32
      ensures Network(b, e.netmask)[i] == to[i] && Host(b, e.netmask)[i] == Host(a, e.netmask)[i]
    {
      if to[i] {
        NoHostBits(to, e.netmask, i);
      }
    }
  }

  /** What becomes of an address: the first rule that hits it replaces its network part and keeps its host part;
      without one it stays. */
  ghost predicate Lands(rules: seq<Entry>, dnat: bool, incoming: bool, was: Addr, addr: Addr) {
    var k := FirstRule(rules, dnat, incoming, was);
    if k == |rules| then addr == was
    else
      && Network(addr, rules[k].netmask) == (if incoming then rules[k].network else rules[k].foreign)
      && Host(addr, rules[k].netmask) == Host(was, rules[k].netmask)
  }

  /** With aligned rules, both addresses of a packet. */
  ghost predicate BothLand(rules: seq<Entry>, incoming: bool, s: Addr, d: Addr, s': Addr, d': Addr) {
    AllAligned(rules) ==> Lands(rules, incoming, incoming, s, s') && Lands(rules, !incoming, incoming, d, d')
  }

  lemma RewrittenBothLand(rules: seq<Entry>, incoming: bool, s: Addr, d: Addr)
    ensures BothLand(rules, incoming, s, d, Rewritten(rules, incoming, incoming, s), Rewritten(rules, !incoming, incoming, d))
  {
    if AllAligned(rules) {
      RewrittenLands(rules, incoming, incoming, s);
      RewrittenLands(rules, !incoming, incoming, d);
    }
  }

  lemma RewrittenLands(rules: seq<Entry>, dnat: bool, incoming: bool, a: Addr)
    requires AllAligned(rules)
    ensures Lands(rules, dnat, incoming, a, Rewritten(rules, dnat, incoming, a))
  {
    var k := FirstRule(rules, dnat, incoming, a);
    FirstHit(rules, dnat, incoming, a);
    if k < |rules| {
      TranslationKeepsHost(rules[k], incoming, a);
    }
  }

  /** The first rule of the given type and direction that hits the address, or the number of rules. */
  function FirstRule(rules: seq<Entry>, dnat: bool, incoming: bool, a: Addr): (k: nat)
    ensures k <= |rules|
    ensures k < |rules| ==> Hits(rules[k], dnat, incoming, a)
    ensures forall j :: 0 <= j < k ==> !Hits(rules[j], dnat, incoming, a)
  {
    if rules == [] || Hits(rules[0], dnat, incoming, a) then 0
    else 1 + FirstRule(rules[1..], dnat, incoming, a)
  }

  /** The rewriting rule is the first that hits the original address. */
  lemma {:induction false} FirstHit(rules: seq<Entry>, dnat: bool, incoming: bool, a: Addr)
    ensures var k := FirstRule(rules, dnat, incoming, a);
            Rewritten(rules, dnat, incoming, a) == if k < |rules| then Translated(rules[k], incoming, a) else a
    decreases |rules|
  {
    if rules != [] && !Hits(rules[0], dnat, incoming, a) {
      FirstHit(rules[1..], dnat, incoming, a);
    }
  }

  ghost predicate AllAligned(rules: seq<Entry>) {
    forall i :: 0 <= i < |rules| ==> Aligned(rules[i])
  }

  /** The rules send an address out and take it back by the same rule, or leave it alone both ways. */
  predicate ComesBack(rules: seq<Entry>, dnat: bool, a: Addr) {
    var k := FirstRule(rules, dnat, false, a);
    if k < |rules| then FirstRule(rules, dnat, true, Translated(rules[k], false, a)) == k
    else FirstRule(rules, dnat, true, a) == |rules|
  }

  /** Out and back restores an address exactly when the rule that sends it out is also the first that takes its
      image in, or no rule sends it out and none takes it in. */
  lemma OutAndBack(rules: seq<Entry>, dnat: bool, a: Addr)
    requires AllAligned(rules)
    ensures Rewritten(rules, dnat, true, Rewritten(rules, dnat, false, a)) == a <==> ComesBack(rules, dnat, a)
  {
    var k := FirstRule(rules, dnat, false, a);
    var b := if k < |rules| then Translated(rules[k], false, a) else a;
    var j := FirstRule(rules, dnat, true, b);
    FirstHit(rules, dnat, false, a);
    FirstHit(rules, dnat, true, b);
    if k < |rules| {
      TranslationInverts(rules[k], a);
      assert Hits(rules[k], dnat, true, b);
    }
    if j < |rules| && j != k {
      TranslationKeepsHost(rules[j], true, b);
      assert !Hits(rules[j], dnat, false, a);
    }
  }

  /** The reply to a translated packet, translated as it comes in, carries the original addresses swapped, exactly
      when both come back. */
  lemma ReplyIsRestored(rules: seq<Entry>, s: Addr, d: Addr)
    requires AllAligned(rules)
    ensures var replySource := Rewritten(rules, true, false, d);
            var replyDest := Rewritten(rules, false, false, s);
            var restored := Rewritten(rules, true, true, replySource) == d && Rewritten(rules, false, true, replyDest) == s;
            restored <==> ComesBack(rules, false, s) && ComesBack(rules, true, d)
  {
    OutAndBack(rules, false, s);
    OutAndBack(rules, true, d);
  }

  /** The same on packets: one goes out, and a reply to it comes in, from where it went to where it came from. */
  method SendAndReply(rules: seq<Entry>, packet: IpPacket, check: Word, transportCheck: Word) returns (reply: IpPacket)
    requires AllAligned(rules)
    modifies packet
    ensures (reply.saddr == old(packet.daddr) && reply.daddr == old(packet.saddr)) <==>
            ComesBack(rules, false, old(packet.saddr)) && ComesBack(rules, true, old(packet.daddr))
  {
    ReplyIsRestored(rules, packet.saddr, packet.daddr);
    packet.Transform(rules, false);
    reply := new IpPacket(packet.daddr, packet.saddr, check, transportCheck, packet.protocol, packet.long);
    reply.Transform(rules, true);
  }

  /** With disjoint foreign ranges an address comes back exactly when a rule sends it out or none takes it in. */
  lemma DisjointRulesComeBack(rules: seq<Entry>, dnat: bool, a: Addr)
    requires Invertible(rules)
    ensures ComesBack(rules, dnat, a) <==> HitBy(rules, dnat, false, a) || !HitBy(rules, dnat, true, a)
  {
    var k := FirstRule(rules, dnat, false, a);
    if k < |rules| {
      var b := Translated(rules[k], false, a);
      TranslationInverts(rules[k], a);
      var j := FirstRule(rules, dnat, true, b);
      assert Hits(rules[k], dnat, true, b);
      SameRule(rules, dnat, j, k, b);
    }
  }

  /** With disjoint foreign ranges only one rule of a type takes an address in. */
  lemma SameRule(rules: seq<Entry>, dnat: bool, j: nat, k: nat, b: Addr)
    requires Invertible(rules) && j < |rules| && k < |rules|
    requires Hits(rules[j], dnat, true, b) && Hits(rules[k], dnat, true, b)
    ensures j == k
  {
    assert forall e, f :: Disjoint(e, f) && Hits(e, e.dnat, true, b) ==> !Hits(f, e.dnat, true, b);
  }

  /** Two aligned rules with the same foreign range: the reply goes to the wrong host. */
  lemma OverlapWitness(first: Entry, second: Entry)
    requires first.dnat == second.dnat && first.network == Fill(false) && second.network == Fill(true)
    requires first.netmask == first.foreign == second.netmask == second.foreign == Fill(true)
    ensures Aligned(first) && Aligned(second) && HitBy([first, second], first.dnat, false, Fill(true))
    ensures Rewritten([first, second], first.dnat, true, Rewritten([first, second], first.dnat, false, Fill(true)))
         != Fill(true)
  {
    var zero, ones, rules := Fill(false), Fill(true), [first, second];
    assert zero[0] != ones[0];
    assert Network(ones, ones) == ones && Host(zero, ones) == zero && Host(ones, ones) == zero;
    assert Either(zero, ones) == ones && Either(zero, zero) == zero;
    assert Hits(rules[1], first.dnat, false, ones);
    assert rules[1..] == [second];
    assert Rewritten([second], first.dnat, false, ones) == ones;
    assert Rewritten(rules, first.dnat, true, ones) == zero;
  }
}

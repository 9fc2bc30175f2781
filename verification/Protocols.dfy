/**
 * Matching the protocols of two peers, p2p/peer.go: both sides lay the shared
 * protocols out over the message codes, in the order of their names, and route
 * messages by code.
 */
module Protocols {
  import opened Wrappers
  import opened ByteOrder
  import opened Sums

  const BASE_PROTOCOL_LENGTH: nat := 16

  type Name = seq<int>

  datatype Protocol = Protocol(name: Name, version: nat, length: nat)
  datatype Cap = Cap(name: Name, version: nat)

  /** A running protocol and the first code it owns. */
  datatype ProtoRW = ProtoRW(proto: Protocol, offset: nat)
  type Running = map<Name, ProtoRW>

  // ----- capabilities in order -----

  predicate CapLess(a: Cap, b: Cap) {
    Lt(a.name, b.name) || (a.name == b.name && a.version < b.version)
  }

  ghost predicate IsSorted(caps: seq<Cap>) {
    forall i, j :: 0 <= i < j < |caps| ==> !CapLess(caps[j], caps[i])
  }

  lemma NotLessTransitive(a: Cap, b: Cap, c: Cap)
    requires !CapLess(b, a) && !CapLess(c, b)
    ensures !CapLess(c, a)
  {
    LtTotal(a.name, b.name);
    LtTotal(b.name, c.name);
    LtTotal(a.name, c.name);
    if Lt(a.name, b.name) && Lt(b.name, c.name) {
      LtTransitive(a.name, b.name, c.name);
    }
  }

  /** sort.Sort: the same capabilities in order. */
  method SortCaps(caps: seq<Cap>) returns (sorted: seq<Cap>)
    ensures IsSorted(sorted) && multiset(sorted) == multiset(caps)
  {
    sorted := [];
    for i := 0 to |caps|
      invariant IsSorted(sorted) && multiset(sorted) == multiset(caps[..i])
    {
      assert caps[..i + 1] == caps[..i] + [caps[i]];
      sorted := InsertCap(sorted, caps[i]);
    }
    assert caps[..|caps|] == caps;
  }

  method InsertCap(sorted: seq<Cap>, cap: Cap) returns (more: seq<Cap>)
    requires IsSorted(sorted)
    ensures IsSorted(more) && multiset(more) == multiset(sorted) + multiset{cap}
  {
    hide CapLess;
    var k := |sorted|;
    while k > 0 && CapLess(cap, sorted[k - 1])
      invariant 0 <= k <= |sorted|
      invariant forall j :: k <= j < |sorted| ==> CapLess(cap, sorted[j])
    {
      k := k - 1;
    }
    more := sorted[..k] + [cap] + sorted[k..];
    assert sorted == sorted[..k] + sorted[k..];
    Placed(sorted, cap, k);
  }

  lemma Placed(sorted: seq<Cap>, cap: Cap, k: nat)
    requires IsSorted(sorted) && k <= |sorted| && (k > 0 ==> !CapLess(cap, sorted[k - 1]))
    requires forall j :: k <= j < |sorted| ==> CapLess(cap, sorted[j])
    ensures IsSorted(sorted[..k] + [cap] + sorted[k..])
  {
    hide CapLess;
    var more := sorted[..k] + [cap] + sorted[k..];
    forall i, j | 0 <= i < j < |more| ensures !CapLess(more[j], more[i]) {
      if j == k {
        if i < k - 1 {
          NotLessTransitive(sorted[i], sorted[k - 1], cap);
        }
      } else if i == k {
        LessIsStrict(cap, sorted[j - 1]);
      } else if i < k && j > k {
        assert more[j] == sorted[j - 1];
      }
    }
  }

  lemma LessIsStrict(a: Cap, b: Cap)
    requires CapLess(a, b)
    ensures !CapLess(b, a)
  {
    LtTotal(a.name, b.name);
  }

  // ----- matching -----

  predicate Matches(p: Protocol, cap: Cap) {
    p.name == cap.name && p.version == cap.version
  }

  ghost predicate IsShared(protocols: seq<Protocol>, cap: Cap) {
    exists p :: p in protocols && Matches(p, cap)
  }

  /** The first protocol in the list with the capability. */
  ghost predicate IsFirst(protocols: seq<Protocol>, cap: Cap, p: Protocol) {
    exists k :: 0 <= k < |protocols| && protocols[k] == p && Matches(p, cap)
                && forall j :: 0 <= j < k ==> !Matches(protocols[j], cap)
  }

  ghost function Lengths(running: Running): Name -> int {
    (name: Name) => if name in running then running[name].proto.length else 0
  }

  ghost function Before(running: Running, name: Name): set<Name> {
    set m | m in running && Lt(m, name)
  }

  ghost function Total(running: Running): int {
    Sum(running.Keys, Lengths(running))
  }

  /** Each protocol starts where those with smaller names end. */
  ghost predicate IsLaidOut(running: Running) {
    forall name :: name in running ==>
      running[name].offset == BASE_PROTOCOL_LENGTH + Sum(Before(running, name), Lengths(running))
  }

  /** Exactly the shared names run, each in the highest shared version. */
  ghost predicate IsMatched(protocols: seq<Protocol>, caps: seq<Cap>, running: Running) {
    && (forall cap :: cap in caps && IsShared(protocols, cap) ==>
          cap.name in running && cap.version <= running[cap.name].proto.version)
    && (forall name :: name in running ==>
          var p := running[name].proto;
          p.name == name && Cap(name, p.version) in caps && IsFirst(protocols, Cap(name, p.version), p))
  }

  /** Finds the first protocol for a capability. */
  method FindProtocol(protocols: seq<Protocol>, cap: Cap) returns (found: Option<Protocol>)
    ensures found.None? <==> !IsShared(protocols, cap)
    ensures found.None? <==> forall p :: p in protocols ==> p.name != cap.name || p.version != cap.version
    ensures found.Some? ==> IsFirst(protocols, cap, found.value)
    ensures found.Some? ==> found.value.name == cap.name && found.value.version == cap.version
  {
    for i := 0 to |protocols|
      invariant forall j :: 0 <= j < i ==> !Matches(protocols[j], cap)
    {
      if Matches(protocols[i], cap) {
        assert protocols[i] in protocols;
        return Some(protocols[i]);
      }
    }
    return None;
  }

  /** matchProtocols. */
  method MatchProtocols(protocols: seq<Protocol>, caps: seq<Cap>) returns (running: Running)
    ensures IsMatched(protocols, caps, running) && IsLaidOut(running)
  {
    hide IsMatched, IsLaidOut, IsShared, IsFirst, Total, CapLess;
    var sorted := SortCaps(caps);
    var offset: nat := BASE_PROTOCOL_LENGTH;
    running := map[];
    NothingMatched(protocols);
    for i := 0 to |sorted|
      invariant IsMatched(protocols, sorted[..i], running) && IsLaidOut(running)
      invariant offset == BASE_PROTOCOL_LENGTH + Total(running)
    {
      var cap := sorted[i];
      var found := FindProtocol(protocols, cap);
      if found.Some? {
        UpToHere(protocols, sorted, i, running);
        AssignMatched(protocols, sorted, i, running, found.value, offset);
        Reverted(running, cap.name);
        if cap.name in running {
          offset := offset - running[cap.name].proto.length;
        }
        AssignLaidOut(running, cap.name, found.value, offset);
        running := running[cap.name := ProtoRW(found.value, offset)];
        offset := offset + found.value.length;
      } else {
        SkipMatched(protocols, sorted, i, running);
      }
    }
    assert sorted[..|sorted|] == sorted;
    SameCaps(protocols, sorted, caps, running);
  }

  lemma NothingMatched(protocols: seq<Protocol>)
    ensures IsMatched(protocols, [], map[]) && IsLaidOut(map[]) && Total(map[]) == 0
  {
  }

  /** In sorted order, no running protocol has a name above the next capability's, and
      none with its name a higher version. */
  lemma UpToHere(protocols: seq<Protocol>, sorted: seq<Cap>, i: nat, running: Running)
    requires IsSorted(sorted) && i < |sorted| && IsMatched(protocols, sorted[..i], running)
    ensures forall name :: name in running ==> name == sorted[i].name || Lt(name, sorted[i].name)
    ensures sorted[i].name in running ==> running[sorted[i].name].proto.version <= sorted[i].version
  {
    hide IsFirst, IsShared;
    forall name | name in running
      ensures name == sorted[i].name || Lt(name, sorted[i].name)
      ensures name == sorted[i].name ==> running[name].proto.version <= sorted[i].version
    {
      var cap := Cap(name, running[name].proto.version);
      var k :| 0 <= k < i && sorted[..i][k] == cap;
      assert !CapLess(sorted[i], sorted[k]);
      LtTotal(name, sorted[i].name);
    }
  }

  lemma AssignMatched(protocols: seq<Protocol>, sorted: seq<Cap>, i: nat, running: Running, p: Protocol, offset: nat)
    requires i < |sorted| && IsMatched(protocols, sorted[..i], running)
    requires IsFirst(protocols, sorted[i], p) && Matches(p, sorted[i])
    requires sorted[i].name in running ==> running[sorted[i].name].proto.version <= sorted[i].version
    ensures forall at :: IsMatched(protocols, sorted[..i + 1], running[sorted[i].name := ProtoRW(p, at)])
  {
    hide IsFirst, IsShared;
    assert sorted[..i + 1] == sorted[..i] + [sorted[i]];
    forall at ensures IsMatched(protocols, sorted[..i + 1], running[sorted[i].name := ProtoRW(p, at)]) {
    }
  }

  lemma SkipMatched(protocols: seq<Protocol>, sorted: seq<Cap>, i: nat, running: Running)
    requires i < |sorted| && IsMatched(protocols, sorted[..i], running) && !IsShared(protocols, sorted[i])
    ensures IsMatched(protocols, sorted[..i + 1], running)
  {
    hide IsFirst, IsShared;
    assert sorted[..i + 1] == sorted[..i] + [sorted[i]];
  }

  lemma SameCaps(protocols: seq<Protocol>, a: seq<Cap>, b: seq<Cap>, running: Running)
    requires multiset(a) == multiset(b) && IsMatched(protocols, a, running)
    ensures IsMatched(protocols, b, running)
  {
    hide IsFirst, IsShared;
    assert forall cap :: cap in b ==> cap in multiset(b);
    assert forall cap :: cap in a ==> cap in multiset(a);
  }

  /** Without a protocol, its length is off the total. */
  lemma Reverted(running: Running, name: Name)
    ensures Total(running) == Lengths(running)(name) + Sum(running.Keys - {name}, Lengths(running))
    ensures Total(running) >= Lengths(running)(name)
  {
    if name in running {
      SumSplit(running.Keys, Lengths(running), name);
    } else {
      assert running.Keys - {name} == running.Keys;
    }
    SumSubset(running.Keys - {name}, running.Keys - {name}, Lengths(running));
  }

  lemma AssignLaidOut(running: Running, name: Name, p: Protocol, offset: nat)
    requires IsLaidOut(running) && forall m :: m in running ==> m == name || Lt(m, name)
    requires offset == BASE_PROTOCOL_LENGTH + Sum(running.Keys - {name}, Lengths(running))
    ensures var more := running[name := ProtoRW(p, offset)];
            IsLaidOut(more) && BASE_PROTOCOL_LENGTH + Total(more) == offset + p.length
  {
    hide Lt;
    var more := running[name := ProtoRW(p, offset)];
    LtTotal(name, name);
    assert more.Keys - {name} == running.Keys - {name};
    SumCongruence(running.Keys - {name}, Lengths(running), Lengths(more));
    SumSplit(more.Keys, Lengths(more), name);
    assert Before(more, name) == running.Keys - {name};
    forall m | m in more && m != name ensures more[m].offset == BASE_PROTOCOL_LENGTH + Sum(Before(more, m), Lengths(more)) {
      LtTotal(m, name);
      assert Before(more, m) == Before(running, m);
      SumCongruence(Before(running, m), Lengths(running), Lengths(more));
    }
  }

  // ----- the layout -----

  predicate Owns(rw: ProtoRW, code: nat) {
    rw.offset <= code < rw.offset + rw.proto.length
  }

  lemma InOrder(running: Running, a: Name, b: Name)
    requires IsLaidOut(running) && a in running && b in running && Lt(a, b)
    ensures running[a].offset + running[a].proto.length <= running[b].offset
  {
    hide Lt;
    var below := Before(running, b);
    forall m | m in Before(running, a) ensures m in below - {a} {
      LtTransitive(m, a, b);
      LtTotal(m, a);
    }
    SumSplit(below, Lengths(running), a);
    SumSubset(Before(running, a), below - {a}, Lengths(running));
  }

  /** No code belongs to two protocols, and none to the base protocol as well. */
  lemma NoOverlap(running: Running, a: Name, b: Name, code: nat)
    requires IsLaidOut(running) && a in running && b in running && Owns(running[a], code) && Owns(running[b], code)
    ensures a == b && code >= BASE_PROTOCOL_LENGTH
  {
    hide IsLaidOut, Lt;
    LtTotal(a, b);
    if Lt(a, b) {
      InOrder(running, a, b);
    } else if Lt(b, a) {
      InOrder(running, b, a);
    }
    FirstCode(running, a);
  }

  lemma FirstCode(running: Running, a: Name)
    requires IsLaidOut(running) && a in running
    ensures running[a].offset >= BASE_PROTOCOL_LENGTH
  {
    SumSubset({}, Before(running, a), Lengths(running));
  }

  lemma {:induction false} HasLast(names: set<Name>)
    requires names != {}
    ensures exists g :: g in names && forall m :: m in names ==> m == g || Lt(m, g)
    decreases |names|
  {
    hide Lt;
    var x :| x in names;
    if names != {x} {
      HasLast(names - {x});
      var g :| g in names - {x} && forall m :: m in names - {x} ==> m == g || Lt(m, g);
      LtTotal(x, g);
      if Lt(x, g) {
        assert g in names && forall m :: m in names ==> m == g || Lt(m, g);
      } else {
        forall m | m in names ensures m == x || Lt(m, x) {
          if m != x && m != g {
            LtTransitive(m, g, x);
          }
        }
      }
    } else {
      assert x in names && forall m :: m in names ==> m == x || Lt(m, x);
    }
  }

  lemma WithoutLast(running: Running, g: Name)
    requires IsLaidOut(running) && g in running && forall m :: m in running ==> m == g || Lt(m, g)
    ensures IsLaidOut(running - {g}) && running[g].offset == BASE_PROTOCOL_LENGTH + Total(running - {g})
    ensures Total(running) == Total(running - {g}) + running[g].proto.length
  {
    hide Lt;
    var less := running - {g};
    LtTotal(g, g);
    assert Before(running, g) == less.Keys == running.Keys - {g};
    SumCongruence(less.Keys, Lengths(running), Lengths(less));
    SumSplit(running.Keys, Lengths(running), g);
    forall m | m in less ensures less[m].offset == BASE_PROTOCOL_LENGTH + Sum(Before(less, m), Lengths(less)) {
      LtTotal(m, g);
      assert Before(less, m) == Before(running, m);
      SumCongruence(Before(less, m), Lengths(running), Lengths(less));
    }
  }

  /** Every code from the base protocol's end to the end of the layout has an owner. */
  lemma {:induction false} NoGap(running: Running, code: nat)
    requires IsLaidOut(running) && BASE_PROTOCOL_LENGTH <= code < BASE_PROTOCOL_LENGTH + Total(running)
    ensures exists name :: name in running && Owns(running[name], code)
    decreases |running.Keys|
  {
    hide IsLaidOut, Lt, Total;
    EmptyTotal(running);
    HasLast(running.Keys);
    var g :| g in running.Keys && forall m :: m in running.Keys ==> m == g || Lt(m, g);
    WithoutLast(running, g);
    if code < running[g].offset {
      assert (running - {g}).Keys == running.Keys - {g};
      NoGap(running - {g}, code);
      var name :| name in running - {g} && Owns((running - {g})[name], code);
      assert name in running && Owns(running[name], code);
    } else {
      assert g in running && Owns(running[g], code);
    }
  }

  lemma EmptyTotal(running: Running)
    ensures running == map[] ==> Total(running) == 0
  {
  }

  // ----- two peers -----

  function CapsOf(protocols: seq<Protocol>): seq<Cap> {
    seq(|protocols|, i requires 0 <= i < |protocols| => Cap(protocols[i].name, protocols[i].version))
  }

  ghost predicate SameLengths(a: seq<Protocol>, b: seq<Protocol>) {
    forall p, q :: p in a && q in b && p.name == q.name && p.version == q.version ==> p.length == q.length
  }

  lemma CapsAreProtocols(protocols: seq<Protocol>, cap: Cap)
    ensures cap in CapsOf(protocols) <==> IsShared(protocols, cap)
  {
    if cap in CapsOf(protocols) {
      var i :| 0 <= i < |protocols| && CapsOf(protocols)[i] == cap;
      assert protocols[i] in protocols && Matches(protocols[i], cap);
    }
    if IsShared(protocols, cap) {
      var p :| p in protocols && Matches(p, cap);
      var i :| 0 <= i < |protocols| && protocols[i] == p;
      assert CapsOf(protocols)[i] == cap;
    }
  }

  lemma FirstIsShared(protocols: seq<Protocol>, cap: Cap, p: Protocol)
    requires IsFirst(protocols, cap, p)
    ensures p in protocols && Matches(p, cap) && IsShared(protocols, cap)
  {
  }

  /** What runs on one side runs on the other in no lower version. */
  lemma RunsThere(a: seq<Protocol>, b: seq<Protocol>, ra: Running, rb: Running, name: Name)
    requires IsMatched(a, CapsOf(b), ra) && IsMatched(b, CapsOf(a), rb) && name in ra
    ensures name in rb && ra[name].proto.version <= rb[name].proto.version
    ensures ra[name].proto in a
  {
    hide IsFirst, IsShared, Matches, CapsOf;
    var cap := Cap(name, ra[name].proto.version);
    FirstIsShared(a, cap, ra[name].proto);
    CapsAreProtocols(a, cap);
    CapsAreProtocols(b, cap);
  }

  /** Two peers that agree on the lengths of the protocols they share lay them out alike. */
  lemma PeersAgree(a: seq<Protocol>, b: seq<Protocol>, ra: Running, rb: Running)
    requires IsMatched(a, CapsOf(b), ra) && IsLaidOut(ra) && IsMatched(b, CapsOf(a), rb) && IsLaidOut(rb)
    requires SameLengths(a, b)
    ensures ra.Keys == rb.Keys
    ensures forall name :: name in ra ==>
              && ra[name].proto.name == rb[name].proto.name && ra[name].proto.version == rb[name].proto.version
              && ra[name].proto.length == rb[name].proto.length && ra[name].offset == rb[name].offset
  {
    hide Lt, IsFirst, IsShared, CapsOf;
    forall name | name in ra || name in rb
      ensures name in ra && name in rb
              && ra[name].proto.version == rb[name].proto.version && ra[name].proto.length == rb[name].proto.length
    {
      if name in ra {
        RunsThere(a, b, ra, rb, name);
        RunsThere(b, a, rb, ra, name);
      } else {
        RunsThere(b, a, rb, ra, name);
        RunsThere(a, b, ra, rb, name);
      }
    }
    forall name | name in ra ensures ra[name].offset == rb[name].offset {
      assert Before(ra, name) == Before(rb, name);
      SumCongruence(Before(ra, name), Lengths(ra), Lengths(rb));
    }
  }

  /** getProto: looks through the running protocols in any order. */
  method GetProto(running: Running, code: nat) returns (found: Option<ProtoRW>)
    requires IsLaidOut(running)
    ensures found.None? <==> forall name :: name in running ==> !Owns(running[name], code)
    ensures forall name :: name in running && Owns(running[name], code) ==> found == Some(running[name])
    ensures found.None? <==> code < BASE_PROTOCOL_LENGTH || code >= BASE_PROTOCOL_LENGTH + Total(running)
  {
    hide IsLaidOut, Total;
    var todo := running.Keys;
    Bounds(running, code);
    while todo != {}
      invariant todo <= running.Keys
      invariant forall name :: name in running && name !in todo ==> !Owns(running[name], code)
    {
      var name :| name in todo;
      if Owns(running[name], code) {
        forall other | other in running && Owns(running[other], code) ensures other == name {
          NoOverlap(running, name, other, code);
        }
        return Some(running[name]);
      }
      todo := todo - {name};
    }
    return None;
  }

  lemma Bounds(running: Running, code: nat)
    requires IsLaidOut(running)
    ensures (exists name :: name in running && Owns(running[name], code))
            <==> BASE_PROTOCOL_LENGTH <= code < BASE_PROTOCOL_LENGTH + Total(running)
  {
    hide Lt;
    if BASE_PROTOCOL_LENGTH <= code < BASE_PROTOCOL_LENGTH + Total(running) {
      NoGap(running, code);
    }
    forall name | name in running && Owns(running[name], code)
      ensures BASE_PROTOCOL_LENGTH <= code < BASE_PROTOCOL_LENGTH + Total(running)
    {
      FirstCode(running, name);
      LtTotal(name, name);
      SumSplit(running.Keys, Lengths(running), name);
      SumSubset(Before(running, name), running.Keys - {name}, Lengths(running));
    }
  }

  /** protoRW.WriteMsg: a protocol's own code as it goes over the wire. */
  method WireCode(rw: ProtoRW, code: nat) returns (wire: Option<nat>)
    ensures wire == if code < rw.proto.length then Some(code + rw.offset) else None
  {
    if code >= rw.proto.length {
      return None;
    }
    return Some(code + rw.offset);
  }

  /** The receiving side: the protocol a wire code is handed to, and the code it sees. */
  method Route(running: Running, wire: nat) returns (to: Option<(Protocol, nat)>)
    requires IsLaidOut(running)
    ensures forall name :: name in running && Owns(running[name], wire) ==>
              to == Some((running[name].proto, wire - running[name].offset))
    ensures to.None? <==> wire < BASE_PROTOCOL_LENGTH || wire >= BASE_PROTOCOL_LENGTH + Total(running)
  {
    hide IsLaidOut, Total;
    Bounds(running, wire);
    var found := GetProto(running, wire);
    if found.None? {
      return None;
    }
    return Some((found.value.proto, wire - found.value.offset));
  }

  /** The protocol in its highest shared version. */
  ghost predicate IsHighestShared(protocols: seq<Protocol>, caps: seq<Cap>, name: Name, p: Protocol) {
    && p in protocols && p.name == name && Cap(name, p.version) in caps
    && forall cap :: cap in caps && cap.name == name && IsShared(protocols, cap) ==> cap.version <= p.version
  }

  /** A code sent on a protocol arrives at the same protocol, in the version the sender runs,
      as the same code. It is refused exactly if it is not below that protocol's length. */
  method Deliver(a: seq<Protocol>, b: seq<Protocol>, name: Name, code: nat)
    returns (via: Protocol, to: Option<(Protocol, nat)>)
    requires SameLengths(a, b)
    requires exists cap :: cap in CapsOf(b) && cap.name == name && IsShared(a, cap)
    ensures IsHighestShared(a, CapsOf(b), name, via)
    ensures to.None? <==> code >= via.length
    ensures to.Some? ==>
              var (p, received) := to.value;
              && IsHighestShared(b, CapsOf(a), name, p)
              && p.version == via.version && p.length == via.length && received == code
  {
    hide IsMatched, IsLaidOut, IsFirst, IsHighestShared;
    var ra := MatchProtocols(a, CapsOf(b));
    var rb := MatchProtocols(b, CapsOf(a));
    SharedRuns(a, CapsOf(b), ra, name);
    PeersAgree(a, b, ra, rb);
    RunsHighest(a, CapsOf(b), ra, name);
    RunsHighest(b, CapsOf(a), rb, name);
    via := ra[name].proto;
    var wire := WireCode(ra[name], code);
    if wire.None? {
      return via, None;
    }
    assert Owns(rb[name], wire.value);
    to := Route(rb, wire.value);
  }

  lemma RunsHighest(protocols: seq<Protocol>, caps: seq<Cap>, running: Running, name: Name)
    requires IsMatched(protocols, caps, running) && name in running
    ensures IsHighestShared(protocols, caps, name, running[name].proto)
  {
    FirstIsShared(protocols, Cap(name, running[name].proto.version), running[name].proto);
  }

  lemma SharedRuns(protocols: seq<Protocol>, caps: seq<Cap>, running: Running, name: Name)
    requires IsMatched(protocols, caps, running)
    requires exists cap :: cap in caps && cap.name == name && IsShared(protocols, cap)
    ensures name in running && running[name].proto.name == name
  {
  }
}

/** `IPAddressToInterface`: the adapter on whose network an address lies, in the form that masks in
    host byte order and in the form that masks in network byte order; and the adapter table look-ups
    `indexToInterface` and `interfaceToIndex` (src/net_common_tools.cpp). */
module Subnet {
  import opened Options
  import opened Words

  /** The two addresses, in host byte order, lie in the same subnet of the prefix length. */
  predicate SameSubnet(a: Word, b: Word, prefix: nat)
    requires prefix <= 32
  {
    a / Pow2(32 - prefix) == b / Pow2(32 - prefix)
  }

  lemma {:induction false} Pow2Monotone(m: nat, n: nat)
    requires m <= n
    ensures Pow2(m) <= Pow2(n)
  {
    if m < n {
      Pow2Monotone(m, n - 1);
    }
  }

  lemma Pow2Bound(k: nat)
    requires k <= 32
    ensures Pow2(k) <= WORD_RANGE
  {
    Pow2Monotone(k, 32);
    Pow2Values();
  }

  /** The mask expression. The shift stays within the signed range for the lengths it is given. */
  function Mask(prefix: nat): Word
    requires 2 <= prefix <= 32
  {
    Pow2Bound(32 - prefix);
    Not(Pow2(32 - prefix) - 1)
  }

  /** The mask has as many leading ones as the prefix is long. */
  lemma MaskValue(prefix: nat)
    requires 2 <= prefix <= 32
    ensures Mask(prefix) == WORD_RANGE - Pow2(32 - prefix)
    ensures Mask(prefix) == Shl(Pow2(prefix) - 1, 32 - prefix)
  {
    var k := 32 - prefix;
    Pow2Bound(k);
    Pow2Values();
    Pow2Sum(prefix, k);
    ShlIsProduct(Pow2(prefix) - 1, k);
    assert (Pow2(prefix) - 1) * Pow2(k) == Pow2(prefix) * Pow2(k) - Pow2(k);
  }

  /** Masking clears the host part. */
  lemma MaskedValue(a: Word, prefix: nat)
    requires 2 <= prefix <= 32
    ensures And(a, Mask(prefix)) == Shl(Shr(a, 32 - prefix), 32 - prefix)
  {
    hide And, Shl, Shr, Pow2, Low;
    var k := 32 - prefix;
    MaskValue(prefix);
    Pow2Values();
    ShrBound(a, prefix, k);
    HighAndLow(a, k);
    assert And(Low(a, k), 0) == 0;
    AndJoin(k, Shr(a, k), Pow2(prefix) - 1, Low(a, k), 0);
    AndOnes(Shr(a, k), prefix);
  }

  /** Two addresses agree under the mask exactly when they lie in the same subnet. */
  lemma AgreeUnderMask(a: Word, b: Word, prefix: nat)
    requires 2 <= prefix <= 32
    ensures And(a, Mask(prefix)) == And(b, Mask(prefix)) <==> SameSubnet(a, b, prefix)
  {
    hide And, Shl, Shr, Pow2, Mask;
    var k := 32 - prefix;
    MaskedValue(a, prefix);
    MaskedValue(b, prefix);
    ShrIsQuotient(a, k);
    ShrIsQuotient(b, k);
    if Shl(Shr(a, k), k) == Shl(Shr(b, k), k) {
      ShlInjective(Shr(a, k), Shr(b, k), k);
    }
  }

  lemma SameShifted(a: Word, b: Word, prefix: nat)
    requires prefix <= 32
    ensures SameSubnet(a, b, prefix) <==> Shr(a, 32 - prefix) == Shr(b, 32 - prefix)
  {
    hide Shr, Pow2;
    ShrIsQuotient(a, 32 - prefix);
    ShrIsQuotient(b, 32 - prefix);
  }

  /** Agreement under a longer prefix implies agreement under every shorter one. */
  lemma ShorterPrefixAgrees(a: Word, b: Word, long: nat, short: nat)
    requires 2 <= short <= long <= 32
    requires And(a, Mask(long)) == And(b, Mask(long))
    ensures And(a, Mask(short)) == And(b, Mask(short))
  {
    hide And, Shl, Shr, Pow2, Mask, SameSubnet;
    AgreeUnderMask(a, b, long);
    AgreeUnderMask(a, b, short);
    SameShifted(a, b, long);
    SameShifted(a, b, short);
    ShrTwice(a, 32 - long, long - short);
    ShrTwice(b, 32 - long, long - short);
  }

  // ---- Byte order of the two forms. ----

  /** Both forms compare addresses in network byte order: one swaps them and masks in host order,
      the other uses the netmask as the system delivers it, in network order. */
  lemma FormsAgree(littleEndian: bool, x: Word, y: Word, prefix: nat)
    requires 2 <= prefix <= 32
    ensures And(Reorder(littleEndian, x), Mask(prefix)) == And(Reorder(littleEndian, y), Mask(prefix))
       <==> And(x, Reorder(littleEndian, Mask(prefix))) == And(y, Reorder(littleEndian, Mask(prefix)))
  {
    hide And, Swap, Mask;
    if littleEndian {
      SwapMask(x, prefix);
      SwapMask(y, prefix);
    }
  }

  lemma SwapMask(x: Word, prefix: nat)
    requires 2 <= prefix <= 32
    ensures And(Swap(x), Mask(prefix)) < WORD_RANGE
    ensures And(x, Swap(Mask(prefix))) < WORD_RANGE
    ensures Swap(And(Swap(x), Mask(prefix))) == And(x, Swap(Mask(prefix)))
    ensures Swap(And(x, Swap(Mask(prefix)))) == And(Swap(x), Mask(prefix))
  {
    hide And, Swap, Mask;
    SwapTwice(x);
    SwapTwice(Mask(prefix));
    SwapAnd(Swap(x), Mask(prefix));
    SwapAnd(x, Swap(Mask(prefix)));
  }

  // ---- The search over the adapters. ----

  /** A unicast address of an adapter, in network byte order. */
  datatype Unicast = IPv4(address: Word, prefix: nat) | OtherFamily

  datatype Adapter = Adapter(index: nat, unicast: seq<Unicast>)

  /** What the adapter lists deliver: at least one address each, prefix lengths in range. */
  ghost predicate Deliverable(adapters: seq<Adapter>) {
    forall k, j :: 0 <= k < |adapters| && 0 <= j < |adapters[k].unicast| && adapters[k].unicast[j].IPv4?
      ==> 2 <= adapters[k].unicast[j].prefix <= 32
  }

  /** The IPv4 address has the asked one in its subnet. */
  predicate Covers(littleEndian: bool, u: Unicast, address: Word) {
    u.IPv4? && u.prefix <= 32 && SameSubnet(Reorder(littleEndian, u.address), Reorder(littleEndian, address), u.prefix)
  }

  /** In octets: the addresses a.b.c.d and e.f.g.h, read from memory by a host of either byte order, are
      compared from their first octet on. */
  lemma CoversByOctets(littleEndian: bool, a: Byte, b: Byte, c: Byte, d: Byte, prefix: nat,
                       e: Byte, f: Byte, g: Byte, h: Byte)
    requires prefix <= 32
    ensures var u := IPv4(InMemory(littleEndian, a, b, c, d), prefix);
            Covers(littleEndian, u, InMemory(littleEndian, e, f, g, h)) <==>
            InMemory(false, a, b, c, d) / Pow2(32 - prefix) == InMemory(false, e, f, g, h) / Pow2(32 - prefix)
  {
    OctetsInOrder(littleEndian, a, b, c, d);
    OctetsInOrder(littleEndian, e, f, g, h);
    hide Reorder, Pow2, Join;
  }

  lemma OctetPowers()
    ensures Pow2(0) == 1 && Pow2(8) == 0x100 && Pow2(16) == 0x10000 && Pow2(24) == 0x1000000
  {
    Pow2Values();
    Pow2Sum(8, 8);
    Pow2Sum(16, 8);
  }

  lemma OctetQuotients(a: Byte, b: Byte, c: Byte, d: Byte)
    ensures var w := InMemory(false, a, b, c, d);
            && w / Pow2(24) == a && w / Pow2(16) == Append(a, b) && w / Pow2(8) == Append(Append(a, b), c)
            && w / Pow2(0) == w == Append(Append(Append(a, b), c), d)
  {
    OctetPowers();
  }

  lemma AppendInjective(p: nat, q: nat, r: Byte, s: Byte)
    ensures Append(p, r) == Append(q, s) <==> p == q && r == s
  {
  }

  /** So a prefix of 8, 16 or 24 compares one, two or three octets. */
  lemma CoversWholeOctets(littleEndian: bool, a: Byte, b: Byte, c: Byte, d: Byte, e: Byte, f: Byte, g: Byte, h: Byte)
    ensures var mine, asked := InMemory(littleEndian, a, b, c, d), InMemory(littleEndian, e, f, g, h);
            && (Covers(littleEndian, IPv4(mine, 8), asked) <==> a == e)
            && (Covers(littleEndian, IPv4(mine, 16), asked) <==> a == e && b == f)
            && (Covers(littleEndian, IPv4(mine, 24), asked) <==> a == e && b == f && c == g)
            && (Covers(littleEndian, IPv4(mine, 32), asked) <==> a == e && b == f && c == g && d == h)
  {
    hide Covers, Pow2, Append, InMemory;
    CoversByOctets(littleEndian, a, b, c, d, 8, e, f, g, h);
    CoversByOctets(littleEndian, a, b, c, d, 16, e, f, g, h);
    CoversByOctets(littleEndian, a, b, c, d, 24, e, f, g, h);
    CoversByOctets(littleEndian, a, b, c, d, 32, e, f, g, h);
    OctetQuotients(a, b, c, d);
    OctetQuotients(e, f, g, h);
    AppendInjective(a, e, b, f);
    AppendInjective(Append(a, b), Append(e, f), c, g);
    AppendInjective(Append(Append(a, b), c), Append(Append(e, f), g), d, h);
  }

  /** The address lies in the subnet of the adapter's first IPv4 address. */
  ghost predicate OnLink(littleEndian: bool, a: Adapter, address: Word) {
    exists j :: 0 <= j < |a.unicast| && Covers(littleEndian, a.unicast[j], address)
      && forall i :: 0 <= i < j ==> !a.unicast[i].IPv4?
  }

  /** The first adapter that is on link, if there is one. */
  ghost predicate FirstOnLink(littleEndian: bool, adapters: seq<Adapter>, address: Word, r: Option<nat>) {
    var n := if r.Some? then r.value else |adapters|;
    && (r.Some? ==> n < |adapters| && OnLink(littleEndian, adapters[n], address))
    && forall k :: 0 <= k < n ==> !OnLink(littleEndian, adapters[k], address)
  }

  lemma NoIPv4(littleEndian: bool, a: Adapter, address: Word)
    requires forall j :: 0 <= j < |a.unicast| ==> !a.unicast[j].IPv4?
    ensures !OnLink(littleEndian, a, address)
  {
    hide SameSubnet;
  }

  /** The first IPv4 address of an adapter decides whether it is on link. */
  lemma FirstIPv4Decides(littleEndian: bool, a: Adapter, i: nat, address: Word)
    requires i < |a.unicast| && a.unicast[i].IPv4? && 2 <= a.unicast[i].prefix <= 32
    requires forall j :: 0 <= j < i ==> !a.unicast[j].IPv4?
    ensures OnLink(littleEndian, a, address) <==>
      And(Reorder(littleEndian, a.unicast[i].address), Mask(a.unicast[i].prefix))
        == And(Reorder(littleEndian, address), Mask(a.unicast[i].prefix))
  {
    hide And, Mask, Reorder, SameSubnet;
    AgreeUnderMask(Reorder(littleEndian, a.unicast[i].address), Reorder(littleEndian, address), a.unicast[i].prefix);
    assert OnLink(littleEndian, a, address) <==> Covers(littleEndian, a.unicast[i], address);
  }

  /** The search in host byte order over a list of adapters (Windows form). */
  method SearchAdapters(littleEndian: bool, adapters: seq<Adapter>, address: Word) returns (r: Option<nat>)
    requires Deliverable(adapters) && adapters != []
    requires forall k :: 0 <= k < |adapters| ==> adapters[k].unicast != []
    ensures FirstOnLink(littleEndian, adapters, address, r)
  {
    hide OnLink, And, Mask, Reorder;
    for k := 0 to |adapters|
      invariant forall j :: 0 <= j < k ==> !OnLink(littleEndian, adapters[j], address)
    {
      var unicast := adapters[k].unicast;
      var i: nat := 0;
      while i < |unicast| && !unicast[i].IPv4?
        invariant i <= |unicast|
        invariant forall j :: 0 <= j < i ==> !unicast[j].IPv4?
      {
        i := i + 1;
      }
      if i == |unicast| {
        NoIPv4(littleEndian, adapters[k], address);
        continue;
      }
      var prefix := unicast[i].prefix;
      var mask := Mask(prefix);
      FirstIPv4Decides(littleEndian, adapters[k], i, address);
      if And(Reorder(littleEndian, unicast[i].address), mask) != And(Reorder(littleEndian, address), mask) {
        continue;
      }
      return Some(k);
    }
    return None;
  }

  /** An entry of the interface address list: the address with its netmask, both in network byte
      order, or an entry without an IPv4 address. */
  datatype InterfaceAddress = Inet(name: string, address: Word, netmask: Word) | NoInet(name: string)

  /** The entry agrees with the address under its own netmask. */
  predicate Agrees(e: InterfaceAddress, address: Word) {
    e.Inet? && And(e.address, e.netmask) == And(address, e.netmask)
  }

  /** The name of the first entry that agrees, or the empty name. */
  ghost predicate FirstAgreeing(entries: seq<InterfaceAddress>, address: Word, name: string) {
    || (name == "" && forall k :: 0 <= k < |entries| ==> !Agrees(entries[k], address))
    || (exists n :: 0 <= n < |entries| && Agrees(entries[n], address) && name == entries[n].name
          && forall k :: 0 <= k < n ==> !Agrees(entries[k], address))
  }

  /** The search in network byte order over the interface addresses (POSIX form). */
  method SearchInterfaceAddresses(entries: seq<InterfaceAddress>, address: Word) returns (name: string)
    ensures FirstAgreeing(entries, address, name)
  {
    for k := 0 to |entries|
      invariant forall j :: 0 <= j < k ==> !Agrees(entries[j], address)
    {
      if entries[k].NoInet? {
        continue;
      }
      var network := And(entries[k].address, entries[k].netmask);
      if network != And(address, entries[k].netmask) {
        continue;
      }
      return entries[k].name;
    }
    return "";
  }

  /** Some IPv4 address of the adapter has the address in its subnet. */
  ghost predicate Touches(littleEndian: bool, u: seq<Unicast>, address: Word) {
    exists j :: 0 <= j < |u| && Covers(littleEndian, u[j], address)
  }

  /** The entries of one adapter: one for each of its IPv4 addresses, in their order, all under the
      name of the adapter. */
  function EntriesOf(littleEndian: bool, u: seq<Unicast>, name: string): seq<InterfaceAddress>
    requires forall j :: 0 <= j < |u| && u[j].IPv4? ==> 2 <= u[j].prefix <= 32
  {
    if u == [] then []
    else if u[0].OtherFamily? then EntriesOf(littleEndian, u[1..], name)
    else
      [Inet(name, u[0].address, Reorder(littleEndian, Mask(u[0].prefix)))] + EntriesOf(littleEndian, u[1..], name)
  }

  /** The entries of all adapters, in the order of the adapters. */
  ghost function AllEntries(littleEndian: bool, adapters: seq<Adapter>, names: seq<string>): seq<InterfaceAddress>
    requires Deliverable(adapters) && |adapters| == |names|
  {
    if adapters == [] then []
    else
      assert Deliverable(adapters[1..]);
      EntriesOf(littleEndian, adapters[0].unicast, names[0]) + AllEntries(littleEndian, adapters[1..], names[1..])
  }

  /** The entries with an IPv4 address. */
  function InetOnly(entries: seq<InterfaceAddress>): seq<InterfaceAddress> {
    if entries == [] then []
    else (if entries[0].Inet? then [entries[0]] else []) + InetOnly(entries[1..])
  }

  /** The interface address list of a system with the given adapters. Entries without an IPv4 address
      may stand anywhere. */
  ghost predicate Describes(littleEndian: bool, entries: seq<InterfaceAddress>,
                            adapters: seq<Adapter>, names: seq<string>) {
    && |adapters| == |names| && Deliverable(adapters)
    && InetOnly(entries) == AllEntries(littleEndian, adapters, names)
  }

  /** The name of the first entry that agrees, as a function. */
  function FirstName(entries: seq<InterfaceAddress>, address: Word): string {
    if entries == [] then ""
    else if Agrees(entries[0], address) then entries[0].name
    else FirstName(entries[1..], address)
  }

  lemma {:induction false} FirstNameIs(entries: seq<InterfaceAddress>, address: Word, name: string)
    requires FirstAgreeing(entries, address, name)
    ensures name == FirstName(entries, address)
  {
    hide Agrees;
    if entries != [] && !Agrees(entries[0], address) {
      var rest := entries[1..];
      assert forall k :: 0 <= k < |rest| ==> rest[k] == entries[k + 1];
      if exists k :: 0 <= k < |entries| && Agrees(entries[k], address) {
        var n :| 0 <= n < |entries| && Agrees(entries[n], address) && name == entries[n].name
          && forall k :: 0 <= k < n ==> !Agrees(entries[k], address);
        assert rest[n - 1] == entries[n];
      }
      FirstNameIs(rest, address, name);
    }
  }

  lemma {:induction false} FirstNameOfInet(entries: seq<InterfaceAddress>, address: Word)
    ensures FirstName(InetOnly(entries), address) == FirstName(entries, address)
  {
    hide And;
    if entries != [] {
      FirstNameOfInet(entries[1..], address);
      var one := if entries[0].Inet? then [entries[0]] else [];
      assert entries[0].Inet? ==> (one + InetOnly(entries[1..]))[1..] == InetOnly(entries[1..]);
      assert entries[0].NoInet? ==> one + InetOnly(entries[1..]) == InetOnly(entries[1..]);
    }
  }

  /** The entry of an address decides as the host-order comparison of that address does. */
  lemma DecidesAlike(littleEndian: bool, u: Unicast, name: string, address: Word)
    requires u.IPv4? && 2 <= u.prefix <= 32
    ensures var entry := Inet(name, u.address, Reorder(littleEndian, Mask(u.prefix)));
            Agrees(entry, address) <==> Covers(littleEndian, u, address)
  {
    hide And, Mask, Swap, SameSubnet;
    FormsAgree(littleEndian, u.address, address, u.prefix);
    AgreeUnderMask(Reorder(littleEndian, u.address), Reorder(littleEndian, address), u.prefix);
  }

  /** The entries of one adapter followed by others. */
  lemma {:induction false} FirstNameOfAdapter(littleEndian: bool, u: seq<Unicast>, name: string,
                                              rest: seq<InterfaceAddress>, address: Word)
    requires forall j :: 0 <= j < |u| && u[j].IPv4? ==> 2 <= u[j].prefix <= 32
    ensures FirstName(EntriesOf(littleEndian, u, name) + rest, address)
         == if Touches(littleEndian, u, address) then name else FirstName(rest, address)
  {
    hide Agrees, Covers, Mask, Reorder, Touches;
    TouchesNone(littleEndian, address);
    if u == [] {
      assert EntriesOf(littleEndian, u, name) + rest == rest;
    } else {
      FirstNameOfAdapter(littleEndian, u[1..], name, rest, address);
      TouchesHead(littleEndian, u, address);
      if u[0].IPv4? {
        DecidesAlike(littleEndian, u[0], name, address);
        var all, tail := EntriesOf(littleEndian, u, name), EntriesOf(littleEndian, u[1..], name);
        assert (all + rest)[0] == all[0] && (all + rest)[1..] == tail + rest;
      }
    }
  }

  lemma TouchesNone(littleEndian: bool, address: Word)
    ensures !Touches(littleEndian, [], address)
  {
  }

  lemma TouchesHead(littleEndian: bool, u: seq<Unicast>, address: Word)
    requires u != []
    ensures Touches(littleEndian, u, address) <==>
      Covers(littleEndian, u[0], address) || Touches(littleEndian, u[1..], address)
    ensures u[0].OtherFamily? ==> !Covers(littleEndian, u[0], address)
  {
    hide SameSubnet;
    var rest := u[1..];
    if j :| 0 <= j < |rest| && Covers(littleEndian, rest[j], address) {
      assert Covers(littleEndian, u[j + 1], address);
    }
    if j :| 0 <= j < |u| && Covers(littleEndian, u[j], address) {
      assert j == 0 || Covers(littleEndian, rest[j - 1], address);
    }
  }

  /** The first adapter with any address that has the asked one in its subnet, or the length. */
  ghost function FirstTouched(littleEndian: bool, adapters: seq<Adapter>, address: Word): (p: nat)
    ensures p <= |adapters|
    ensures p < |adapters| ==> Touches(littleEndian, adapters[p].unicast, address)
    ensures forall k :: 0 <= k < p ==> !Touches(littleEndian, adapters[k].unicast, address)
  {
    if adapters == [] || Touches(littleEndian, adapters[0].unicast, address) then 0
    else
      1 + FirstTouched(littleEndian, adapters[1..], address)
  }

  /** The network-order search names the first adapter with any address that agrees. */
  lemma {:induction false} FirstNameOfAll(littleEndian: bool, adapters: seq<Adapter>, names: seq<string>, address: Word)
    requires |adapters| == |names| && Deliverable(adapters)
    ensures var p := FirstTouched(littleEndian, adapters, address);
            FirstName(AllEntries(littleEndian, adapters, names), address) == if p < |adapters| then names[p] else ""
  {
    hide EntriesOf, Touches, Agrees;
    if adapters != [] {
      assert Deliverable(adapters[1..]);
      FirstNameOfAll(littleEndian, adapters[1..], names[1..], address);
      var rest := AllEntries(littleEndian, adapters[1..], names[1..]);
      FirstNameOfAdapter(littleEndian, adapters[0].unicast, names[0], rest, address);
    }
  }

  /** The first IPv4 address of an adapter is one of its addresses. */
  lemma OnLinkTouches(littleEndian: bool, a: Adapter, address: Word)
    requires OnLink(littleEndian, a, address)
    ensures Touches(littleEndian, a.unicast, address)
  {
    hide Covers;
  }

  /** With distinct names the two forms give the same name if and only if the first adapter with any
      address that agrees, if there is one, agrees with its first IPv4 address: the host-order form
      looks at no other. */
  lemma SearchesAgreeExactly(littleEndian: bool, entries: seq<InterfaceAddress>, adapters: seq<Adapter>,
                             names: seq<string>, address: Word, found: Option<nat>, name: string)
    requires Describes(littleEndian, entries, adapters, names)
    requires forall k :: 0 <= k < |names| ==> names[k] != ""
    requires forall j, k :: 0 <= j < k < |names| ==> names[j] != names[k]
    requires FirstOnLink(littleEndian, adapters, address, found)
    requires FirstAgreeing(entries, address, name)
    ensures var p := FirstTouched(littleEndian, adapters, address);
            name == (if found.Some? then names[found.value] else "") <==>
            (p < |adapters| ==> OnLink(littleEndian, adapters[p], address))
  {
    NameOfEntries(littleEndian, entries, adapters, names, address, name);
    FoundIsTouched(littleEndian, adapters, address, found);
    assert |adapters| == |names|;
    hide OnLink, Touches, Describes, FirstAgreeing, FirstTouched, FirstOnLink;
    NamesDecide(names, FirstTouched(littleEndian, adapters, address), found, name);
  }

  lemma NamesDecide(names: seq<string>, p: nat, found: Option<nat>, name: string)
    requires p <= |names| && (found.Some? ==> p <= found.value < |names|)
    requires forall k :: 0 <= k < |names| ==> names[k] != ""
    requires forall j, k :: 0 <= j < k < |names| ==> names[j] != names[k]
    requires name == if p < |names| then names[p] else ""
    ensures name == (if found.Some? then names[found.value] else "") <==> (p < |names| ==> found == Some(p))
  {
  }

  /** The first adapter on link is not before the first one touched. */
  lemma FoundIsTouched(littleEndian: bool, adapters: seq<Adapter>, address: Word, found: Option<nat>)
    requires FirstOnLink(littleEndian, adapters, address, found)
    ensures var p := FirstTouched(littleEndian, adapters, address);
            && (found.Some? ==> p <= found.value < |adapters|)
            && (found == Some(p) <==> p < |adapters| && OnLink(littleEndian, adapters[p], address))
  {
    hide OnLink, Touches;
    forall k | 0 <= k < |adapters| && OnLink(littleEndian, adapters[k], address)
      ensures Touches(littleEndian, adapters[k].unicast, address)
    {
      OnLinkTouches(littleEndian, adapters[k], address);
    }
  }

  lemma NameOfEntries(littleEndian: bool, entries: seq<InterfaceAddress>, adapters: seq<Adapter>,
                      names: seq<string>, address: Word, name: string)
    requires Describes(littleEndian, entries, adapters, names)
    requires FirstAgreeing(entries, address, name)
    ensures var p := FirstTouched(littleEndian, adapters, address);
            name == if p < |adapters| then names[p] else ""
  {
    hide Touches, Agrees;
    FirstNameIs(entries, address, name);
    FirstNameOfInet(entries, address);
    FirstNameOfAll(littleEndian, adapters, names, address);
  }

  /** At most one IPv4 address. */
  predicate Single(u: seq<Unicast>) {
    forall i, j :: 0 <= i < j < |u| ==> !u[i].IPv4? || !u[j].IPv4?
  }

  /** So with one IPv4 address per adapter both select the same interface, whatever the names are,
      and none exactly when no adapter is on link. */
  lemma SearchesAgree(littleEndian: bool, entries: seq<InterfaceAddress>, adapters: seq<Adapter>,
                      names: seq<string>, address: Word, found: Option<nat>, name: string)
    requires Describes(littleEndian, entries, adapters, names)
    requires forall k :: 0 <= k < |adapters| ==> Single(adapters[k].unicast)
    requires FirstOnLink(littleEndian, adapters, address, found)
    requires FirstAgreeing(entries, address, name)
    ensures name == if found.Some? then names[found.value] else ""
  {
    hide FirstOnLink, FirstAgreeing, FirstTouched;
    NameOfEntries(littleEndian, entries, adapters, names, address, name);
    SingleIsFound(littleEndian, adapters, address, found);
  }

  lemma SingleIsFound(littleEndian: bool, adapters: seq<Adapter>, address: Word, found: Option<nat>)
    requires forall k :: 0 <= k < |adapters| ==> Single(adapters[k].unicast)
    requires FirstOnLink(littleEndian, adapters, address, found)
    ensures var p := FirstTouched(littleEndian, adapters, address);
            found == if p < |adapters| then Some(p) else None
  {
    hide OnLink, Touches, Single;
    forall k | 0 <= k < |adapters|
      ensures OnLink(littleEndian, adapters[k], address) <==> Touches(littleEndian, adapters[k].unicast, address)
    {
      SingleIsFirst(littleEndian, adapters[k], address);
    }
  }

  lemma SingleIsFirst(littleEndian: bool, a: Adapter, address: Word)
    requires Single(a.unicast)
    ensures OnLink(littleEndian, a, address) <==> Touches(littleEndian, a.unicast, address)
  {
    hide SameSubnet;
    if j :| 0 <= j < |a.unicast| && Covers(littleEndian, a.unicast[j], address) {
      assert forall i :: 0 <= i < j ==> !a.unicast[i].IPv4?;
    }
  }

  // ---- Which addresses are searched for. ----

  /** `ACE_INET_Addr::is_any` and `is_loopback`. */
  predicate IsAnyOrLoopback(littleEndian: bool, address: Word) {
    var a := Reorder(littleEndian, address);
    a == 0 || a / Pow2(24) == 127
  }

  /** In octets: 0.0.0.0, or a first octet of 127. */
  lemma AnyOrLoopbackByOctets(littleEndian: bool, a: Byte, b: Byte, c: Byte, d: Byte)
    ensures IsAnyOrLoopback(littleEndian, InMemory(littleEndian, a, b, c, d)) <==>
      a == 127 || (a == 0 && b == 0 && c == 0 && d == 0)
  {
    OctetsInOrder(littleEndian, a, b, c, d);
    OctetQuotients(a, b, c, d);
    hide Reorder, Pow2;
  }

  /** The address is one of the assigned addresses, or stands for any or for the loopback. */
  predicate IsLocal(littleEndian: bool, owned: seq<Word>, address: Word) {
    IsAnyOrLoopback(littleEndian, address) || address in owned
  }

  /** `isLocal`; the table of assigned addresses is an input. */
  method IsLocalAddress(littleEndian: bool, owned: seq<Word>, address: Word) returns (result: bool)
    ensures result <==> IsAnyOrLoopback(littleEndian, address) || exists k :: 0 <= k < |owned| && owned[k] == address
    ensures result <==> IsLocal(littleEndian, owned, address)
  {
    if IsAnyOrLoopback(littleEndian, address) {
      return true;
    }
    for k := 0 to |owned|
      invariant address !in owned[..k]
    {
      if address == owned[k] {
        return true;
      }
    }
    return false;
  }

  /** The address is one of the adapter's own. */
  ghost predicate AssignedTo(a: Adapter, address: Word) {
    exists j :: 0 <= j < |a.unicast| && a.unicast[j].IPv4? && a.unicast[j].address == address
  }

  // ---- Where the two forms differ. ----

  /** Two addresses of an adapter, as a little-endian host reads them: 10.0.0.1 with prefix length 8
      and 192.168.0.1 with prefix length 24. */
  const PRIVATE := Swap(0x0A000001)
  const LOCAL := Swap(0xC0A80001)

  /** With two addresses on an adapter the forms may differ. Asked for the second address, which is
      assigned and therefore searched for, the host-order form finds nothing and the network-order
      form finds the adapter. */
  lemma SecondAddressIsMissed()
    ensures IsLocal(true, [PRIVATE, LOCAL], LOCAL)
    ensures var adapters := [Adapter(1, [IPv4(PRIVATE, 8), IPv4(LOCAL, 24)])];
            var entries := [Inet("eth0", PRIVATE, Swap(Mask(8))), Inet("eth0", LOCAL, Swap(Mask(24)))];
            && AssignedTo(adapters[0], LOCAL)
            && Describes(true, entries, adapters, ["eth0"])
            && FirstOnLink(true, adapters, LOCAL, None)
            && FirstAgreeing(entries, LOCAL, "eth0") && !FirstAgreeing(entries, LOCAL, "")
  {
    hide And, Mask, Pow2, Swap, IsAnyOrLoopback;
    SwapTwice(0x0A000001);
    SwapTwice(0xC0A80001);
    Pow2Values();
    Pow2Sum(8, 8);
    Pow2Sum(16, 8);
    assert !Covers(true, IPv4(PRIVATE, 8), LOCAL);
    assert Covers(true, IPv4(LOCAL, 24), LOCAL);
    DecidesAlike(true, IPv4(PRIVATE, 8), "eth0", LOCAL);
    DecidesAlike(true, IPv4(LOCAL, 24), "eth0", LOCAL);
    TwoEntries(true, IPv4(PRIVATE, 8), IPv4(LOCAL, 24), "eth0");
    hide Covers, Agrees;
    var entries := [Inet("eth0", PRIVATE, Swap(Mask(8))), Inet("eth0", LOCAL, Swap(Mask(24)))];
    assert !Agrees(entries[0], LOCAL) && Agrees(entries[1], LOCAL);
    var adapter := Adapter(1, [IPv4(PRIVATE, 8), IPv4(LOCAL, 24)]);
    NotOnLink(true, adapter, LOCAL);
    assert adapter.unicast[1] == IPv4(LOCAL, 24);
  }

  lemma NotOnLink(littleEndian: bool, a: Adapter, address: Word)
    requires a.unicast != [] && a.unicast[0].IPv4? && !Covers(littleEndian, a.unicast[0], address)
    ensures FirstOnLink(littleEndian, [a], address, None)
  {
    hide SameSubnet;
  }

  lemma TwoEntries(littleEndian: bool, u: Unicast, v: Unicast, name: string)
    requires u.IPv4? && v.IPv4? && 2 <= u.prefix <= 32 && 2 <= v.prefix <= 32
    ensures var e := Inet(name, u.address, Reorder(littleEndian, Mask(u.prefix)));
            var f := Inet(name, v.address, Reorder(littleEndian, Mask(v.prefix)));
            Describes(littleEndian, [e, f], [Adapter(1, [u, v])], [name])
  {
    hide Mask, Swap;
    var e := Inet(name, u.address, Reorder(littleEndian, Mask(u.prefix)));
    var f := Inet(name, v.address, Reorder(littleEndian, Mask(v.prefix)));
    assert [u, v][1..] == [v] && [v][1..] == [];
    assert EntriesOf(littleEndian, [v], name) == [f];
    assert EntriesOf(littleEndian, [u, v], name) == [e, f];
    assert [e, f][1..] == [f] && [f][1..] == [];
    assert InetOnly([f]) == [f];
    assert AllEntries(littleEndian, [Adapter(1, [u, v])], [name]) == [e, f] + [];
  }

  // ---- The adapter table. ----

  /** An entry of the adapter table. A name that is a GUID stands for a connection, whose friendly
      name the registry knows; GUID_NULL is 0. */
  datatype AdapterInfo = AdapterInfo(index: nat, name: string, guid: Option<nat>, connection: string) {
    function Label(): string {
      if guid.Some? then connection else name
    }
  }

  /** The friendly name or, where the name is no GUID, the name of the first entry with the index; the
      empty name if there is none. */
  ghost predicate FirstWithIndex(table: seq<AdapterInfo>, index: nat, title: string) {
    || (title == "" && forall k :: 0 <= k < |table| ==> table[k].index != index)
    || (exists k :: 0 <= k < |table| && table[k].index == index
          && title == (if table[k].guid.Some? then table[k].connection else table[k].name)
          && forall j :: 0 <= j < k ==> table[j].index != index)
  }

  /** `indexToInterface`. */
  method IndexToInterface(table: seq<AdapterInfo>, index: nat) returns (title: string)
    ensures FirstWithIndex(table, index, title)
  {
    for k := 0 to |table|
      invariant forall j :: 0 <= j < k ==> table[j].index != index
    {
      if table[k].index == index {
        return if table[k].guid.Some? then table[k].connection else table[k].name;
      }
    }
    return "";
  }

  /** The name is the label of the first adapter on link, or empty if there is none. */
  ghost predicate NamesAdapter(littleEndian: bool, adapters: seq<Adapter>, table: seq<AdapterInfo>,
                               address: Word, r: Option<nat>, name: string) {
    && FirstOnLink(littleEndian, adapters, address, r)
    && if r.Some? then FirstWithIndex(table, adapters[r.value].index, name) else name == ""
  }

  /** What `IPAddressToInterface` returns in its host-order form: for a local address the label of the
      first adapter on link, for any other the label of the interface of the best route. */
  ghost predicate HostFormNames(littleEndian: bool, adapters: seq<Adapter>, table: seq<AdapterInfo>,
                                owned: seq<Word>, bestRoute: Option<nat>, address: Word, name: string) {
    if IsLocal(littleEndian, owned, address) then
      exists r :: NamesAdapter(littleEndian, adapters, table, address, r, name)
    else if bestRoute.Some? then FirstWithIndex(table, bestRoute.value, name)
    else name == ""
  }

  /** `IPAddressToInterface` in its host-order form; the index of the best route is an input, if the
      system finds one. */
  method IPAddressToInterface(littleEndian: bool, adapters: seq<Adapter>, table: seq<AdapterInfo>,
                              owned: seq<Word>, bestRoute: Option<nat>, address: Word)
    returns (name: string)
    requires IsLocal(littleEndian, owned, address) ==> Deliverable(adapters) && adapters != []
    requires IsLocal(littleEndian, owned, address) ==>
      forall k :: 0 <= k < |adapters| ==> adapters[k].unicast != []
    ensures HostFormNames(littleEndian, adapters, table, owned, bestRoute, address, name)
  {
    hide FirstOnLink, FirstWithIndex, IsLocal;
    name := "";
    var local := IsLocalAddress(littleEndian, owned, address);
    if local {
      var found := SearchAdapters(littleEndian, adapters, address);
      if found.Some? {
        assert found.value < |adapters| by { FoundIsAdapter(littleEndian, adapters, address, found); }
        name := IndexToInterface(table, adapters[found.value].index);
      }
      assert NamesAdapter(littleEndian, adapters, table, address, found, name);
    } else if bestRoute.Some? {
      name := IndexToInterface(table, bestRoute.value);
    }
  }

  lemma FoundIsAdapter(littleEndian: bool, adapters: seq<Adapter>, address: Word, r: Option<nat>)
    requires FirstOnLink(littleEndian, adapters, address, r) && r.Some?
    ensures r.value < |adapters|
  {
  }

  // ---- The two builds of the function. ----

  /** All labels are different and not empty. */
  predicate DistinctLabels(table: seq<AdapterInfo>) {
    && (forall k :: 0 <= k < |table| ==> table[k].Label() != "")
    && forall j, k :: 0 <= j < k < |table| ==> table[j].Label() != table[k].Label()
  }

  /** The adapters have different indices, all of them in the table, and these are their labels. */
  ghost predicate Labelled(table: seq<AdapterInfo>, adapters: seq<Adapter>, names: seq<string>) {
    && DistinctLabels(table) && |names| == |adapters|
    && (forall j, k :: 0 <= j < k < |adapters| ==> adapters[j].index != adapters[k].index)
    && forall k :: 0 <= k < |adapters| ==> names[k] != "" && FirstWithIndex(table, adapters[k].index, names[k])
  }

  lemma IndexHasOneLabel(table: seq<AdapterInfo>, index: nat, a: string, b: string)
    requires FirstWithIndex(table, index, a) && FirstWithIndex(table, index, b)
    ensures a == b
  {
  }

  /** A label belongs to one index only. */
  lemma LabelHasOneIndex(table: seq<AdapterInfo>, i: nat, j: nat, name: string)
    requires DistinctLabels(table) && name != ""
    requires FirstWithIndex(table, i, name) && FirstWithIndex(table, j, name)
    ensures i == j
  {
    var k :| 0 <= k < |table| && table[k].index == i && name == table[k].Label();
    var l :| 0 <= l < |table| && table[l].index == j && name == table[l].Label();
    assert k == l;
  }

  lemma LabelsAreDistinct(table: seq<AdapterInfo>, adapters: seq<Adapter>, names: seq<string>)
    requires Labelled(table, adapters, names)
    ensures forall j, k :: 0 <= j < k < |names| ==> names[j] != names[k]
  {
    hide FirstWithIndex, DistinctLabels;
    forall j, k | 0 <= j < k < |names|
      ensures names[j] != names[k]
    {
      if names[j] == names[k] {
        LabelHasOneIndex(table, adapters[j].index, adapters[k].index, names[j]);
      }
    }
  }

  /** The name the host-order form gives for a local address is that of the adapter found. */
  lemma FoundIsNamed(littleEndian: bool, adapters: seq<Adapter>, table: seq<AdapterInfo>, names: seq<string>,
                     address: Word, found: Option<nat>, name: string)
    requires Labelled(table, adapters, names)
    requires NamesAdapter(littleEndian, adapters, table, address, found, name)
    ensures found.Some? ==> found.value < |adapters|
    ensures name == if found.Some? then names[found.value] else ""
  {
    hide FirstWithIndex, FirstOnLink;
    if found.Some? {
      FoundIsAdapter(littleEndian, adapters, address, found);
      IndexHasOneLabel(table, adapters[found.value].index, name, names[found.value]);
    }
  }

  /** An address that is assigned to an adapter lies in a subnet of that adapter. */
  lemma AssignedIsTouched(littleEndian: bool, a: Adapter, address: Word)
    requires Deliverable([a]) && AssignedTo(a, address)
    ensures Touches(littleEndian, a.unicast, address)
  {
    hide SameSubnet;
    var j :| 0 <= j < |a.unicast| && a.unicast[j].IPv4? && a.unicast[j].address == address;
    assert [a][0].unicast[j].prefix <= 32;
    SameSubnetAsItself(Reorder(littleEndian, address), a.unicast[j].prefix);
    assert Covers(littleEndian, a.unicast[j], address);
  }

  lemma SameSubnetAsItself(a: Word, prefix: nat)
    requires prefix <= 32
    ensures SameSubnet(a, a, prefix)
  {
  }

  /** The build that masks in host order and the build that masks in network order return the same
      name for a local address if and only if the first adapter with any agreeing address, if there is
      one, agrees with its first IPv4 address; if the address is assigned to an adapter there is one. */
  lemma BuildsAgreeLocally(littleEndian: bool, adapters: seq<Adapter>, table: seq<AdapterInfo>, names: seq<string>,
                           owned: seq<Word>, bestRoute: Option<nat>, entries: seq<InterfaceAddress>,
                           address: Word, host: string, network: string)
    requires Labelled(table, adapters, names) && Describes(littleEndian, entries, adapters, names)
    requires IsLocal(littleEndian, owned, address)
    requires HostFormNames(littleEndian, adapters, table, owned, bestRoute, address, host)
    requires FirstAgreeing(entries, address, network)
    ensures var p := FirstTouched(littleEndian, adapters, address);
            && (host == network <==> (p < |adapters| ==> OnLink(littleEndian, adapters[p], address)))
            && ((exists k :: 0 <= k < |adapters| && AssignedTo(adapters[k], address)) ==> p < |adapters|)
  {
    hide FirstOnLink, FirstAgreeing, OnLink, Touches, IsLocal;
    var found :| NamesAdapter(littleEndian, adapters, table, address, found, host);
    FoundIsNamed(littleEndian, adapters, table, names, address, found, host);
    LabelsAreDistinct(table, adapters, names);
    SearchesAgreeExactly(littleEndian, entries, adapters, names, address, found, network);
    if k :| 0 <= k < |adapters| && AssignedTo(adapters[k], address) {
      DeliverableOne(adapters, k);
      AssignedIsTouched(littleEndian, adapters[k], address);
    }
  }

  lemma DeliverableOne(adapters: seq<Adapter>, k: nat)
    requires Deliverable(adapters) && k < |adapters|
    ensures Deliverable([adapters[k]])
  {
  }

  /** For every other address they return the same name if and only if the best route leads through
      the first adapter with any agreeing address, or, if there is none, through no known one. */
  lemma BuildsAgreeRemotely(littleEndian: bool, adapters: seq<Adapter>, table: seq<AdapterInfo>, names: seq<string>,
                            owned: seq<Word>, bestRoute: Option<nat>, entries: seq<InterfaceAddress>,
                            address: Word, host: string, network: string)
    requires Labelled(table, adapters, names) && Describes(littleEndian, entries, adapters, names)
    requires !IsLocal(littleEndian, owned, address)
    requires HostFormNames(littleEndian, adapters, table, owned, bestRoute, address, host)
    requires FirstAgreeing(entries, address, network)
    ensures var p := FirstTouched(littleEndian, adapters, address);
            host == network <==>
            if p < |adapters| then bestRoute == Some(adapters[p].index)
            else forall k :: 0 <= k < |table| ==> bestRoute != Some(table[k].index)
  {
    NameOfEntries(littleEndian, entries, adapters, names, address, network);
    hide Describes, FirstAgreeing, Touches, IsLocal;
    var p := FirstTouched(littleEndian, adapters, address);
    if bestRoute.Some? {
      if p < |adapters| {
        RouteIsNamed(table, bestRoute.value, adapters[p].index, host, names[p]);
      } else {
        RouteIsUnknown(table, bestRoute.value, host);
      }
    }
  }

  lemma RouteIsNamed(table: seq<AdapterInfo>, route: nat, index: nat, host: string, name: string)
    requires DistinctLabels(table) && name != ""
    requires FirstWithIndex(table, route, host) && FirstWithIndex(table, index, name)
    ensures host == name <==> route == index
  {
    hide FirstWithIndex, DistinctLabels;
    if route == index {
      IndexHasOneLabel(table, index, host, name);
    }
    if host == name {
      LabelHasOneIndex(table, route, index, name);
    }
  }

  lemma RouteIsUnknown(table: seq<AdapterInfo>, route: nat, host: string)
    requires DistinctLabels(table) && FirstWithIndex(table, route, host)
    ensures host == "" <==> forall k :: 0 <= k < |table| ==> table[k].index != route
  {
  }

  // ---- The look-up by name. ----

  /** The GUID variable of the search when entry k is looked at: it keeps its value while entries
      without a GUID pass. */
  function Seen(table: seq<AdapterInfo>, k: nat): (guid: nat)
    requires k < |table|
  {
    if table[k].guid.Some? then table[k].guid.value
    else if k == 0 then 0
    else Seen(table, k - 1)
  }

  /** It holds the GUID of the last entry that had one. */
  lemma {:induction false} SeenIs(table: seq<AdapterInfo>, k: nat, l: nat)
    requires l <= k < |table| && forall m :: l < m <= k ==> table[m].guid.None?
    ensures table[l].guid.Some? ==> Seen(table, k) == table[l].guid.value
    ensures l == 0 && table[0].guid.None? ==> Seen(table, k) == 0
    decreases k
  {
    if l < k {
      SeenIs(table, k - 1, l);
    }
  }

  /** Entry k is taken for the asked name (asked GUID, if the name is one). */
  predicate Taken(table: seq<AdapterInfo>, k: nat, name: string, guid: Option<nat>)
    requires k < |table|
  {
    || (if guid.Some? then guid.value else 0) == Seen(table, k)
    || (if table[k].guid.Some? then table[k].connection else table[k].name) == name
  }

  /** The index of the first entry that is taken, or 0. */
  ghost predicate FirstTaken(table: seq<AdapterInfo>, name: string, guid: Option<nat>, index: nat) {
    || (exists k :: 0 <= k < |table| && Taken(table, k, name, guid) && index == table[k].index
          && forall j :: 0 <= j < k ==> !Taken(table, j, name, guid))
    || (index == 0 && forall k :: 0 <= k < |table| ==> !Taken(table, k, name, guid))
  }

  /** `interfaceToIndex`. */
  method InterfaceToIndex(table: seq<AdapterInfo>, name: string, guid: Option<nat>) returns (index: nat)
    requires name != ""
    ensures FirstTaken(table, name, guid, index)
  {
    var asked := if guid.Some? then guid.value else 0;
    var seen := 0;
    for k := 0 to |table|
      invariant seen == if k == 0 then 0 else Seen(table, k - 1)
      invariant forall j :: 0 <= j < k ==> !Taken(table, j, name, guid)
    {
      var title := table[k].name;
      if table[k].guid.Some? {
        seen := table[k].guid.value;
        title := table[k].connection;
      }
      if asked == seen || title == name {
        return table[k].index;
      }
    }
    return 0;
  }

  /** For a name that is no GUID the search compares labels, and nothing else, if and only if the
      table is empty or starts with an entry that carries a GUID or the label. Otherwise both GUID
      variables are still GUID_NULL and the first entry is taken whatever it is called. */
  lemma LabelSearchExactly(table: seq<AdapterInfo>, name: string)
    requires forall k :: 0 <= k < |table| ==> table[k].guid != Some(0)
    ensures (forall k :: 0 <= k < |table| && (forall j :: 0 <= j < k ==> !Taken(table, j, name, None)) ==>
              (Taken(table, k, name, None) <==> table[k].Label() == name))
       <==> (table == [] || table[0].guid.Some? || table[0].Label() == name)
  {
    if table != [] {
      if table[0].guid.Some? {
        forall k: nat | k < |table|
          ensures Seen(table, k) != 0
        {
          SeenStays(table, k);
        }
      } else {
        assert Taken(table, 0, name, None);
      }
    }
  }

  /** In a table of GUIDs with different friendly names the two look-ups are inverse: the title
      found for the index of an entry leads back to that index. */
  lemma TitleLeadsBack(table: seq<AdapterInfo>, index: nat, title: string, index': nat)
    requires forall k :: 0 <= k < |table| ==> table[k].guid.Some? && table[k].guid != Some(0)
    requires forall j, k :: 0 <= j < k < |table| ==> table[j].connection != table[k].connection
    requires exists k :: 0 <= k < |table| && table[k].index == index
    requires FirstWithIndex(table, index, title) && FirstTaken(table, title, None, index')
    ensures index' == index
  {
    var k :| 0 <= k < |table| && table[k].index == index && title == table[k].connection;
    assert Taken(table, k, title, None);
    forall j | 0 <= j < |table| && j != k
      ensures !Taken(table, j, title, None)
    {
      assert Seen(table, j) == table[j].guid.value;
    }
  }

  /** A GUID that is asked for finds the first entry that carries it, wherever entries without a GUID
      stand, as long as its text is no title. */
  lemma GuidIsFound(table: seq<AdapterInfo>, name: string, guid: nat, index: nat)
    requires guid != 0 && FirstTaken(table, name, Some(guid), index)
    requires forall k :: 0 <= k < |table| ==>
      name != if table[k].guid.Some? then table[k].connection else table[k].name
    ensures (index == 0 && forall k :: 0 <= k < |table| ==> table[k].guid != Some(guid))
         || (exists k :: 0 <= k < |table| && table[k].guid == Some(guid) && index == table[k].index
               && forall j :: 0 <= j < k ==> table[j].guid != Some(guid))
  {
    forall k: nat | k < |table|
      ensures table[k].guid == Some(guid) ==> Taken(table, k, name, Some(guid))
      ensures Taken(table, k, name, Some(guid)) ==> Seen(table, k) == guid
    {
    }
    hide Taken, Seen;
    if exists k :: 0 <= k < |table| && Taken(table, k, name, Some(guid)) {
      var k :| 0 <= k < |table| && Taken(table, k, name, Some(guid)) && index == table[k].index
        && forall j :: 0 <= j < k ==> !Taken(table, j, name, Some(guid));
      var l := SeenComesFrom(table, k, guid);
      assert l == k;
    }
  }

  /** The GUID seen is one that an entry carries. */
  lemma {:induction false} SeenComesFrom(table: seq<AdapterInfo>, k: nat, guid: nat) returns (l: nat)
    requires k < |table| && Seen(table, k) == guid != 0
    ensures l <= k && table[l].guid == Some(guid)
  {
    l := k;
    if table[k].guid.None? {
      l := SeenComesFrom(table, k - 1, guid);
    }
  }

  lemma {:induction false} SeenStays(table: seq<AdapterInfo>, k: nat)
    requires k < |table| && table[0].guid.Some?
    requires forall k :: 0 <= k < |table| ==> table[k].guid != Some(0)
    ensures Seen(table, k) != 0
  {
    if k > 0 {
      SeenStays(table, k - 1);
    }
  }
}

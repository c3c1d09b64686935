/** The text form of IPv4 socket addresses and its inverse: `IPAddressToString` and
    `stringToIPAddress` (src/net_common_tools.cpp, src/net_common_tools.h). */
module AddressText {
  import opened Options
  import opened Decimal
  import opened Words
  import opened DottedDecimal

  // ---- The printer and the parser of dotted-decimal addresses. ----

  function Dotted(a: Word): string {
    Print(ByteOf(a, 3)) + ['.'] + (Print(ByteOf(a, 2)) + ['.']
      + (Print(ByteOf(a, 1)) + ['.'] + Print(ByteOf(a, 0))))
  }

  predicate NoneEmpty(f: seq<string>) {
    forall k :: 0 <= k < |f| ==> f[k] != ""
  }

  lemma {:induction false} FieldsAt(f: seq<string>)
    ensures AllAreFields(f) <==> forall k :: 0 <= k < |f| ==> Field(f[k])
  {
    if f != [] {
      FieldsAt(f[1..]);
      assert f == [f[0]] + f[1..];
    }
  }

  function ParseDotted(s: string): Option<Word> {
    var f := SplitOn('.', s);
    if |f| == 4 && AllAreFields(f) && NoneEmpty(f) then
      FieldsAt(f);
      Some(Join(Value(f[0]), Value(f[1]), Value(f[2]), Value(f[3])))
    else None
  }

  lemma PrintedByteIsField(b: Byte)
    ensures Field(Print(b)) && Print(b) != "" && Value(Print(b)) == b
    ensures '.' !in Print(b) && ':' !in Print(b)
  {
    PrintIsCanonical(b);
  }

  lemma DottedSplits(a: Word)
    ensures SplitOn('.', Dotted(a))
         == [Print(ByteOf(a, 3)), Print(ByteOf(a, 2)), Print(ByteOf(a, 1)), Print(ByteOf(a, 0))]
    ensures ':' !in Dotted(a)
  {
    hide Print, ByteOf, SplitOn;
    var p3, p2, p1, p0 := Print(ByteOf(a, 3)), Print(ByteOf(a, 2)), Print(ByteOf(a, 1)), Print(ByteOf(a, 0));
    PrintedByteIsField(ByteOf(a, 3));
    PrintedByteIsField(ByteOf(a, 2));
    PrintedByteIsField(ByteOf(a, 1));
    PrintedByteIsField(ByteOf(a, 0));
    SplitOnNone('.', p0);
    SplitOnFirst('.', p1, p0);
    SplitOnFirst('.', p2, p1 + ['.'] + p0);
    SplitOnFirst('.', p3, p2 + ['.'] + (p1 + ['.'] + p0));
  }

  /** Parsing undoes printing. */
  lemma ParseOfDotted(a: Word)
    ensures ParseDotted(Dotted(a)) == Some(a)
  {
    hide Print, ByteOf, SplitOn, Field, Join;
    DottedSplits(a);
    PrintedByteIsField(ByteOf(a, 3));
    PrintedByteIsField(ByteOf(a, 2));
    PrintedByteIsField(ByteOf(a, 1));
    PrintedByteIsField(ByteOf(a, 0));
    FieldsAt(SplitOn('.', Dotted(a)));
    JoinBytes(a);
  }

  function JoinWith(c: char, f: seq<string>): string
    requires f != []
  {
    if |f| == 1 then f[0] else f[0] + [c] + JoinWith(c, f[1..])
  }

  lemma {:induction false} JoinOfSplit(c: char, s: string)
    ensures JoinWith(c, SplitOn(c, s)) == s
  {
    if s != "" {
      JoinOfSplit(c, s[1..]);
      var g := SplitOn(c, s[1..]);
      if s[0] == c {
        assert ([""] + g)[1..] == g;
        assert "" + [c] + s[1..] == s;
      } else {
        var f := [[s[0]] + g[0]] + g[1..];
        assert f[1..] == g[1..];
        if |g| == 1 {
          assert [s[0]] + s[1..] == s;
        } else {
          assert ([s[0]] + g[0]) + [c] + JoinWith(c, g[1..]) == [s[0]] + (g[0] + [c] + JoinWith(c, g[1..]));
          assert [s[0]] + s[1..] == s;
        }
      }
    }
  }

  lemma FieldIsPrinted(f: string)
    requires Field(f) && f != ""
    ensures Print(Value(f)) == f && Value(f) < 0x100
  {
    CanonicalIsPrinted(f);
  }

  /** Printing undoes parsing. */
  lemma DottedOfParse(s: string)
    requires ParseDotted(s).Some?
    ensures Dotted(ParseDotted(s).value) == s
  {
    var f := SplitOn('.', s);
    FieldsAt(f);
    FieldIsPrinted(f[0]);
    FieldIsPrinted(f[1]);
    FieldIsPrinted(f[2]);
    FieldIsPrinted(f[3]);
    BytesOfJoin(Value(f[0]), Value(f[1]), Value(f[2]), Value(f[3]));
    JoinOfSplit('.', s);
    hide Print, ByteOf, SplitOn, Field, Join, Value;
    FourFields('.', f);
  }

  lemma FourFields(c: char, f: seq<string>)
    requires |f| == 4
    ensures JoinWith(c, f) == f[0] + [c] + (f[1] + [c] + (f[2] + [c] + f[3]))
  {
    var g := f[1..];
    var h := g[1..];
    assert h[1..] == [f[3]] && h[0] == f[2] && g[0] == f[1];
    assert JoinWith(c, h) == f[2] + [c] + f[3];
    assert JoinWith(c, g) == f[1] + [c] + JoinWith(c, h);
  }

  /** Among the texts without empty fields, `matchIPAddress` accepts exactly the printed addresses,
      each the text of one address only. */
  lemma AcceptedExactlyPrinted(s: string)
    ensures |SplitOn('.', s)| == 4 && AllAreFields(SplitOn('.', s)) && NoneEmpty(SplitOn('.', s))
       <==> exists a: Word :: s == Dotted(a)
    ensures forall a: Word, b: Word :: s == Dotted(a) && s == Dotted(b) ==> a == b
  {
    hide SplitOn, Dotted;
    if ParseDotted(s).Some? {
      DottedOfParse(s);
    }
    if a: Word :| s == Dotted(a) {
      ParseOfDotted(a);
    }
    forall a: Word, b: Word | s == Dotted(a) && s == Dotted(b)
      ensures a == b
    {
      ParseOfDotted(a);
      ParseOfDotted(b);
    }
  }

  // ---- Socket addresses. ----

  type Port = p: nat | p < 0x10000

  /** ACE_HTONS and ACE_NTOHS. */
  function ReorderPort(littleEndian: bool, p: Port): Port {
    if littleEndian then p % 0x100 * 0x100 + p / 0x100 else p
  }

  /** ACE_INET_Addr, by the values its accessors return in host byte order. */
  datatype InetAddr = InetAddr(address: Word, port: Port)

  /** `ACE_INET_Addr::set` with data already in network byte order. */
  function FromNetwork(littleEndian: bool, port: Port, address: Word): InetAddr {
    InetAddr(Reorder(littleEndian, address), ReorderPort(littleEndian, port))
  }

  /** `ACE_INET_Addr::addr_to_string` in its numeric form. */
  function AddrToString(a: InetAddr): string {
    Dotted(a.address) + [':'] + Print(a.port)
  }

  /** `std::string::find_last_of`. */
  function LastOf(c: char, s: string): (p: int)
    ensures -1 <= p < |s|
    ensures p >= 0 ==> s[p] == c
    ensures forall j :: p < j < |s| ==> s[j] != c
  {
    if s == "" then -1 else if s[|s| - 1] == c then |s| - 1 else LastOf(c, s[..|s| - 1])
  }

  /** `IPAddressToString (port, address)`, both in network byte order. */
  function IPAddressToString(littleEndian: bool, port: Port, address: Word): string {
    var s := AddrToString(FromNetwork(littleEndian, port, address));
    var colon := LastOf(':', s);
    if port == 0 && colon >= 0 then s[..colon] else s
  }

  /** `IPAddressToString (address, addressOnly)`. */
  function AddressToString(littleEndian: bool, a: InetAddr, addressOnly: bool): string {
    IPAddressToString(littleEndian, if addressOnly then 0 else ReorderPort(littleEndian, a.port),
                      Reorder(littleEndian, a.address))
  }

  /** What is used of `ACE_INET_Addr::string_to_addr`, which belongs to the base library: it reads
      back what `addr_to_string` prints. What it makes of other texts is left open. */
  ghost predicate ReadsPrinted(parse: string -> Option<InetAddr>) {
    forall a: InetAddr :: parse(AddrToString(a)) == Some(a)
  }

  /** One parser that does: it reads a canonical dotted-decimal address with a decimal port, and
      nothing else. */
  function StringToAddr(s: string): Option<InetAddr> {
    var colon := LastOf(':', s);
    if colon < 0 then None
    else
      var host, port := ParseDotted(s[..colon]), s[colon + 1..];
      if host.Some? && port != "" && AllDigits(port) && Value(port) < 0x10000
      then Some(InetAddr(host.value, Value(port)))
      else None
  }

  /** `stringToIPAddress`: a port is supplied if there is none; what cannot be parsed gives the
      default address. */
  function StringToIPAddress(parse: string -> Option<InetAddr>, s: string): InetAddr {
    var t := if ':' in s then s else s + ":0";
    var a := parse(t);
    if a.Some? then a.value else InetAddr(0, 0)
  }

  lemma CanonicalParserReadsPrinted()
    ensures ReadsPrinted(StringToAddr)
  {
    forall a: InetAddr
      ensures StringToAddr(AddrToString(a)) == Some(a)
    {
      ColonInAddrToString(a);
    }
  }

  lemma ReorderPortTwice(littleEndian: bool, p: Port)
    ensures ReorderPort(littleEndian, ReorderPort(littleEndian, p)) == p
    ensures ReorderPort(littleEndian, p) == 0 <==> p == 0
  {
    var high, low := p / 0x100, p % 0x100;
    var r := low * 0x100 + high;
    assert r / 0x100 == low && r % 0x100 == high;
  }

  lemma ReorderTwice(littleEndian: bool, a: InetAddr)
    ensures FromNetwork(littleEndian, ReorderPort(littleEndian, a.port), Reorder(littleEndian, a.address)) == a
    ensures FromNetwork(littleEndian, 0, Reorder(littleEndian, a.address)) == a.(port := 0)
    ensures ReorderPort(littleEndian, a.port) == 0 <==> a.port == 0
  {
    hide Swap, ReorderPort;
    SwapTwice(a.address);
    ReorderPortTwice(littleEndian, a.port);
    ReorderPortTwice(littleEndian, 0);
  }

  lemma LastColon(host: string, port: string)
    requires ':' !in port
    ensures LastOf(':', host + [':'] + port) == |host|
  {
    hide LastOf;
    var s := host + [':'] + port;
    var p := LastOf(':', s);
    assert s[|host|] == ':';
  }

  lemma ColonInAddrToString(a: InetAddr)
    ensures LastOf(':', AddrToString(a)) == |Dotted(a.address)|
    ensures StringToAddr(AddrToString(a)) == Some(a)
  {
    hide Dotted, ParseDotted;
    var host, port := Dotted(a.address), Print(a.port);
    PrintIsCanonical(a.port);
    LastColon(host, port);
    ParseOfDotted(a.address);
    var s := AddrToString(a);
    assert s[..|host|] == host && s[|host| + 1..] == port;
  }

  /** The two overloads print the address, and the port unless it is 0 or not asked for. */
  lemma AddressToStringIs(littleEndian: bool, a: InetAddr, addressOnly: bool)
    ensures AddressToString(littleEndian, a, addressOnly)
         == if addressOnly || a.port == 0 then Dotted(a.address) else AddrToString(a)
  {
    hide Dotted, StringToAddr, Reorder, ReorderPort;
    ReorderTwice(littleEndian, a);
    ColonInAddrToString(a.(port := 0));
    var s := AddrToString(a.(port := 0));
    assert s[..|Dotted(a.address)|] == Dotted(a.address);
  }

  /** The port number a host reads from two octets in memory. */
  function PortInMemory(littleEndian: bool, high: Byte, low: Byte): Port {
    if littleEndian then high + 0x100 * low else 0x100 * high + low
  }

  /** In host byte order the first octet in memory is the high one, on either host. */
  lemma PortOctets(littleEndian: bool, high: Byte, low: Byte)
    ensures ReorderPort(littleEndian, PortInMemory(littleEndian, high, low)) == 0x100 * high + low
    ensures PortInMemory(littleEndian, high, low) == 0 <==> high == 0 && low == 0
  {
    var p := high + 0x100 * low;
    assert p / 0x100 == low && p % 0x100 == high;
  }

  lemma DottedOctets(a: Byte, b: Byte, c: Byte, d: Byte)
    ensures Dotted(Join(a, b, c, d)) == Print(a) + "." + Print(b) + "." + Print(c) + "." + Print(d)
  {
    BytesOfJoin(a, b, c, d);
    hide Print, ByteOf, Join;
  }

  /** The overload for network byte order prints the octets a.b.c.d in the order they have in memory,
      then the port of the two octets unless it is 0. */
  lemma IPAddressToStringIs(littleEndian: bool, high: Byte, low: Byte, a: Byte, b: Byte, c: Byte, d: Byte)
    ensures IPAddressToString(littleEndian, PortInMemory(littleEndian, high, low), InMemory(littleEndian, a, b, c, d))
         == Print(a) + "." + Print(b) + "." + Print(c) + "." + Print(d)
          + if high == 0 && low == 0 then "" else ":" + Print(0x100 * high + low)
  {
    PortOctets(littleEndian, high, low);
    OctetsInOrder(littleEndian, a, b, c, d);
    DottedOctets(a, b, c, d);
    hide Print, Dotted, Reorder, ReorderPort, Join, InMemory, PortInMemory, StringToAddr, LastOf;
    var address := InetAddr(Join(a, b, c, d), 0x100 * high + low);
    ColonInAddrToString(address);
    assert AddrToString(address)[..|Dotted(address.address)|] == Dotted(address.address);
  }

  /** The text without its port: what `stringToIPAddress` completes. */
  lemma PortIsSupplied(a: Word)
    ensures ':' !in Dotted(a) && Dotted(a) + ":0" == AddrToString(InetAddr(a, 0))
  {
    hide Dotted, Print;
    DottedSplits(a);
    PrintsZero();
  }

  lemma PortIsThere(a: InetAddr)
    ensures ':' in AddrToString(a)
  {
    hide Dotted, Print;
    assert AddrToString(a)[|Dotted(a.address)|] == ':';
  }

  /** Whatever else the parser reads: a dotted address gives the address with port 0, one followed by
      a colon and a decimal port gives address and port. */
  lemma ReadsCanonicalTexts(parse: string -> Option<InetAddr>, a: Word, port: Port)
    requires ReadsPrinted(parse)
    ensures StringToIPAddress(parse, Dotted(a)) == InetAddr(a, 0)
    ensures StringToIPAddress(parse, Dotted(a) + [':'] + Print(port)) == InetAddr(a, port)
  {
    hide Dotted, Print;
    PortIsSupplied(a);
    PortIsThere(InetAddr(a, port));
    assert AddrToString(InetAddr(a, port)) == Dotted(a) + [':'] + Print(port);
  }

  /** `stringToIPAddress` undoes `IPAddressToString` for every address, port and byte order; with
      the address only, the port comes back as 0. */
  lemma TextRoundTrip(parse: string -> Option<InetAddr>, littleEndian: bool, a: InetAddr, addressOnly: bool)
    requires ReadsPrinted(parse)
    ensures StringToIPAddress(parse, AddressToString(littleEndian, a, addressOnly))
         == if addressOnly then a.(port := 0) else a
  {
    AddressToStringIs(littleEndian, a, addressOnly);
    hide Dotted, AddressToString, Print, ReadsPrinted, StringToIPAddress;
    ReadsCanonicalTexts(parse, a.address, a.port);
  }

  lemma PrintsZero()
    ensures Print(0) == "0"
  {
  }

  /** Hence different addresses have different texts. */
  lemma TextInjective(littleEndian: bool, a: InetAddr, b: InetAddr)
    requires AddressToString(littleEndian, a, false) == AddressToString(littleEndian, b, false)
    ensures a == b
  {
    CanonicalParserReadsPrinted();
    TextRoundTrip(StringToAddr, littleEndian, a, false);
    TextRoundTrip(StringToAddr, littleEndian, b, false);
  }

  /** With the parser of canonical texts: without a colon the text is an address with port 0, or gives
      the default address; with one, what follows the last colon is the port. */
  lemma StringToIPAddressIs(host: string, port: string)
    requires ':' !in port
    ensures ':' !in host ==>
      StringToIPAddress(StringToAddr, host) ==
      if ParseDotted(host).Some? then InetAddr(ParseDotted(host).value, 0) else InetAddr(0, 0)
    ensures StringToIPAddress(StringToAddr, host + [':'] + port) ==
      if ParseDotted(host).Some? && port != "" && AllDigits(port) && Value(port) < 0x10000
      then InetAddr(ParseDotted(host).value, Value(port)) else InetAddr(0, 0)
  {
    hide ParseDotted, LastOf;
    SplitAtColon(host, port);
    SplitAtColon(host, "0");
    assert host + ":0" == host + [':'] + "0";
    assert Value("0") == 0 by { assert "0"[..0] == ""; }
    assert (host + [':'] + port)[|host|] == ':';
  }

  lemma SplitAtColon(host: string, port: string)
    requires ':' !in port
    ensures var s := host + [':'] + port;
            LastOf(':', s) == |host| && s[..|host|] == host && s[|host| + 1..] == port
  {
    LastColon(host, port);
  }

  /** A canonical dotted text gives exactly the address whose text it is. */
  lemma ParsesExactlyPrinted(s: string, a: Word)
    ensures ParseDotted(s) == Some(a) <==> s == Dotted(a)
  {
    hide Dotted;
    if ParseDotted(s) == Some(a) {
      DottedOfParse(s);
    }
    ParseOfDotted(a);
  }
}

/** `URLToHostName`: the host part of a URL, found by a greedy backtracking match
    (src/net_common_tools.cpp). */
module UrlHost {
  import opened Options
  import opened Decimal
  import opened Regex

  // The capture groups of ^([[:alpha:]]+://)?([^\/\:]+)(\:[[:digit:]]{1,5})?(.+)?$
  const SCHEME := Group(true, [Run(Alpha, 1, None)] + [Literal(':')] + [Literal('/')] + [Literal('/')])
  const HOST := Group(false, [Run(NoneOf("/:"), 1, None)])
  const PORT := Group(true, [Literal(':')] + [Run(Digit, 1, Some(5))])
  const REST := Group(true, [Run(Dot, 1, None)])

  function Text(s: string, span: Span): string {
    if span.from <= span.to <= |s| then s[span.from..span.to] else ""
  }

  function URLToHostName(url: string, returnProtocol: bool, returnPort: bool): string {
    var c := MatchGroups([SCHEME, HOST, PORT, REST], url, 0);
    if c == None || c.value[1] == None then ""
    else
      (if returnProtocol && c.value[0].Some? then Text(url, c.value[0].value) else "")
      + Text(url, c.value[1].value)
      + (if returnPort && c.value[2].Some? then Text(url, c.value[2].value) else "")
  }

  // ---- A deterministic scan. ----

  /** No line terminator from position i on. */
  predicate DotsFrom(s: string, i: nat)
    requires i <= |s|
  {
    forall j :: i <= j < |s| ==> s[j] != '\n' && s[j] != '\r'
  }

  function ScanRest(s: string, i: nat): (c: Option<Captures>)
    requires i <= |s|
    ensures c.Some? <==> DotsFrom(s, i)
    ensures c.Some? ==> |c.value| == 1
  {
    if i == |s| then Some([None])
    else if DotsFrom(s, i) then Some([Some(Span(i, |s|))])
    else None
  }

  /** The number of port digits from position i on. */
  function PortDigits(s: string, i: nat): (d: nat)
    requires i <= |s|
    ensures i + d <= |s|
  {
    Greedy(Run(Digit, 1, Some(5)), s, i)
  }

  predicate PortAt(s: string, i: nat)
    requires i <= |s|
  {
    i < |s| && s[i] == ':' && PortDigits(s, i + 1) > 0
  }

  function ScanPort(s: string, i: nat): (c: Option<Captures>)
    requires i <= |s|
    ensures c.Some? ==> |c.value| == 2
  {
    if PortAt(s, i) then
      var e := i + 1 + PortDigits(s, i + 1);
      Prepend(Some(Span(i, e)), ScanRest(s, e))
    else Prepend(None, ScanRest(s, i))
  }

  function HostLength(s: string, i: nat): (h: nat)
    requires i <= |s|
    ensures i + h <= |s|
  {
    RunLength(NoneOf("/:"), s, i)
  }

  function ScanHost(s: string, i: nat): (c: Option<Captures>)
    requires i <= |s|
    ensures c.Some? ==> |c.value| == 3 && c.value[0].Some?
  {
    var e := i + HostLength(s, i);
    if e == i then None else Prepend(Some(Span(i, e)), ScanPort(s, e))
  }

  /** The end of a scheme with its separator, or 0. */
  function SchemeEnd(s: string): (e: nat)
    ensures e <= |s|
  {
    var a := RunLength(Alpha, s, 0);
    if a > 0 && a + 3 <= |s| && s[a] == ':' && s[a + 1] == '/' && s[a + 2] == '/' then a + 3 else 0
  }

  /** Left to right without going back, except that a scheme after which no host follows is taken
      for the host. */
  function Scan(s: string): (c: Option<Captures>)
    ensures c.Some? ==> |c.value| == 4 && c.value[1].Some?
  {
    var e := SchemeEnd(s);
    if e > 0 && ScanHost(s, e).Some? then Prepend(Some(Span(0, e)), ScanHost(s, e))
    else Prepend(None, ScanHost(s, 0))
  }

  // ---- The match is the scan. ----

  lemma RestIsScanned(s: string, i: nat)
    requires i <= |s|
    ensures MatchGroups([REST], s, i) == ScanRest(s, i)
  {
    var rs := REST.runs;
    var e := i + RunLength(Dot, s, i);
    assert [REST][1..] == [] && rs[1..] == [];
    assert MatchGroups([REST], s, i) ==
      var taken := TryEnds(rs, [], s, i, i, e);
      if taken.Some? then taken else Prepend(None, MatchGroups([], s, i));
    var end: Captures := [];
    assert MatchGroups([], s, |s|) == Some(end);
    assert [None] + end == [None];
    if e == |s| && i < |s| {
      assert [Some(Span(i, e))] + end == [Some(Span(i, e))];
      TryEndsFirst(rs, [], s, i, i, e, e);
    } else {
      forall j: nat | i + 1 <= j <= e
        ensures MatchRuns(rs[1..], [], s, i, j) == None
      {
        assert MatchGroups([], s, j) == None;
      }
      TryEndsFails(rs, [], s, i, i, e);
      assert TryEnds(rs, [], s, i, i, e) == None;
      assert e < |s| ==> !Accepts(Dot, s[e]);
      assert i < |s| ==> MatchGroups([], s, i) == None;
    }
  }

  lemma PortIsScanned(s: string, i: nat)
    requires i <= |s|
    ensures MatchGroups([PORT, REST], s, i) == ScanPort(s, i)
  {
    var digits := [Run(Digit, 1, Some(5))];
    assert [PORT, REST][1..] == [REST];
    RestIsScanned(s, i);
    LiteralIs(':', digits, [REST], s, i, i);
    if i < |s| && s[i] == ':' {
      var e := i + 1 + PortDigits(s, i + 1);
      DigitsIsScanned(s, i);
      assert e > i + 1 && !DotsFrom(s, e) ==> !DotsFrom(s, i);
    }
  }

  /** The digits of a port, then the rest. */
  lemma DigitsIsScanned(s: string, i: nat)
    requires i < |s|
    ensures MatchRuns([Run(Digit, 1, Some(5))], [REST], s, i, i + 1) ==
      if PortDigits(s, i + 1) == 0 then None
      else var e := i + 1 + PortDigits(s, i + 1); Prepend(Some(Span(i, e)), ScanRest(s, e))
  {
    var rs := [Run(Digit, 1, Some(5))];
    var e := i + 1 + PortDigits(s, i + 1);
    assert rs[1..] == [];
    forall j: nat | i + 2 <= j <= e
      ensures MatchRuns(rs[1..], [REST], s, i, j) == Prepend(Some(Span(i, j)), ScanRest(s, j))
      ensures DotsFrom(s, j) == DotsFrom(s, e)
    {
      RestIsScanned(s, j);
      assert forall k :: j <= k < e ==> Accepts(Digit, s[k]);
    }
    if e > i + 1 && DotsFrom(s, e) {
      TryEndsFirst(rs, [REST], s, i, i + 1, e, e);
    } else {
      TryEndsFails(rs, [REST], s, i, i + 1, e);
    }
  }

  lemma HostIsScanned(s: string, i: nat)
    requires i <= |s|
    ensures MatchGroups([HOST, PORT, REST], s, i) == ScanHost(s, i)
  {
    var rs, rest := HOST.runs, [PORT, REST];
    var e := i + HostLength(s, i);
    assert [HOST, PORT, REST][1..] == rest && rs[1..] == [];
    forall j: nat | i + 1 <= j <= e
      ensures MatchRuns(rs[1..], rest, s, i, j) == Prepend(Some(Span(i, j)), ScanPort(s, j))
    {
      PortIsScanned(s, j);
    }
    if e > i && ScanPort(s, e).Some? {
      TryEndsFirst(rs, rest, s, i, i, e, e);
    } else {
      forall j: nat | i + 1 <= j <= e
        ensures ScanPort(s, j) == None
      {
        if j < e {
          assert Accepts(NoneOf("/:"), s[j]);
          PortFailsOnBreak(s, e);
        }
      }
      TryEndsFails(rs, rest, s, i, i, e);
    }
  }

  /** Port and rest fail only because of a line terminator, which no earlier start avoids. */
  lemma PortFailsOnBreak(s: string, i: nat)
    requires i <= |s|
    ensures ScanPort(s, i).Some? <==> DotsFrom(s, i)
  {
    if PortAt(s, i) {
      assert forall k :: i + 1 <= k < i + 1 + PortDigits(s, i + 1) ==> Accepts(Digit, s[k]);
    }
  }

  lemma SeparatorIsScanned(s: string, j: nat)
    requires j <= |s|
    ensures MatchRuns(SCHEME.runs[1..], [HOST, PORT, REST], s, 0, j) ==
      if j + 3 <= |s| && s[j] == ':' && s[j + 1] == '/' && s[j + 2] == '/'
      then Prepend(Some(Span(0, j + 3)), ScanHost(s, j + 3)) else None
  {
    var rest := [HOST, PORT, REST];
    assert SCHEME.runs[1..] == [Literal(':')] + ([Literal('/')] + ([Literal('/')] + []));
    LiteralIs(':', [Literal('/')] + ([Literal('/')] + []), rest, s, 0, j);
    if j < |s| {
      LiteralIs('/', [Literal('/')] + [], rest, s, 0, j + 1);
    }
    if j + 1 < |s| {
      LiteralIs('/', [], rest, s, 0, j + 2);
    }
    if j + 2 < |s| {
      HostIsScanned(s, j + 3);
    }
  }

  /** The backtracking match finds the scan, for every string. */
  lemma MatchIsScan(s: string)
    ensures MatchGroups([SCHEME, HOST, PORT, REST], s, 0) == Scan(s)
  {
    hide ScanHost;
    var rs, rest := SCHEME.runs, [HOST, PORT, REST];
    var a := RunLength(Alpha, s, 0);
    assert [SCHEME, HOST, PORT, REST][1..] == rest;
    HostIsScanned(s, 0);
    forall j: nat | 1 <= j <= a
      ensures MatchRuns(rs[1..], rest, s, 0, j) ==
        if j == a && SchemeEnd(s) > 0 then Prepend(Some(Span(0, j + 3)), ScanHost(s, j + 3)) else None
    {
      SeparatorIsScanned(s, j);
      assert j < a ==> Accepts(Alpha, s[j]);
    }
    assert Greedy(rs[0], s, 0) == a;
    if a > 0 && SchemeEnd(s) > 0 && ScanHost(s, a + 3).Some? {
      TryEndsFirst(rs, rest, s, 0, 0, a, a);
    } else {
      TryEndsFails(rs, rest, s, 0, 0, a);
    }
  }

  // ---- The accepted language. ----

  predicate Letters(s: string) {
    forall j :: 0 <= j < |s| ==> 'a' <= s[j] <= 'z' || 'A' <= s[j] <= 'Z'
  }

  /** Letters, then "://". */
  predicate IsScheme(s: string) {
    |s| >= 4 && s[|s| - 3..] == "://" && Letters(s[..|s| - 3])
  }

  predicate IsHost(s: string) {
    s != "" && '/' !in s && ':' !in s
  }

  /** A colon, then one to five digits. */
  predicate IsPort(s: string) {
    2 <= |s| <= 6 && s[0] == ':' && forall j :: 1 <= j < |s| ==> '0' <= s[j] <= '9'
  }

  /** An optional scheme, a host, an optional port, and a rest without line terminators. */
  ghost predicate Decomposes(s: string, scheme: string, host: string, port: string, rest: string) {
    && s == scheme + host + port + rest
    && (scheme == "" || IsScheme(scheme)) && IsHost(host) && (port == "" || IsPort(port))
    && '\n' !in rest && '\r' !in rest
  }

  /** What ScanHost needs. */
  lemma ScanHostSucceeds(s: string, i: nat)
    requires i <= |s|
    ensures ScanHost(s, i).Some? <==> HostLength(s, i) > 0 && DotsFrom(s, i + HostLength(s, i))
  {
    PortFailsOnBreak(s, i + HostLength(s, i));
  }

  lemma SchemeEndOf(s: string, n: nat)
    requires n <= |s| && IsScheme(s[..n])
    ensures SchemeEnd(s) == n
  {
    var t := s[..n];
    assert forall j :: 0 <= j < n ==> s[j] == t[j];
    assert t[n - 3..] == [t[n - 3], t[n - 2], t[n - 1]];
    assert forall j :: 0 <= j < n - 3 ==> t[j] == t[..n - 3][j];
    RunLengthIs(Alpha, s, 0, n - 3);
  }

  lemma RunLengthIs(k: Class, s: string, i: nat, n: nat)
    requires i + n <= |s|
    requires forall j :: i <= j < i + n ==> Accepts(k, s[j])
    requires i + n < |s| ==> !Accepts(k, s[i + n])
    ensures RunLength(k, s, i) == n
  {
  }

  function Piece(s: string, span: Option<Span>): string {
    if span.Some? then Text(s, span.value) else ""
  }

  /** The captures of a URL whose scheme ends at i, host at e and port at f. */
  function Cuts(s: string, i: nat, e: nat, f: nat): Captures {
    [if i > 0 then Some(Span(0, i)) else None] + ([Some(Span(i, e))]
      + ([if f > e then Some(Span(e, f)) else None] + [if f < |s| then Some(Span(f, |s|)) else None]))
  }

  /** The text is cut at these positions into scheme, host, port and rest. */
  ghost predicate CutAt(s: string, i: nat, e: nat, f: nat) {
    && i < e <= f <= |s|
    && (i == 0 || IsScheme(s[..i]))
    && IsHost(s[i..e])
    && (f == e || IsPort(s[e..f]))
    && DotsFrom(s, f)
  }

  /** Of several cuts the match takes this one: the host ends at a slash or a colon only, letters
      before "://" are a scheme if a host follows, and a port is not left to the rest. */
  ghost predicate Preferred(s: string, i: nat, e: nat, f: nat) {
    && CutAt(s, i, e, f)
    && (e < |s| ==> s[e] == '/' || s[e] == ':')
    && (i == 0 && Letters(s[..e]) && e + 3 < |s| && s[e..e + 3] == "://" ==> s[e + 3] == '/' || s[e + 3] == ':')
    && (f == e && e + 1 < |s| && s[e] == ':' ==> !('0' <= s[e + 1] <= '9'))
    && (e < f < |s| && f - e < 6 ==> !('0' <= s[f] <= '9'))
  }

  lemma ScanCuts(s: string) returns (i: nat, e: nat, f: nat)
    requires Scan(s).Some?
    ensures Preferred(s, i, e, f) && Scan(s) == Some(Cuts(s, i, e, f))
  {
    hide ScanHost, SchemeEnd, IsScheme, IsHost, IsPort, DotsFrom, Letters;
    i := if SchemeEnd(s) > 0 && ScanHost(s, SchemeEnd(s)).Some? then SchemeEnd(s) else 0;
    assert Scan(s) == Prepend(if i > 0 then Some(Span(0, i)) else None, ScanHost(s, i));
    e, f := HostCut(s, i);
    if i > 0 {
      SchemeIsScheme(s);
    } else if Letters(s[..e]) && e + 3 < |s| && s[e..e + 3] == "://" && !(s[e + 3] == '/' || s[e + 3] == ':') {
      SchemeIsTaken(s, e, f);
    }
  }

  /** Letters before "://" with a host behind are a scheme and a host to the scan. */
  lemma SchemeIsTaken(s: string, e: nat, f: nat)
    requires 0 < e <= f <= |s| && Letters(s[..e]) && e + 3 < |s| && s[e..e + 3] == "://"
    requires s[e + 3] != '/' && s[e + 3] != ':' && DotsFrom(s, f) && (f == e || IsPort(s[e..f]))
    ensures SchemeEnd(s) == e + 3 && ScanHost(s, e + 3).Some?
  {
    PortIsDots(s, e, f);
    assert s[..e + 3][e..] == s[e..e + 3] && s[..e + 3][..e] == s[..e];
    SchemeEndOf(s, e + 3);
    ScanHostSucceeds(s, e + 3);
  }

  lemma HostCut(s: string, i: nat) returns (e: nat, f: nat)
    requires i <= |s| && ScanHost(s, i).Some?
    ensures i < e <= f <= |s| && IsHost(s[i..e]) && (f == e || IsPort(s[e..f])) && DotsFrom(s, f)
    ensures e < |s| ==> s[e] == '/' || s[e] == ':'
    ensures f == e && e + 1 < |s| && s[e] == ':' ==> !('0' <= s[e + 1] <= '9')
    ensures e < f < |s| && f - e < 6 ==> !('0' <= s[f] <= '9')
    ensures ScanHost(s, i) == Some([Some(Span(i, e))]
      + ([if f > e then Some(Span(e, f)) else None] + [if f < |s| then Some(Span(f, |s|)) else None]))
  {
    hide ScanPort, HostLength, IsHost, IsPort, DotsFrom;
    e := i + HostLength(s, i);
    f := PortCut(s, e);
    HostIsHost(s, i);
  }

  lemma HostIsHost(s: string, i: nat)
    requires i <= |s| && HostLength(s, i) > 0
    ensures IsHost(s[i..i + HostLength(s, i)])
    ensures var e := i + HostLength(s, i); e < |s| ==> s[e] == '/' || s[e] == ':'
  {
  }

  lemma SchemeIsScheme(s: string)
    requires SchemeEnd(s) > 0
    ensures IsScheme(s[..SchemeEnd(s)])
  {
    var i := SchemeEnd(s);
    assert s[..i][i - 3..] == [s[i - 3], s[i - 2], s[i - 1]] == "://";
  }

  lemma PortCut(s: string, e: nat) returns (f: nat)
    requires e <= |s| && ScanPort(s, e).Some?
    ensures e <= f <= |s| && (f == e || IsPort(s[e..f])) && DotsFrom(s, f)
    ensures f == e && e + 1 < |s| && s[e] == ':' ==> !('0' <= s[e + 1] <= '9')
    ensures e < f < |s| && f - e < 6 ==> !('0' <= s[f] <= '9')
    ensures ScanPort(s, e) == Some([if f > e then Some(Span(e, f)) else None]
                                 + [if f < |s| then Some(Span(f, |s|)) else None])
  {
    f := if PortAt(s, e) then e + 1 + PortDigits(s, e + 1) else e;
    if f > e {
      assert s[e..f][1..] == s[e + 1..f];
    }
  }

  lemma CutInOrder(s: string, i: nat, e: nat, f: nat)
    ensures Preferred(s, i, e, f) ==> CutAt(s, i, e, f)
    ensures CutAt(s, i, e, f) ==> i < e <= f <= |s|
  {
  }

  lemma CutPieces(s: string, i: nat, e: nat, f: nat)
    requires CutAt(s, i, e, f)
    ensures var c := Cuts(s, i, e, f);
            && Piece(s, c[0]) == s[..i] && Piece(s, c[1]) == s[i..e]
            && Piece(s, c[2]) == s[e..f] && Piece(s, c[3]) == s[f..]
  {
  }

  /** The pieces the match captures are a decomposition. */
  lemma CutDecomposes(s: string, i: nat, e: nat, f: nat)
    requires CutAt(s, i, e, f)
    ensures Decomposes(s, s[..i], s[i..e], s[e..f], s[f..])
  {
    assert s == s[..i] + s[i..e] + s[e..f] + s[f..];
  }

  /** The host the scan finds is at least as long as the host of any cut, so only characters of the
      port and of the rest follow it. */
  lemma CutSucceeds(s: string, i: nat, e: nat, f: nat)
    requires CutAt(s, i, e, f)
    ensures Scan(s).Some?
  {
    HostReaches(s, i, e);
    PortIsDots(s, e, f);
    ScanHostSucceeds(s, i);
    if i > 0 {
      SchemeEndOf(s, i);
    }
  }

  lemma HostReaches(s: string, i: nat, e: nat)
    requires i < e <= |s| && IsHost(s[i..e])
    ensures HostLength(s, i) >= e - i
  {
    assert forall j :: i <= j < e ==> s[j] == s[i..e][j - i];
  }

  lemma PortIsDots(s: string, e: nat, f: nat)
    requires e <= f <= |s| && (f == e || IsPort(s[e..f])) && DotsFrom(s, f)
    ensures DotsFrom(s, e)
  {
    if f > e {
      var port := s[e..f];
      assert port[0] == s[e] == ':';
      forall k | e < k < f
        ensures IsDigit(s[k])
      {
        assert port[1..][k - e - 1] == s[k];
      }
    }
  }

  lemma DecompositionScans(s: string, scheme: string, host: string, port: string, rest: string)
    requires Decomposes(s, scheme, host, port, rest)
    ensures Scan(s).Some?
  {
    var i, e, f := |scheme|, |scheme| + |host|, |scheme| + |host| + |port|;
    assert s[..i] == scheme;
    assert s[i..e] == host;
    assert s[e..f] == port;
    assert s[f..] == rest;
    assert forall j :: f <= j < |s| ==> s[j] == rest[j - f];
    CutSucceeds(s, i, e, f);
  }

  lemma ScanDecomposes(s: string)
    requires Scan(s).Some?
    ensures exists scheme, host, port, rest :: Decomposes(s, scheme, host, port, rest)
  {
    hide CutAt, Scan, Cuts, Decomposes, Preferred;
    var i, e, f := ScanCuts(s);
    CutInOrder(s, i, e, f);
    CutDecomposes(s, i, e, f);
  }

  /** A URL is accepted exactly when it decomposes into an optional scheme, a host, an optional
      port and a rest without line terminators. */
  lemma AcceptsExactly(s: string)
    ensures MatchGroups([SCHEME, HOST, PORT, REST], s, 0).Some?
       <==> exists scheme, host, port, rest :: Decomposes(s, scheme, host, port, rest)
  {
    MatchIsScan(s);
    hide MatchGroups, Scan;
    if Scan(s).Some? {
      ScanDecomposes(s);
    }
    if scheme, host, port, rest :| Decomposes(s, scheme, host, port, rest) {
      DecompositionScans(s, scheme, host, port, rest);
    }
  }

  // ---- The result. ----

  /** The scan finds the preferred cut. */
  lemma CutScans(s: string, i: nat, e: nat, f: nat)
    requires Preferred(s, i, e, f)
    ensures Scan(s) == Some(Cuts(s, i, e, f))
  {
    HostScans(s, i, e, f);
    if i > 0 {
      SchemeEndOf(s, i);
    } else {
      NoSchemeInHost(s, e);
    }
    hide ScanHost, SchemeEnd, IsScheme, IsHost, IsPort, DotsFrom, Letters;
  }

  lemma HostScans(s: string, i: nat, e: nat, f: nat)
    requires Preferred(s, i, e, f)
    ensures ScanHost(s, i) == Some([Some(Span(i, e))]
      + ([if f > e then Some(Span(e, f)) else None] + [if f < |s| then Some(Span(f, |s|)) else None]))
  {
    HostLengthIs(s, i, e);
    hide HostLength, ScanPort, Letters, IsScheme, IsHost, IsPort, DotsFrom;
    PortScans(s, e, f);
  }

  lemma HostLengthIs(s: string, i: nat, e: nat)
    requires i < e <= |s| && IsHost(s[i..e]) && (e < |s| ==> s[e] == '/' || s[e] == ':')
    ensures HostLength(s, i) == e - i
  {
    var host := s[i..e];
    assert forall j :: 0 <= j < |host| ==> s[i + j] == host[j];
    RunLengthIs(NoneOf("/:"), s, i, e - i);
  }

  lemma PortScans(s: string, e: nat, f: nat)
    requires e <= f <= |s| && (f == e || IsPort(s[e..f])) && DotsFrom(s, f)
    requires f == e && e + 1 < |s| && s[e] == ':' ==> !('0' <= s[e + 1] <= '9')
    requires e < f < |s| && f - e < 6 ==> !('0' <= s[f] <= '9')
    ensures ScanPort(s, e) == Some([if f > e then Some(Span(e, f)) else None]
                                 + [if f < |s| then Some(Span(f, |s|)) else None])
  {
    if f > e {
      var port := s[e..f];
      assert forall j :: 0 <= j < |port| ==> s[e + j] == port[j];
      assert s[e] == ':';
      assert forall j :: e + 1 <= j < f ==> s[j] == port[j - e];
      RunLengthIsLongest(Digit, s, e + 1, f);
      assert PortDigits(s, e + 1) == f - e - 1;
    }
  }

  /** A host at the beginning is no scheme, or no host follows it. */
  lemma NoSchemeInHost(s: string, e: nat)
    requires 0 < e <= |s| && IsHost(s[..e]) && (e < |s| ==> s[e] == '/' || s[e] == ':')
    requires Letters(s[..e]) && e + 3 < |s| && s[e..e + 3] == "://" ==> s[e + 3] == '/' || s[e + 3] == ':'
    ensures SchemeEnd(s) == 0 || ScanHost(s, SchemeEnd(s)) == None
  {
    var a := RunLength(Alpha, s, 0);
    assert forall j :: 0 <= j < e ==> s[..e][j] == s[j];
    if SchemeEnd(s) > 0 {
      assert a == e;
      assert s[e..e + 3] == [s[e], s[e + 1], s[e + 2]] == "://";
    }
  }

  /** The result, for the cut the match prefers: of all pieces those asked for. */
  lemma HostNameOfCuts(s: string, i: nat, e: nat, f: nat, p: bool, q: bool)
    requires Preferred(s, i, e, f)
    ensures URLToHostName(s, p, q) == (if p then s[..i] else "") + s[i..e] + (if q then s[e..f] else "")
  {
    CutScans(s, i, e, f);
    MatchIsScan(s);
    CutPieces(s, i, e, f);
    hide Preferred, CutAt, MatchGroups, Scan;
  }

  lemma CutsInjective(s: string, i: nat, e: nat, f: nat, i': nat, e': nat, f': nat)
    requires e <= f && e' <= f' && Cuts(s, i, e, f) == Cuts(s, i', e', f')
    ensures i == i' && e == e' && f == f'
  {
    var c, c' := Cuts(s, i, e, f), Cuts(s, i', e', f');
    assert c[1] == c'[1] && c[2] == c'[2];
  }

  /** A URL is accepted exactly when it has a preferred cut. */
  lemma PreferredCutExactly(s: string)
    ensures MatchGroups([SCHEME, HOST, PORT, REST], s, 0).Some? <==> exists i, e, f :: Preferred(s, i, e, f)
  {
    MatchIsScan(s);
    hide MatchGroups, Scan, Preferred;
    if Scan(s).Some? {
      var i, e, f := ScanCuts(s);
    }
    if i, e, f :| Preferred(s, i, e, f) {
      CutScans(s, i, e, f);
    }
  }

  /** There is no more than one, so HostNameOfCuts leaves nothing open. */
  lemma PreferredCutIsUnique(s: string, i: nat, e: nat, f: nat, i': nat, e': nat, f': nat)
    requires Preferred(s, i, e, f) && Preferred(s, i', e', f')
    ensures i == i' && e == e' && f == f'
  {
    CutScans(s, i, e, f);
    CutScans(s, i', e', f');
    CutInOrder(s, i, e, f);
    CutInOrder(s, i', e', f');
    hide Preferred, CutAt, Scan, Cuts;
    CutsInjective(s, i, e, f, i', e', f');
  }

  // ---- Taking a host name again. ----

  lemma PutTogether(scheme: string, host: string, port: string)
    requires (scheme == "" || IsScheme(scheme)) && IsHost(host) && (port == "" || IsPort(port))
    ensures var r := scheme + host + port; var i, e := |scheme|, |scheme| + |host|;
            && CutAt(r, i, e, |r|) && r[..i] == scheme && r[i..e] == host && r[e..] == port
            && Preferred(r, i, e, |r|)
  {
    var r := scheme + host + port;
    assert port != "" ==> r[|scheme| + |host|] == port[0] && r[|scheme| + |host| + 1] == port[1];
    assert r[..|scheme|] == scheme;
    assert r[|scheme|..|scheme| + |host|] == host;
    assert r[|scheme| + |host|..|r|] == port;
  }

  lemma CutParts(s: string, i: nat, e: nat, f: nat)
    requires Preferred(s, i, e, f)
    ensures i < e <= f <= |s| && IsHost(s[i..e])
    ensures (s[..i] == "" || IsScheme(s[..i])) && (s[e..f] == "" || IsPort(s[e..f]))
  {
  }

  lemma NoHostName(s: string, p: bool, q: bool)
    requires Scan(s) == None
    ensures URLToHostName(s, p, q) == ""
  {
    MatchIsScan(s);
  }

  /** Taking the host name of a host name: whatever was kept both times is kept, so every setting
      is idempotent, and the host of the full result is the host of the original URL. */
  lemma HostNameTwice(url: string, p: bool, q: bool, p': bool, q': bool)
    ensures URLToHostName(URLToHostName(url, p, q), p', q') == URLToHostName(url, p && p', q && q')
  {
    hide URLToHostName, CutAt, Cuts, Scan, IsScheme, IsHost, IsPort, Preferred;
    if Scan(url).Some? {
      var i, e, f := ScanCuts(url);
      CutParts(url, i, e, f);
      HostNameOfCuts(url, i, e, f, p, q);
      HostNameOfCuts(url, i, e, f, p && p', q && q');
      HostNameOfParts(if p then url[..i] else "", url[i..e], if q then url[e..f] else "", p', q');
    } else {
      NoHostName(url, p, q);
      NoHostName(url, p && p', q && q');
      assert Scan("") == None by { EmptyIsNoUrl(); }
      NoHostName("", p', q');
    }
  }

  lemma EmptyIsNoUrl()
    ensures Scan("") == None
  {
  }

  lemma HostNameOfParts(scheme: string, host: string, port: string, p: bool, q: bool)
    requires (scheme == "" || IsScheme(scheme)) && IsHost(host) && (port == "" || IsPort(port))
    ensures URLToHostName(scheme + host + port, p, q)
         == (if p then scheme else "") + host + (if q then port else "")
  {
    hide URLToHostName, CutAt, Cuts, Scan, IsScheme, IsHost, IsPort, Preferred;
    var r := scheme + host + port;
    var i, e := |scheme|, |scheme| + |host|;
    PutTogether(scheme, host, port);
    HostNameOfCuts(r, i, e, |r|, p, q);
    assert r[e..|r|] == r[e..];
  }

  /** With scheme and port kept the result is a prefix of the URL. Whatever is kept, it is empty exactly
      when the URL has no cut. */
  lemma HostNameIsPrefix(url: string, p: bool, q: bool)
    ensures URLToHostName(url, true, true) <= url
    ensures URLToHostName(url, p, q) == "" <==> !exists i, e, f :: Preferred(url, i, e, f)
  {
    PreferredCutExactly(url);
    MatchIsScan(url);
    hide MatchGroups, URLToHostName, CutAt, Cuts, Scan, IsScheme, IsPort, Preferred;
    if Scan(url).Some? {
      var i, e, f := ScanCuts(url);
      CutParts(url, i, e, f);
      HostNameOfCuts(url, i, e, f, true, true);
      HostNameOfCuts(url, i, e, f, p, q);
      assert url[..i] + url[i..e] + url[e..f] == url[..f];
    } else {
      NoHostName(url, true, true);
      NoHostName(url, p, q);
    }
  }
}

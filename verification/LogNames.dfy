/** The names of log files: selection, order, numbering
    (src/client_server/net_server_common_tools.cpp). */
module LogNames {
  import opened Options
  import opened Decimal

  /** NET_SERVER_LOG_FILENAME_PREFIX. */
  const PREFIX: string := "net_server"

  /** COMMON_LOG_FILENAME_SUFFIX, a macro of the companion library. */
  const SUFFIX: string := ".log"

  /** `selector`: the directory entry starts with the prefix. */
  predicate Selected(name: string) {
    PREFIX <= name
  }

  /** `strcmp (a, b) < 0`, by which `comparator` sorts. */
  predicate Precedes(a: string, b: string) {
    if b == [] then false
    else if a == [] then true
    else a[0] < b[0] || (a[0] == b[0] && Precedes(a[1..], b[1..]))
  }

  function CurrentName(program: string): string {
    program + SUFFIX
  }

  function NumberedName(n: nat): string {
    PREFIX + "_" + Print(n) + SUFFIX
  }

  /** The number the walk reads from a name: `%u` after as many characters as the program name
      has. Beyond the end of the name nothing is read. */
  function NumberOf(program: string, name: string): (r: Option<nat>)
    ensures r.Some? ==> r.value < UINT_RANGE
  {
    if |program| <= |name| then ScanUnsigned(name[|program|..]) else None
  }

  /** The program names for which the offset used by the walk lands on the digits. */
  predicate Aligned(program: string) {
    PREFIX <= program && |program| == |PREFIX| + 1
  }

  /** The listing the directory scan hands to the walk: the selected names in strcmp order. */
  ghost predicate IsListing(entries: seq<string>, files: map<string, string>) {
    && (forall i, j :: 0 <= i < j < |entries| ==> Precedes(entries[i], entries[j]))
    && (forall name :: name in entries <==> name in files && Selected(name))
  }

  lemma NumberedNameDigits(n: nat)
    ensures NumberedName(n)[|PREFIX| + 1..] == Print(n) + SUFFIX
    ensures Selected(NumberedName(n))
  {
    assert NumberedName(n) == (PREFIX + "_") + (Print(n) + SUFFIX);
  }

  /** Reading the number of a name the rotation printed returns that number. */
  lemma NumberOfNumberedName(program: string, n: nat)
    requires |program| == |PREFIX| + 1 && n < UINT_RANGE
    ensures NumberOf(program, NumberedName(n)) == Some(n)
  {
    NumberedNameDigits(n);
    var digits := NumberedName(n)[|program|..];
    assert digits == Print(n) + SUFFIX;
    assert ScanUnsigned(digits) == Some(n) by {
      ScanPrinted(n, SUFFIX);
    }
  }

  lemma NumberedNameInjective(m: nat, n: nat)
    requires NumberedName(m) == NumberedName(n)
    ensures m == n
  {
    NumberedNameDigits(m);
    NumberedNameDigits(n);
    var s, t := Print(m) + SUFFIX, Print(n) + SUFFIX;
    assert Print(m) == s[..|s| - |SUFFIX|];
    assert Print(n) == t[..|t| - |SUFFIX|];
    PrintInjective(m, n);
  }

  /** One name precedes another when it is a proper beginning of it, or has the smaller character where
      they first differ. */
  lemma PrecedesExactly(a: string, b: string)
    ensures Precedes(a, b) <==>
      exists k :: 0 <= k <= |a| && k < |b| && a[..k] == b[..k] && (k == |a| || a[k] < b[k])
  {
    hide Precedes;
    if Precedes(a, b) {
      var k := FirstDifference(a, b);
    }
    if k :| 0 <= k <= |a| && k < |b| && a[..k] == b[..k] && (k == |a| || a[k] < b[k]) {
      DifferenceDecides(a, b, k);
    }
  }

  lemma DifferenceDecides(a: string, b: string, k: nat)
    requires k <= |a| && k < |b| && a[..k] == b[..k] && (k == |a| || a[k] < b[k])
    ensures Precedes(a, b)
  {
    var p, x, y := a[..k], a[k..], b[k..];
    assert Precedes(x, y);
    hide Precedes;
    PrecedesPrefix(p, x, y);
    assert p + x == a && p + y == b;
  }

  lemma {:induction false} FirstDifference(a: string, b: string) returns (k: nat)
    requires Precedes(a, b)
    ensures k <= |a| && k < |b| && a[..k] == b[..k] && (k == |a| || a[k] < b[k])
  {
    if a == [] || a[0] < b[0] {
      k := 0;
      assert a[..0] == b[..0];
    } else {
      k := FirstDifference(a[1..], b[1..]);
      assert a[..k + 1] == [a[0]] + a[1..][..k] && b[..k + 1] == [b[0]] + b[1..][..k];
      k := k + 1;
    }
  }

  lemma {:induction false} PrecedesPrefix(p: string, a: string, b: string)
    ensures Precedes(p + a, p + b) == Precedes(a, b)
  {
    if p == [] {
      assert p + a == a && p + b == b;
    } else {
      PrecedesPrefix(p[1..], a, b);
      assert (p + a)[1..] == p[1..] + a;
      assert (p + b)[1..] == p[1..] + b;
    }
  }

  lemma {:induction false} PrecedesAsymmetric(a: string, b: string)
    requires Precedes(a, b)
    ensures !Precedes(b, a) && a != b
  {
    if a != [] && a[0] == b[0] {
      PrecedesAsymmetric(a[1..], b[1..]);
    }
  }

  lemma {:induction false} PrecedesTransitive(a: string, b: string, c: string)
    requires Precedes(a, b) && Precedes(b, c)
    ensures Precedes(a, c)
  {
    if a != [] && a[0] == b[0] && b[0] == c[0] {
      PrecedesTransitive(a[1..], b[1..], c[1..]);
    }
  }

  lemma {:induction false} PrecedesTotal(a: string, b: string)
    ensures a == b || Precedes(a, b) || Precedes(b, a)
  {
    if a != [] && b != [] && a[0] == b[0] {
      PrecedesTotal(a[1..], b[1..]);
      assert a == [a[0]] + a[1..] && b == [b[0]] + b[1..];
    }
  }

  /** For one-digit numbers the alphabetical order of the names is the numeric order. */
  lemma OneDigitOrder(m: nat, n: nat)
    requires m < 10 && n < 10
    ensures Precedes(NumberedName(m), NumberedName(n)) <==> m < n
  {
    var p := PREFIX + "_";
    assert NumberedName(m) == p + ([DigitChar(m)] + SUFFIX);
    assert NumberedName(n) == p + ([DigitChar(n)] + SUFFIX);
    PrecedesPrefix(p, [DigitChar(m)] + SUFFIX, [DigitChar(n)] + SUFFIX);
    if Precedes(SUFFIX, SUFFIX) {
      PrecedesAsymmetric(SUFFIX, SUFFIX);
    }
    assert ([DigitChar(m)] + SUFFIX)[1..] == SUFFIX;
    assert ([DigitChar(n)] + SUFFIX)[1..] == SUFFIX;
  }

  /** With two digits it is not: ten sorts before nine. */
  lemma TwoDigitOrderFails()
    ensures Precedes(NumberedName(10), NumberedName(9))
  {
    var p := PREFIX + "_";
    assert NumberedName(10) == p + "10.log" by {
      assert Print(10) == Print(1) + [DigitChar(0)] == "10";
    }
    assert NumberedName(9) == p + "9.log";
    PrecedesPrefix(p, "10.log", "9.log");
  }

  /** The selector lists the current log exactly if the program name has the prefix. */
  lemma CurrentIsSelected(program: string)
    ensures Selected(CurrentName(program)) <==> PREFIX <= program
  {
    var current := CurrentName(program);
    assert |program| < |PREFIX| ==> PREFIX[|program|] != current[|program|];
    assert |program| >= |PREFIX| ==> current[..|PREFIX|] == program[..|PREFIX|];
  }

  /** A current log is never mistaken for a numbered one. */
  lemma CurrentIsNotNumbered(program: string, n: nat)
    requires |program| == |PREFIX| + 1
    ensures CurrentName(program) != NumberedName(n)
  {
    PrintIsCanonical(n);
    var c := CurrentName(program)[|PREFIX| + 1..];
    assert c == SUFFIX;
    NumberedNameDigits(n);
  }
}

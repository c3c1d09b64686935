/** `matchIPAddress`: the match of a dotted-decimal text and the validation of its groups
    (src/net_common_tools.cpp). */
module DottedDecimal {
  import opened Options
  import opened Decimal
  import opened Regex

  // ---- Fields between separators. ----

  /** The fields of the text between the separators. */
  function SplitOn(c: char, s: string): (f: seq<string>)
    ensures f != []
  {
    if s == "" then [""]
    else if s[0] == c then [""] + SplitOn(c, s[1..])
    else var f := SplitOn(c, s[1..]); [[s[0]] + f[0]] + f[1..]
  }

  lemma {:induction false} SplitOnNone(c: char, s: string)
    requires c !in s
    ensures SplitOn(c, s) == [s]
  {
    if s != "" {
      SplitOnNone(c, s[1..]);
      assert s == [s[0]] + s[1..];
    }
  }

  lemma {:induction false} SplitOnFirst(c: char, a: string, b: string)
    requires c !in a
    ensures SplitOn(c, a + [c] + b) == [a] + SplitOn(c, b)
  {
    var s := a + [c] + b;
    if a == "" {
      assert s[1..] == b;
    } else {
      SplitOnFirst(c, a[1..], b);
      assert s[0] == a[0] && s[1..] == a[1..] + [c] + b;
      assert a == [a[0]] + a[1..];
      var f := SplitOn(c, s[1..]);
      assert f[0] == a[1..] && f[1..] == SplitOn(c, b);
    }
  }

  /** A field of a dotted-decimal text: empty, or a canonical decimal up to 255. */
  predicate Field(f: string) {
    f == "" || (Canonical(f) && Value(f) <= 255)
  }

  lemma {:induction false} CanonicalIsLarge(f: string)
    requires Canonical(f)
    ensures |f| >= 2 ==> Value(f) >= 10
    ensures |f| >= 3 ==> Value(f) >= 100
    ensures |f| >= 4 ==> Value(f) >= 1000
  {
    if |f| >= 2 {
      var front := f[..|f| - 1];
      CanonicalValuePositive(front);
      CanonicalIsLarge(front);
    }
  }

  lemma FieldIsShort(f: string)
    requires Field(f)
    ensures |f| <= 3 && AllDigits(f)
  {
    if f != "" {
      CanonicalIsLarge(f);
    }
  }

  // ---- matchIPAddress. ----

  // The capture groups of ^([[:digit:]]{0,3})(\.[[:digit:]]{0,3})?(\.[[:digit:]]{0,3})?(\.[[:digit:]]{0,3})?$
  const UP_TO_THREE: seq<Run> := [Run(Digit, 0, Some(3))]
  const FIRST := Group(false, UP_TO_THREE)
  const NEXT := Group(true, [Literal('.')] + UP_TO_THREE)

  function Nexts(k: nat): seq<Group> {
    if k == 0 then [] else [NEXT] + Nexts(k - 1)
  }

  // ---- The match as a scan. ----

  /** The number of digits, at most three, from position i on. */
  function Digits(s: string, i: nat): (d: nat)
    requires i <= |s|
    ensures i + d <= |s| && d <= 3
    ensures AllDigits(s[i..i + d])
    ensures i + d < |s| ==> d == 3 || !IsDigit(s[i + d])
  {
    Greedy(UP_TO_THREE[0], s, i)
  }

  /** k groups that took no part. */
  function Skipped(k: nat): (c: Captures)
    ensures |c| == k
  {
    seq(k, _ => None)
  }

  function ScanFields(k: nat, s: string, i: nat): (c: Option<Captures>)
    requires i <= |s|
    ensures c.Some? ==> |c.value| == k
  {
    if i == |s| then Some(Skipped(k))
    else if k > 0 && s[i] == '.' then
      var e := i + 1 + Digits(s, i + 1);
      Prepend(Some(Span(i, e)), ScanFields(k - 1, s, e))
    else None
  }

  lemma {:induction false} ScanFieldsMonotone(k: nat, s: string, i: nat)
    requires i <= |s| && ScanFields(k, s, i).Some?
    ensures ScanFields(k + 1, s, i).Some?
    decreases k
  {
    if i < |s| {
      ScanFieldsMonotone(k - 1, s, i + 1 + Digits(s, i + 1));
    }
  }

  /** Digits cannot be given back: the next group needs a dot, the end of the pattern the end of
      the text. */
  lemma DigitsAreScanned(k: nat, s: string, start: nat, i: nat)
    requires i <= |s| && Scanned(k, s)
    ensures var e := i + Digits(s, i);
            MatchRuns(UP_TO_THREE, Nexts(k), s, start, i) == Prepend(Some(Span(start, e)), ScanFields(k, s, e))
  {
    var rs, rest := UP_TO_THREE, Nexts(k);
    var e := i + Digits(s, i);
    assert rs[1..] == [];
    forall j: nat | i <= j <= e
      ensures MatchRuns(rs[1..], rest, s, start, j) == Prepend(Some(Span(start, j)), ScanFields(k, s, j))
      ensures j < e ==> ScanFields(k, s, j) == None
    {
      assert j < e ==> s[j] == s[i..e][j - i];
    }
    if ScanFields(k, s, e).Some? {
      TryEndsFirst(rs, rest, s, start, i, e, e);
    } else {
      TryEndsFails(rs, rest, s, start, i, e);
    }
  }

  lemma NextIsScanned(k: nat, s: string, i: nat)
    requires k > 0 && i <= |s| && Scanned(k - 1, s)
    ensures MatchGroups(Nexts(k), s, i) == ScanFields(k, s, i)
  {
    hide MatchRuns, Digits, Nexts;
    NextUnfolds(k, s, i);
    if i < |s| && s[i] == '.' {
      DottedIsScanned(k, s, i);
      if ScanFields(k - 1, s, i).Some? {
        ScanFieldsMonotone(k - 1, s, i);
      }
    } else {
      LiteralIs('.', UP_TO_THREE, Nexts(k - 1), s, i, i);
      assert [None] + Skipped(k - 1) == Skipped(k);
    }
  }

  lemma NextUnfolds(k: nat, s: string, i: nat)
    requires k > 0 && i <= |s|
    ensures var taken := MatchRuns(NEXT.runs, Nexts(k - 1), s, i, i);
            MatchGroups(Nexts(k), s, i) ==
              if taken.Some? then taken else Prepend(None, MatchGroups(Nexts(k - 1), s, i))
  {
    hide MatchRuns;
    assert Nexts(k)[0] == NEXT && Nexts(k)[1..] == Nexts(k - 1);
  }

  lemma DottedIsScanned(k: nat, s: string, i: nat)
    requires k > 0 && i < |s| && s[i] == '.' && Scanned(k - 1, s)
    ensures MatchRuns(NEXT.runs, Nexts(k - 1), s, i, i) == ScanFields(k, s, i)
  {
    hide MatchRuns, Digits, Scanned;
    LiteralIs('.', UP_TO_THREE, Nexts(k - 1), s, i, i);
    DigitsAreScanned(k - 1, s, i, i + 1);
  }

  ghost predicate Scanned(k: nat, s: string) {
    forall j :: 0 <= j <= |s| ==> MatchGroups(Nexts(k), s, j) == ScanFields(k, s, j)
  }

  lemma {:induction false} FieldsAreScanned(k: nat, s: string)
    ensures Scanned(k, s)
  {
    if k > 0 {
      FieldsAreScanned(k - 1, s);
      forall j | 0 <= j <= |s|
        ensures MatchGroups(Nexts(k), s, j) == ScanFields(k, s, j)
      {
        NextIsScanned(k, s, j);
      }
    }
  }

  // ---- The accepted language. ----

  lemma {:induction false} SplitOnPrefix(c: char, p: string, rest: string)
    requires c !in p
    ensures p <= SplitOn(c, p + rest)[0]
  {
    if p != "" {
      var t := p + rest;
      SplitOnPrefix(c, p[1..], rest);
      assert t[0] == p[0] && t[1..] == p[1..] + rest;
      assert SplitOn(c, t)[0] == [t[0]] + SplitOn(c, t[1..])[0];
    }
  }

  /** If neither a dot nor the end follows the digits taken, the first field is no field. */
  lemma NoFieldFollows(s: string, i: nat)
    requires i <= |s|
    requires var e := i + Digits(s, i); e < |s| && s[e] != '.'
    ensures !Field(SplitOn('.', s[i..])[0])
  {
    var e := i + Digits(s, i);
    var d, f := s[i..e], SplitOn('.', s[i..])[0];
    var p := d + [s[e]];
    assert s[i..] == p + s[e + 1..];
    assert '.' !in d && '.' !in p;
    SplitOnPrefix('.', p, s[e + 1..]);
    assert f[|d|] == p[|d|] == s[e];
    assert !IsDigit(f[|d|]) || |d| >= 3;
    if Field(f) {
      FieldIsShort(f);
    }
  }

  /** What follows the digits taken from position i on. */
  lemma SplitAfterDigits(s: string, i: nat)
    requires i <= |s|
    ensures var e := i + Digits(s, i);
            && (e == |s| ==> SplitOn('.', s[i..]) == [s[i..]])
            && (e < |s| && s[e] == '.' ==> SplitOn('.', s[i..]) == [s[i..e]] + SplitOn('.', s[e + 1..]))
  {
    var e := i + Digits(s, i);
    assert '.' !in s[i..e];
    if e == |s| {
      assert s[i..] == s[i..e];
      SplitOnNone('.', s[i..]);
    } else if s[e] == '.' {
      assert s[i..] == s[i..e] + ['.'] + s[e + 1..];
      SplitOnFirst('.', s[i..e], s[e + 1..]);
    }
  }

  predicate AllAreFields(f: seq<string>) {
    f == [] || (Field(f[0]) && AllAreFields(f[1..]))
  }

  /** The captured text without its leading dot. */
  function Inner(s: string, span: Span): string {
    if span.from + 1 <= span.to <= |s| then s[span.from + 1..span.to] else ""
  }

  predicate AllInner(s: string, c: Captures) {
    c == [] || (c[0].Some? && Field(Inner(s, c[0].value)) && AllInner(s, c[1..]))
  }

  predicate Good(s: string, m: Option<Captures>) {
    m.Some? && AllInner(s, m.value)
  }

  lemma GoodPrepend(s: string, i: nat, e: nat, m: Option<Captures>)
    requires i < e <= |s|
    ensures Good(s, Prepend(Some(Span(i, e)), m)) <==> Field(s[i + 1..e]) && Good(s, m)
  {
    if m.Some? {
      var c := [Some(Span(i, e))] + m.value;
      assert c[1..] == m.value && Inner(s, c[0].value) == s[i + 1..e];
    }
  }

  lemma FieldsPrepend(x: string, g: seq<string>)
    ensures AllAreFields([x] + g) <==> Field(x) && AllAreFields(g)
  {
    assert ([x] + g)[1..] == g;
  }

  /** k groups, the first of which starts with the dot at position i, all capture fields exactly
      when the text after that dot splits into k fields. */
  ghost predicate TailSplits(k: nat, s: string, i: nat)
    requires i < |s|
  {
    var f := SplitOn('.', s[i + 1..]);
    Good(s, ScanFields(k, s, i)) <==> |f| == k && AllAreFields(f)
  }

  lemma TailAtEnd(k: nat, s: string, i: nat)
    requires k > 0 && i < |s| && s[i] == '.' && i + 1 + Digits(s, i + 1) == |s|
    ensures TailSplits(k, s, i)
  {
    var t := s[i + 1..];
    var m := ScanFields(k - 1, s, |s|);
    SplitAfterDigits(s, i + 1);
    GoodPrepend(s, i, |s|, m);
    FieldsPrepend(t, []);
    hide Field, Digits, SplitOn;
    assert ScanFields(k, s, i) == Prepend(Some(Span(i, |s|)), m);
    assert s[i + 1..|s|] == t && [t] + [] == [t];
    assert Good(s, m) <==> k == 1 by {
      assert m == Some(Skipped(k - 1));
      assert k == 1 ==> Skipped(k - 1) == [];
      assert k > 1 ==> Skipped(k - 1)[0] == None;
    }
  }

  lemma TailAtDot(k: nat, s: string, i: nat)
    requires k > 0 && i < |s| && s[i] == '.'
    requires var e := i + 1 + Digits(s, i + 1); e < |s| && s[e] == '.' && TailSplits(k - 1, s, e)
    ensures TailSplits(k, s, i)
  {
    hide Field, SplitOn, AllAreFields, Digits, Good, Prepend, TailSplits;
    var e := i + 1 + Digits(s, i + 1);
    var m := ScanFields(k - 1, s, e);
    SplitAfterDigits(s, i + 1);
    GoodPrepend(s, i, e, m);
    FieldsPrepend(s[i + 1..e], SplitOn('.', s[e + 1..]));
    TailSplitsIs(k - 1, s, e);
    TailSplitsIs(k, s, i);
  }

  lemma TailSplitsIs(k: nat, s: string, i: nat)
    requires i < |s|
    ensures var f := SplitOn('.', s[i + 1..]);
            TailSplits(k, s, i) <==> (Good(s, ScanFields(k, s, i)) <==> |f| == k && AllAreFields(f))
  {
  }

  lemma TailAtOther(k: nat, s: string, i: nat)
    requires k > 0 && i < |s| && s[i] == '.'
    requires var e := i + 1 + Digits(s, i + 1); e < |s| && s[e] != '.'
    ensures TailSplits(k, s, i)
  {
    NoFieldFollows(s, i + 1);
    var e := i + 1 + Digits(s, i + 1);
    assert ScanFields(k - 1, s, e) == None;
    assert ScanFields(k, s, i) == Prepend(Some(Span(i, e)), ScanFields(k - 1, s, e)) == None;
    assert !AllAreFields(SplitOn('.', s[i + 1..]));
  }

  lemma {:induction false} TailIsSplit(k: nat, s: string, i: nat)
    requires i < |s| && s[i] == '.'
    ensures TailSplits(k, s, i)
    decreases k
  {
    hide Field, SplitOn, Digits, AllAreFields;
    if k > 0 {
      var e := i + 1 + Digits(s, i + 1);
      if e == |s| {
        TailAtEnd(k, s, i);
      } else if s[e] == '.' {
        TailIsSplit(k - 1, s, e);
        TailAtDot(k, s, i);
      } else {
        TailAtOther(k, s, i);
      }
    }
  }

  // ---- The whole pattern and its validation. ----

  function ScanAddress(s: string): (c: Option<Captures>)
    ensures c.Some? ==> |c.value| == 4
  {
    var e := Digits(s, 0);
    Prepend(Some(Span(0, e)), ScanFields(3, s, e))
  }

  /** The backtracking match finds the scan, for every string. */
  lemma AddressIsScanned(s: string)
    ensures MatchGroups([FIRST] + Nexts(3), s, 0) == ScanAddress(s)
  {
    FieldsAreScanned(3, s);
    hide MatchRuns, Digits, Scanned, Nexts;
    var gs := [FIRST] + Nexts(3);
    assert gs[0] == FIRST && gs[1..] == Nexts(3);
    DigitsAreScanned(3, s, 0, 0);
  }

  /** The text of group k; the groups after the first start with a dot. */
  function FieldOf(s: string, c: Captures, k: nat): string
    requires k < |c| && c[k].Some?
  {
    if k > 0 then Inner(s, c[k].value)
    else if c[k].value.to <= |s| then s[..c[k].value.to]
    else ""
  }

  predicate AllFields(s: string, c: Captures) {
    forall k :: 0 <= k < |c| ==> c[k].Some? && Field(FieldOf(s, c, k))
  }

  lemma {:induction false} InnerOf(s: string, c: Captures)
    ensures AllInner(s, c) <==> forall k :: 0 <= k < |c| ==> c[k].Some? && Field(Inner(s, c[k].value))
  {
    hide Field, Inner;
    if c != [] {
      InnerOf(s, c[1..]);
      assert c == [c[0]] + c[1..];
    }
  }

  /** Every group that took part captured at most three digits. */
  ghost predicate InnerDigits(s: string, c: Captures) {
    forall j :: 0 <= j < |c| && c[j].Some? ==> AllDigits(Inner(s, c[j].value)) && |Inner(s, c[j].value)| <= 3
  }

  lemma InnerDigitsPrepend(s: string, span: Span, c: Captures)
    requires InnerDigits(s, c) && AllDigits(Inner(s, span)) && |Inner(s, span)| <= 3
    ensures InnerDigits(s, [Some(span)] + c)
  {
    hide Inner, AllDigits;
    forall j | 0 < j < |c| + 1
      ensures ([Some(span)] + c)[j] == c[j - 1]
    {
    }
  }

  /** The first group of a scan that is not at the end. */
  lemma ScanUnfolds(k: nat, s: string, i: nat)
    requires i < |s| && ScanFields(k, s, i).Some?
    ensures k > 0
    ensures var e := i + 1 + Digits(s, i + 1);
            && ScanFields(k - 1, s, e).Some?
            && ScanFields(k, s, i).value == [Some(Span(i, e))] + ScanFields(k - 1, s, e).value
            && AllDigits(Inner(s, Span(i, e))) && |Inner(s, Span(i, e))| <= 3
  {
    hide Digits;
    assert Inner(s, Span(i, i + 1 + Digits(s, i + 1))) == s[i + 1..i + 1 + Digits(s, i + 1)];
  }

  lemma SkippedDigits(k: nat, s: string)
    ensures InnerDigits(s, Skipped(k))
  {
    hide Inner, AllDigits;
  }

  lemma {:induction false} InnerAreDigits(k: nat, s: string, i: nat)
    requires i <= |s| && ScanFields(k, s, i).Some?
    ensures InnerDigits(s, ScanFields(k, s, i).value)
    decreases k
  {
    if i < |s| {
      ScanUnfolds(k, s, i);
      hide InnerDigits, Digits, Inner, AllDigits, ScanFields;
      var e := i + 1 + Digits(s, i + 1);
      InnerAreDigits(k - 1, s, e);
      InnerDigitsPrepend(s, Span(i, e), ScanFields(k - 1, s, e).value);
    } else {
      hide InnerDigits, Digits, Inner, AllDigits, Skipped;
      SkippedDigits(k, s);
    }
  }

  lemma CapturesAreDigits(s: string)
    requires ScanAddress(s).Some?
    ensures var c := ScanAddress(s).value;
            forall j :: 0 <= j < 4 && c[j].Some? ==> AllDigits(FieldOf(s, c, j)) && |FieldOf(s, c, j)| <= 3
  {
    InnerAreDigits(3, s, Digits(s, 0));
  }

  /** All four groups capture fields exactly when the text splits into four fields. */
  lemma AddressIsSplit(s: string)
    ensures ScanAddress(s).Some? && AllFields(s, ScanAddress(s).value)
       <==> |SplitOn('.', s)| == 4 && AllAreFields(SplitOn('.', s))
  {
    var e := Digits(s, 0);
    var m := ScanFields(3, s, e);
    assert s[0..] == s;
    SplitAfterDigits(s, 0);
    AllFieldsIs(s, e, m);
    if e == |s| {
      assert m == Some(Skipped(3)) && Skipped(3)[0] == None;
    } else if s[e] == '.' {
      FieldsPrepend(s[..e], SplitOn('.', s[e + 1..]));
      TailIsSplit(3, s, e);
    } else {
      NoFieldFollows(s, 0);
    }
    hide Field, Digits, SplitOn;
  }

  lemma AllFieldsIs(s: string, e: nat, m: Option<Captures>)
    requires e <= |s|
    ensures var c := Prepend(Some(Span(0, e)), m);
            c.Some? && AllFields(s, c.value) <==> Field(s[..e]) && Good(s, m)
  {
    hide Field, Inner, AllInner, AllFields;
    if m.Some? {
      InnerOf(s, m.value);
      FieldsOfPrepended(s, Span(0, e), m.value);
    }
  }

  /** The groups after the first are taken without their dots. */
  lemma FieldsOfPrepended(s: string, first: Span, tail: Captures)
    requires first.to <= |s|
    ensures AllFields(s, [Some(first)] + tail) <==>
      Field(s[..first.to]) && forall k :: 0 <= k < |tail| ==> tail[k].Some? && Field(Inner(s, tail[k].value))
  {
    hide Field, Inner;
    var c := [Some(first)] + tail;
    assert FieldOf(s, c, 0) == s[..first.to];
    forall k | 0 <= k < |tail|
      ensures c[k + 1] == tail[k]
      ensures tail[k].Some? ==> FieldOf(s, c, k + 1) == Inner(s, tail[k].value)
    {
    }
    forall k | 0 < k < |c|
      ensures c[k] == tail[k - 1]
    {
    }
  }

  /** The two tests on a number amount to the definition of a field. */
  lemma FieldTest(text: string)
    requires AllDigits(text)
    ensures Field(text) <==> text == "" || (Value(text) <= 255 && !(|text| > 1 && text[0] == '0'))
  {
  }

  /** The validation of the captured groups, one after the other. */
  method Validate(s: string, c: Captures) returns (result: bool)
    requires forall k :: 0 <= k < |c| && c[k].Some? ==> AllDigits(FieldOf(s, c, k))
    ensures result <==> AllFields(s, c)
  {
    hide FieldOf, Field, Value;
    var group := 0;
    for k := 0 to |c|
      invariant group <= 255
      invariant forall j :: 0 <= j < k ==> c[j].Some? && Field(FieldOf(s, c, j))
    {
      if c[k] == None {
        return false;
      }
      var text := FieldOf(s, c, k);
      FieldTest(text);
      // extracting from an empty text leaves the number as it is
      if text != "" {
        group := Value(text);
      }
      if group > 255 {
        return false;
      }
      if |text| > 1 && text[0] == '0' {
        return false;
      }
    }
    return true;
  }

  /** The match and the validation: the accepted texts are exactly those of four fields separated
      by dots. */
  method MatchIPAddress(address: string) returns (result: bool)
    ensures result <==> |SplitOn('.', address)| == 4 && AllAreFields(SplitOn('.', address))
  {
    AddressIsScanned(address);
    AddressIsSplit(address);
    var m := MatchGroups([FIRST] + Nexts(3), address, 0);
    hide MatchGroups, ScanAddress, SplitOn, AllAreFields, AllFields, FieldOf, Nexts;
    if m == None {
      return false;
    }
    CapturesAreDigits(address);
    result := Validate(address, m.value);
  }
}

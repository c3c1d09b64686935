/** A backtracking matcher for the patterns the library uses: a sequence of capture groups, some of
    them optional, each a sequence of bounded or unbounded greedy repetitions of a character class.
    The whole input must be matched. */
module Regex {
  import opened Options
  import opened Decimal

  datatype Class = Alpha | Digit | Dot | Only(c: char) | NoneOf(excluded: seq<char>)

  /** `[[:alpha:]]`, `[[:digit:]]`, `.` (ECMAScript: no line terminator), a literal, `[^...]`. */
  predicate Accepts(k: Class, c: char) {
    match k
    case Alpha => 'a' <= c <= 'z' || 'A' <= c <= 'Z'
    case Digit => IsDigit(c)
    case Dot => c != '\n' && c != '\r'
    case Only(d) => c == d
    case NoneOf(excluded) => c !in excluded
  }

  /** A greedy repetition `class{min,max}`. */
  datatype Run = Run(class_: Class, min: nat, max: Option<nat>)

  datatype Group = Group(optional: bool, runs: seq<Run>)

  datatype Span = Span(from: nat, to: nat)

  /** What each group captured, or nothing where an optional group took no part. */
  type Captures = seq<Option<Span>>

  /** The number of characters of the class from position i on. */
  function RunLength(k: Class, s: string, i: nat): (n: nat)
    requires i <= |s|
    ensures i + n <= |s|
    ensures forall j :: i <= j < i + n ==> Accepts(k, s[j])
    ensures i + n < |s| ==> !Accepts(k, s[i + n])
    decreases |s| - i
  {
    if i < |s| && Accepts(k, s[i]) then 1 + RunLength(k, s, i + 1) else 0
  }

  /** The number of characters a greedy repetition takes first. */
  function Greedy(r: Run, s: string, i: nat): (n: nat)
    requires i <= |s|
    ensures i + n <= |s| && n <= RunLength(r.class_, s, i)
  {
    var n := RunLength(r.class_, s, i);
    if r.max.Some? && r.max.value < n then r.max.value else n
  }

  /** Group by group; an optional group is tried before it is skipped. */
  function MatchGroups(gs: seq<Group>, s: string, i: nat): (c: Option<Captures>)
    requires i <= |s|
    ensures c.Some? ==> |c.value| == |gs|
    decreases |gs|, 0, 0
  {
    if gs == [] then
      if i == |s| then Some([]) else None
    else
      var taken := MatchRuns(gs[0].runs, gs[1..], s, i, i);
      if taken.Some? then taken
      else if gs[0].optional then Prepend(None, MatchGroups(gs[1..], s, i))
      else None
  }

  function Prepend(first: Option<Span>, c: Option<Captures>): Option<Captures> {
    if c.Some? then Some([first] + c.value) else None
  }

  /** The remaining repetitions of a group that began at `start`, then the remaining groups. */
  function MatchRuns(rs: seq<Run>, rest: seq<Group>, s: string, start: nat, i: nat): (c: Option<Captures>)
    requires i <= |s|
    ensures c.Some? ==> |c.value| == |rest| + 1
    decreases |rest|, 1 + |rs|, |s| + 1
  {
    if rs == [] then Prepend(Some(Span(start, i)), MatchGroups(rest, s, i))
    else TryEnds(rs, rest, s, start, i, i + Greedy(rs[0], s, i))
  }

  /** The repetition ends at position e, or earlier if the rest then fails to match. */
  function TryEnds(rs: seq<Run>, rest: seq<Group>, s: string, start: nat, i: nat, e: nat): (c: Option<Captures>)
    requires rs != [] && e <= |s|
    ensures c.Some? ==> |c.value| == |rest| + 1
    decreases |rest|, 1 + |rs|, e
  {
    if e < i + rs[0].min then None
    else
      var c := MatchRuns(rs[1..], rest, s, start, e);
      if c.Some? || e == 0 then c else TryEnds(rs, rest, s, start, i, e - 1)
  }

  // ---- What it means to match. ----

  /** The text between the positions is one repetition: characters of the class, not too few and not
      too many. */
  ghost predicate Repeats(r: Run, s: string, i: nat, e: nat) {
    && i + r.min <= e <= |s| && (r.max.Some? ==> e <= i + r.max.value)
    && forall j :: i <= j < e ==> Accepts(r.class_, s[j])
  }

  lemma {:induction false} RunLengthIsLongest(k: Class, s: string, i: nat, e: nat)
    requires i <= e <= |s| && forall j :: i <= j < e ==> Accepts(k, s[j])
    ensures e <= i + RunLength(k, s, i)
    decreases e - i
  {
    if i < e {
      RunLengthIsLongest(k, s, i + 1, e);
    }
  }

  /** The ends tried are those of the repetitions. */
  lemma GreedyIsLongest(r: Run, s: string, i: nat, e: nat)
    requires i <= |s|
    ensures Repeats(r, s, i, e) <==> i + r.min <= e <= i + Greedy(r, s, i)
  {
    if Repeats(r, s, i, e) {
      RunLengthIsLongest(r.class_, s, i, e);
    }
  }

  /** The text between the positions is made of the repetitions, one after the other. */
  ghost predicate InRuns(rs: seq<Run>, s: string, i: nat, j: nat)
    decreases |rs|
  {
    if rs == [] then i == j
    else exists e: nat :: Repeats(rs[0], s, i, e) && InRuns(rs[1..], s, e, j)
  }

  /** The captures divide the text from position i to its end among the groups. */
  ghost predicate Derives(gs: seq<Group>, s: string, i: nat, c: Captures)
    requires i <= |s|
    decreases |gs|
  {
    if gs == [] then i == |s| && c == []
    else
      && c != []
      && if c[0] == None then gs[0].optional && Derives(gs[1..], s, i, c[1..])
         else
           && c[0].value.from == i && c[0].value.to <= |s|
           && InRuns(gs[0].runs, s, i, c[0].value.to)
           && Derives(gs[1..], s, c[0].value.to, c[1..])
  }

  lemma {:induction false} MatchGroupsSound(gs: seq<Group>, s: string, i: nat)
    requires i <= |s| && MatchGroups(gs, s, i).Some?
    ensures Derives(gs, s, i, MatchGroups(gs, s, i).value)
    decreases |gs|, 0, 0
  {
    if gs != [] {
      var taken := MatchRuns(gs[0].runs, gs[1..], s, i, i);
      if taken.Some? {
        MatchRunsSound(gs[0].runs, gs[1..], s, i, i);
      } else {
        MatchGroupsSound(gs[1..], s, i);
        var c := MatchGroups(gs[1..], s, i).value;
        assert MatchGroups(gs, s, i).value[1..] == c;
      }
    }
  }

  lemma {:induction false} MatchRunsSound(rs: seq<Run>, rest: seq<Group>, s: string, start: nat, i: nat)
    requires i <= |s| && MatchRuns(rs, rest, s, start, i).Some?
    ensures var c := MatchRuns(rs, rest, s, start, i).value;
            && c[0].Some? && c[0].value.from == start && c[0].value.to <= |s|
            && InRuns(rs, s, i, c[0].value.to) && Derives(rest, s, c[0].value.to, c[1..])
    decreases |rest|, 1 + |rs|, |s| + 1
  {
    if rs == [] {
      MatchGroupsSound(rest, s, i);
      assert MatchRuns(rs, rest, s, start, i).value[1..] == MatchGroups(rest, s, i).value;
    } else {
      TryEndsSound(rs, rest, s, start, i, i + Greedy(rs[0], s, i));
    }
  }

  lemma {:induction false} TryEndsSound(rs: seq<Run>, rest: seq<Group>, s: string, start: nat, i: nat, e: nat)
    requires rs != [] && i <= |s| && e <= i + Greedy(rs[0], s, i)
    requires TryEnds(rs, rest, s, start, i, e).Some?
    ensures var c := TryEnds(rs, rest, s, start, i, e).value;
            && c[0].Some? && c[0].value.from == start && c[0].value.to <= |s|
            && InRuns(rs, s, i, c[0].value.to) && Derives(rest, s, c[0].value.to, c[1..])
    decreases |rest|, 1 + |rs|, e
  {
    if MatchRuns(rs[1..], rest, s, start, e).Some? {
      MatchRunsSound(rs[1..], rest, s, start, e);
      GreedyIsLongest(rs[0], s, i, e);
    } else {
      TryEndsSound(rs, rest, s, start, i, e - 1);
    }
  }

  lemma {:induction false} MatchGroupsComplete(gs: seq<Group>, s: string, i: nat, c: Captures)
    requires i <= |s| && Derives(gs, s, i, c)
    ensures MatchGroups(gs, s, i).Some?
    decreases |gs|
  {
    if gs != [] {
      if c[0] == None {
        MatchGroupsComplete(gs[1..], s, i, c[1..]);
      } else {
        MatchGroupsComplete(gs[1..], s, c[0].value.to, c[1..]);
        MatchRunsComplete(gs[0].runs, gs[1..], s, i, i, c[0].value.to);
      }
    }
  }

  lemma {:induction false} MatchRunsComplete(rs: seq<Run>, rest: seq<Group>, s: string, start: nat, i: nat, j: nat)
    requires i <= |s| && j <= |s| && InRuns(rs, s, i, j) && MatchGroups(rest, s, j).Some?
    ensures MatchRuns(rs, rest, s, start, i).Some?
    decreases |rs|
  {
    hide Greedy, TryEnds, MatchGroups;
    if rs != [] {
      var e := FirstEnd(rs, s, i, j);
      hide InRuns;
      MatchRunsComplete(rs[1..], rest, s, start, e, j);
      TryEndsReaches(rs, rest, s, start, i, i + Greedy(rs[0], s, i), e);
    }
  }

  /** Where the first repetition ends. */
  lemma FirstEnd(rs: seq<Run>, s: string, i: nat, j: nat) returns (e: nat)
    requires rs != [] && i <= |s| && InRuns(rs, s, i, j)
    ensures i + rs[0].min <= e <= i + Greedy(rs[0], s, i) <= |s| && InRuns(rs[1..], s, e, j)
  {
    e :| Repeats(rs[0], s, i, e) && InRuns(rs[1..], s, e, j);
    GreedyIsLongest(rs[0], s, i, e);
  }

  lemma {:induction false} TryEndsReaches(rs: seq<Run>, rest: seq<Group>, s: string, start: nat, i: nat, e: nat, k: nat)
    requires rs != [] && e <= |s| && i + rs[0].min <= k <= e
    requires MatchRuns(rs[1..], rest, s, start, k).Some?
    ensures TryEnds(rs, rest, s, start, i, e).Some?
    decreases e
  {
    if k < e {
      TryEndsReaches(rs, rest, s, start, i, e - 1, k);
    }
  }

  /** The captures divide the whole text among the groups. */
  ghost predicate Divides(gs: seq<Group>, s: string, c: Captures) {
    Derives(gs, s, 0, c)
  }

  /** The matcher finds a match exactly when the text can be divided among the groups at all, and
      what it finds is such a division. */
  lemma MatchesExactly(gs: seq<Group>, s: string)
    ensures MatchGroups(gs, s, 0).Some? <==> exists c :: Divides(gs, s, c)
    ensures MatchGroups(gs, s, 0).Some? ==> Divides(gs, s, MatchGroups(gs, s, 0).value)
  {
    if MatchGroups(gs, s, 0).Some? {
      MatchGroupsSound(gs, s, 0);
      assert Divides(gs, s, MatchGroups(gs, s, 0).value);
    }
    if c :| Divides(gs, s, c) {
      MatchGroupsComplete(gs, s, 0, c);
    }
  }

  // ---- How a repetition behaves. ----

  /** The last position after which the rest matches wins. */
  lemma {:induction false} TryEndsFirst(rs: seq<Run>, rest: seq<Group>, s: string, start: nat, i: nat, e: nat, k: nat)
    requires rs != [] && e <= |s| && i + rs[0].min <= k <= e
    requires forall j :: k < j <= e ==> MatchRuns(rs[1..], rest, s, start, j) == None
    requires MatchRuns(rs[1..], rest, s, start, k).Some?
    ensures TryEnds(rs, rest, s, start, i, e) == MatchRuns(rs[1..], rest, s, start, k)
    decreases e
  {
    if k < e {
      TryEndsFirst(rs, rest, s, start, i, e - 1, k);
    }
  }

  /** If the rest matches after no position, the repetition fails. */
  lemma {:induction false} TryEndsFails(rs: seq<Run>, rest: seq<Group>, s: string, start: nat, i: nat, e: nat)
    requires rs != [] && e <= |s|
    requires forall j: nat :: i + rs[0].min <= j <= e ==> MatchRuns(rs[1..], rest, s, start, j) == None
    ensures TryEnds(rs, rest, s, start, i, e) == None
    decreases e
  {
    if e > 0 && e >= i + rs[0].min {
      TryEndsFails(rs, rest, s, start, i, e - 1);
    }
  }

  /** The literal c. */
  function Literal(c: char): Run {
    Run(Only(c), 1, Some(1))
  }

  lemma LiteralIs(c: char, rs: seq<Run>, rest: seq<Group>, s: string, start: nat, i: nat)
    requires i <= |s|
    ensures MatchRuns([Literal(c)] + rs, rest, s, start, i) ==
      if i < |s| && s[i] == c then MatchRuns(rs, rest, s, start, i + 1) else None
  {
    var r := [Literal(c)] + rs;
    assert r[1..] == rs;
    var e := i + Greedy(r[0], s, i);
    if i < |s| && s[i] == c {
      assert RunLength(Only(c), s, i) >= 1;
      assert e == i + 1;
      assert TryEnds(r, rest, s, start, i, i) == None;
    } else {
      assert e == i;
    }
  }
}

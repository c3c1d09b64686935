/** Logs whose numbers exceed the slots, as a directory holds them after the maximum was lowered: what
    one call does with them, and when it loses a log on the way. */
module LogExcess {
  import opened Options
  import opened Decimal
  import opened LogNames
  import opened LogSlots
  import opened LogRotation
  import opened LogMeaning
  import opened LogLimits
  import opened LogRuns

  /** The one-digit numbers in use from t on, largest first. */
  function NumbersFrom(files: Files, t: nat): (s: seq<nat>)
    ensures forall k :: 0 <= k < |s| ==> t <= s[k] < 10 && NumberedName(s[k]) in files
    ensures forall n :: t <= n < 10 && NumberedName(n) in files ==> n in s
    ensures forall j, k :: 0 <= j < k < |s| ==> s[j] > s[k]
    decreases 10 - t
  {
    if t >= 10 then []
    else NumbersFrom(files, t + 1) + if NumberedName(t) in files then [t] else []
  }

  /** A call in a directory where every selected file is the current log, a log numbered 1 to 9, or
      gives no number. The numbers may exceed the slots. */
  ghost predicate Loose(c: Call) {
    && |c.program| == |PREFIX| + 1 && 2 <= c.max <= UINT_RANGE && IsListing(c.entries, c.files)
    && forall name :: name in c.files && Selected(name) ==>
         name == CurrentName(c.program) || NumberOf(c.program, name) == None || IsSlotName(name, 10)
  }

  /** The numbers that exceed the slots, largest first. */
  function Excess(c: Call): (s: seq<nat>)
    ensures forall k :: 0 <= k < |s| ==> c.max <= s[k] < 10 && NumberedName(s[k]) in c.files
    ensures forall n :: c.max <= n < 10 && NumberedName(n) in c.files ==> n in s
    ensures forall j, k :: 0 <= j < k < |s| ==> s[j] > s[k]
  {
    NumbersFrom(c.files, c.max)
  }

  /** As many of the highest slots are free as there are numbers in excess. */
  ghost predicate TopFree(c: Call) {
    forall t :: 1 <= t < c.max && t >= c.max - |Excess(c)| ==> NumberedName(t) !in c.files
  }

  /** The directory when the first j logs in excess were visited: a crowded directory gives them up,
      otherwise they are renamed to the highest slots, whatever is there. */
  function TakenIn(c: Call, j: nat): (files: Files)
    requires j <= |Excess(c)| && (c.Crowded() || j < c.max)
    decreases j
  {
    if j == 0 then c.files else Taken(c, j, TakenIn(c, j - 1))
  }

  function Taken(c: Call, j: nat, files: Files): Files
    requires 0 < j <= |Excess(c)| && (c.Crowded() || j < c.max)
  {
    var name := NumberedName(Excess(c)[j - 1]);
    if c.Crowded() then files - {name} else Renamed(files, name, NumberedName(c.max - j))
  }

  /** The first j logs neither have this name nor are renamed to it. */
  ghost predicate Untouched(c: Call, j: nat, name: string)
    requires j <= |Excess(c)| && (c.Crowded() || j < c.max)
  {
    forall p :: 0 <= p < j ==> Spared(c, p, name)
  }

  predicate Spared(c: Call, p: nat, name: string)
    requires p < |Excess(c)| && (c.Crowded() || p < c.max)
  {
    name != NumberedName(Excess(c)[p]) && (c.Crowded() || name != NumberedName(c.max - 1 - p))
  }

  lemma TakenNone(c: Call)
    requires c.Crowded() || 0 < c.max
    ensures TakenIn(c, 0) == c.files
  {
  }

  /** One step, for one name. */
  lemma TakenStep(c: Call, j: nat, name: string)
    requires 0 < j <= |Excess(c)| && (c.Crowded() || j < c.max)
    requires NumberedName(Excess(c)[j - 1]) in TakenIn(c, j - 1)
    ensures Lookup(TakenIn(c, j), name) ==
            if !c.Crowded() && name == NumberedName(c.max - j)
            then Lookup(TakenIn(c, j - 1), NumberedName(Excess(c)[j - 1]))
            else if name == NumberedName(Excess(c)[j - 1]) then None
            else Lookup(TakenIn(c, j - 1), name)
  {
    hide NumberedName, Excess, TakenIn;
    TakenOnce(c, j);
  }

  lemma {:induction false} TakenKeeps(c: Call, j: nat, name: string)
    requires j <= |Excess(c)| && (c.Crowded() || j < c.max) && Untouched(c, j, name)
    ensures Lookup(TakenIn(c, j), name) == Lookup(c.files, name)
    decreases j
  {
    hide NumberedName, TakenIn, Excess, Call.Crowded;
    if j == 0 {
      TakenNone(c);
    } else {
      assert Untouched(c, j - 1, name) && Spared(c, j - 1, name);
      TakenKeeps(c, j - 1, name);
      TakenWaits(c, j - 1, j - 1);
      TakenStep(c, j, name);
    }
  }

  /** A log in excess stays as it is until it is visited. */
  lemma {:induction false} TakenWaits(c: Call, j: nat, p: nat)
    requires j <= p < |Excess(c)| && (c.Crowded() || j < c.max)
    ensures Lookup(TakenIn(c, j), NumberedName(Excess(c)[p])) == Lookup(c.files, NumberedName(Excess(c)[p])) != None
    decreases j
  {
    hide NumberedName, TakenIn, Excess;
    if j == 0 {
      TakenNone(c);
    } else {
      TakenWaits(c, j - 1, p);
      TakenWaits(c, j - 1, j - 1);
      DistinctSlots(Excess(c)[p], Excess(c)[j - 1]);
      DistinctSlots(Excess(c)[p], if c.Crowded() then 0 else c.max - j);
      TakenStep(c, j, NumberedName(Excess(c)[p]));
    }
  }

  /** The logs visited have left their names, and unless the directory is crowded they fill the
      highest slots in the order of their numbers. */
  lemma {:induction false} TakenMoves(c: Call, j: nat, p: nat)
    requires p < j <= |Excess(c)| && (c.Crowded() || j < c.max)
    ensures NumberedName(Excess(c)[p]) !in TakenIn(c, j)
    ensures !c.Crowded() ==>
      Lookup(TakenIn(c, j), NumberedName(c.max - 1 - p)) == Lookup(c.files, NumberedName(Excess(c)[p]))
    decreases j
  {
    hide NumberedName, TakenIn, Excess;
    var n, slot := Excess(c)[p], if c.Crowded() then 0 else c.max - 1 - p;
    TakenWaits(c, j - 1, j - 1);
    TakenStep(c, j, NumberedName(n));
    TakenStep(c, j, NumberedName(slot));
    DistinctSlots(n, if c.Crowded() then 0 else c.max - j);
    DistinctSlots(slot, Excess(c)[j - 1]);
    if p < j - 1 {
      TakenMoves(c, j - 1, p);
      DistinctSlots(n, Excess(c)[j - 1]);
      DistinctSlots(slot, if c.Crowded() then 0 else c.max - j);
    }
  }

  // ---- The walk over the numbers in excess. ----

  /** The first j numbers in excess were visited when i entries are left. */
  ghost predicate Taking(c: Call, w: Walk, i: nat, j: nat)
    requires c.max >= 2
  {
    && i <= |c.entries| && j <= |Excess(c)| && (c.Crowded() || j < c.max)
    && w.files == TakenIn(c, j)
    && w.index == (if c.Crowded() then c.max - 1 else c.max - 1 - j)
    && (w.foundCurrent <==> SeenFrom(c, i)) && NumbersLeft(c, i, j)
  }

  /** The current log is among the entries visited. */
  predicate SeenFrom(c: Call, i: nat) {
    exists k :: i <= k < |c.entries| && c.entries[k] == CurrentName(c.program)
  }

  ghost predicate NumbersLeft(c: Call, i: nat, j: nat)
    requires i <= |c.entries| && j <= |Excess(c)|
  {
    forall n :: 1 <= n < 10 ==>
      (NumberedName(n) in c.entries[..i] <==> NumberedName(n) in c.files && n < Unvisited(c, j))
  }

  /** The numbers not yet visited are those below. */
  function Unvisited(c: Call, j: nat): (n: nat)
    requires j <= |Excess(c)|
  {
    if j == 0 then 10 else Excess(c)[j - 1]
  }

  /** Until the last number in excess was visited, an entry is one of them, the current log or gives
      no number. */
  lemma NextInExcess(c: Call, w: Walk, i: nat, j: nat, n: nat)
    requires Loose(c) && Taking(c, w, i, j) && j < |Excess(c)| && i > 0
    requires 1 <= n < 10 && c.entries[i - 1] == NumberedName(n)
    ensures n == Excess(c)[j]
  {
    hide NumberedName, TakenIn, Excess, SeenFrom;
    var next := Excess(c)[j];
    assert NumberedName(n) in c.entries[..i];
    assert NumberedName(next) in c.entries[..i];
    var k :| 0 <= k < i && c.entries[k] == NumberedName(next);
    OneDigitOrder(n, next);
    assert next <= n by {
      if k < i - 1 && n < next {
        PrecedesAsymmetric(NumberedName(n), NumberedName(next));
      } else if k == i - 1 {
        NumberedNameInjective(n, next);
      }
    }
    var p :| 0 <= p < |Excess(c)| && Excess(c)[p] == n;
  }

  lemma TakingAtStart(c: Call)
    requires Loose(c)
    ensures Taking(c, Walk(c.files, c.max - 1, false), |c.entries|, 0)
  {
    TakenNone(c);
    forall n | 1 <= n < 10
      ensures NumberedName(n) in c.entries[..|c.entries|] <==> NumberedName(n) in c.files
    {
      NumberedNameDigits(n);
      assert c.entries[..|c.entries|] == c.entries;
    }
  }

  /** A crowded directory deletes the log, any other moves it to the next slot from above. */
  lemma ExcessIsPlaced(c: Call, w: Walk, i: nat, j: nat)
    requires Loose(c) && Taking(c, w, i, j) && j < |Excess(c)| && (c.Crowded() || j + 1 < c.max)
    ensures var w' := Visit(w, NumberedName(Excess(c)[j]), c.program, |c.entries|, c.max);
            && w'.files == TakenIn(c, j + 1) && w'.foundCurrent == w.foundCurrent
            && w'.index == if c.Crowded() then c.max - 1 else c.max - 1 - (j + 1)
  {
    hide NumberedName, TakenIn, Excess, Visit, SeenFrom, NumbersLeft, Loose, Place, Renamed;
    LooseBounds(c);
    var n := Excess(c)[j];
    TakenUnfolds(c, j);
    NumberIsPlaced(w, n, c.program, |c.entries|, c.max);
    PlaceAbove(w, NumberedName(n), n, |c.entries|, c.max, j);
  }

  lemma LooseBounds(c: Call)
    requires Loose(c)
    ensures |c.program| == |PREFIX| + 1 && 2 <= c.max <= UINT_RANGE
  {
  }

  lemma TakenUnfolds(c: Call, j: nat)
    requires j < |Excess(c)| && (c.Crowded() || j + 1 < c.max)
    ensures TakenIn(c, j + 1) ==
      if c.Crowded() then TakenIn(c, j) - {NumberedName(Excess(c)[j])}
      else Renamed(TakenIn(c, j), NumberedName(Excess(c)[j]), NumberedName(c.max - (j + 1)))
  {
    hide NumberedName, Excess, Renamed;
    var k := j + 1;
    assert TakenIn(c, k) == Taken(c, k, TakenIn(c, k - 1)) by { TakenOnce(c, k); }
    hide TakenIn;
  }

  lemma TakenOnce(c: Call, k: nat)
    requires 0 < k <= |Excess(c)| && (c.Crowded() || k < c.max)
    ensures TakenIn(c, k) == Taken(c, k, TakenIn(c, k - 1))
  {
    hide NumberedName, Excess, Taken;
  }

  /** What becomes of a log with a number above the index. */
  lemma PlaceAbove(w: Walk, name: string, n: nat, count: nat, max: nat, j: nat)
    requires 1 <= max <= n && (count >= max || j + 1 < max)
    requires w.index == if count >= max then max - 1 else max - 1 - j
    ensures Place(w, name, n, count, max) ==
      if count >= max then w.(files := w.files - {name})
      else w.(files := Renamed(w.files, name, NumberedName(max - (j + 1))), index := max - 1 - (j + 1))
  {
    hide NumberedName, Renamed;
  }

  lemma NumberIsPlaced(w: Walk, n: nat, program: string, count: nat, max: nat)
    requires |program| == |PREFIX| + 1 && n < UINT_RANGE && 1 <= max
    ensures Visit(w, NumberedName(n), program, count, max) == Place(w, NumberedName(n), n, count, max)
  {
    NumberOfNumberedName(program, n);
    CurrentIsNotNumbered(program, n);
    hide NumberedName, CurrentName, NumberOf, Place;
  }

  /** Dropping the last entry takes one name from those waiting. */
  lemma OneNameLess(c: Call, i: nat, name: string)
    requires Loose(c) && 0 < i <= |c.entries|
    ensures name in c.entries[..i - 1] <==> name in c.entries[..i] && name != c.entries[i - 1]
  {
    ListingDistinct(c.entries, c.files);
    assert c.entries[..i] == c.entries[..i - 1] + [c.entries[i - 1]];
  }

  lemma TakingNumber(c: Call, w: Walk, i: nat, j: nat)
    requires Loose(c) && Taking(c, w, i, j) && j < |Excess(c)| && (c.Crowded() || j + 1 < c.max)
    requires i > 0 && c.entries[i - 1] == NumberedName(Excess(c)[j])
    ensures Taking(c, Visit(w, c.entries[i - 1], c.program, |c.entries|, c.max), i - 1, j + 1)
  {
    ExcessIsPlaced(c, w, i, j);
    CurrentIsNotNumbered(c.program, Excess(c)[j]);
    hide NumberedName, CurrentName, Visit, TakenIn, Excess, NumbersLeft, Loose, SeenFrom;
    FewerNumbersLeft(c, i, j);
    SeenOneMore(c, i);
  }

  lemma SeenOneMore(c: Call, i: nat)
    requires 0 < i <= |c.entries|
    ensures SeenFrom(c, i - 1) <==> SeenFrom(c, i) || c.entries[i - 1] == CurrentName(c.program)
  {
    hide CurrentName;
  }

  lemma FewerNumbersLeft(c: Call, i: nat, j: nat)
    requires Loose(c) && 0 < i <= |c.entries| && j < |Excess(c)| && NumbersLeft(c, i, j)
    requires c.entries[i - 1] == NumberedName(Excess(c)[j])
    ensures NumbersLeft(c, i - 1, j + 1)
  {
    hide NumberedName, Excess, Loose;
    forall n | 1 <= n < 10
      ensures NumberedName(n) in c.entries[..i - 1] <==> NumberedName(n) in c.files && n < Unvisited(c, j + 1)
    {
      OneNameLess(c, i, NumberedName(n));
      DistinctSlots(n, Excess(c)[j]);
      NoneBetween(c, j, n);
    }
  }

  lemma NoneBetween(c: Call, j: nat, n: nat)
    requires j < |Excess(c)| && n < 10
    ensures NumberedName(n) in c.files && n < Unvisited(c, j) ==> n <= Excess(c)[j]
  {
    hide NumberedName, Excess;
    if NumberedName(n) in c.files && n >= c.max {
      var p :| 0 <= p < |Excess(c)| && Excess(c)[p] == n;
    }
  }

  lemma TakingOther(c: Call, w: Walk, i: nat, j: nat)
    requires Loose(c) && Taking(c, w, i, j) && i > 0 && !IsSlotName(c.entries[i - 1], 10)
    ensures Taking(c, Visit(w, c.entries[i - 1], c.program, |c.entries|, c.max), i - 1, j)
  {
    assert c.entries[i - 1] in c.entries;
    hide NumberedName, CurrentName, NumberOf, TakenIn, Selected, Precedes, Excess, NumbersLeft, SeenFrom;
    SeenOneMore(c, i);
    AsManyNumbersLeft(c, i, j);
  }

  lemma AsManyNumbersLeft(c: Call, i: nat, j: nat)
    requires Loose(c) && 0 < i <= |c.entries| && j <= |Excess(c)| && NumbersLeft(c, i, j)
    requires !IsSlotName(c.entries[i - 1], 10)
    ensures NumbersLeft(c, i - 1, j)
  {
    hide NumberedName, Excess, Loose;
    forall n | 1 <= n < 10
      ensures NumberedName(n) in c.entries[..i - 1] <==> NumberedName(n) in c.entries[..i]
    {
      OneNameLess(c, i, NumberedName(n));
      assert IsSlotName(NumberedName(n), 10);
    }
  }

  lemma StillToVisit(c: Call, w: Walk, i: nat, j: nat)
    requires Loose(c) && Taking(c, w, i, j) && j < |Excess(c)|
    ensures 0 < i <= |c.entries|
  {
    assert NumberedName(Excess(c)[j]) in c.entries[..i];
  }

  /** At some point of the walk all numbers in excess were visited, and nothing else has happened. */
  lemma {:induction false} TakingAll(c: Call, w: Walk, i: nat, j: nat) returns (w': Walk, i': nat)
    requires Loose(c) && 2 <= c.max && (c.Crowded() || |Excess(c)| < c.max)
    requires j <= |Excess(c)| && Taking(c, w, i, j)
    ensures Taking(c, w', i', |Excess(c)|)
    ensures WalkBack(w, c.entries, i, c.program, c.max) == WalkBack(w', c.entries, i', c.program, c.max)
    decreases i
  {
    hide NumberedName, Visit, Taking, Excess, Loose;
    if j == |Excess(c)| {
      w', i' := w, i;
    } else {
      StillToVisit(c, w, i, j);
      var next := Visit(w, c.entries[i - 1], c.program, |c.entries|, c.max);
      if n :| 1 <= n < 10 && c.entries[i - 1] == NumberedName(n) {
        NextInExcess(c, w, i, j, n);
        TakingNumber(c, w, i, j);
        w', i' := TakingAll(c, next, i - 1, j + 1);
      } else {
        TakingOther(c, w, i, j);
        w', i' := TakingAll(c, next, i - 1, j);
      }
    }
  }

  // ---- The rest of the call. ----

  /** The call as it would be had the logs in excess been taken in before. Its listing is the one that
      was made. */
  function After(c: Call): Call
    requires c.Crowded() || |Excess(c)| < c.max
  {
    c.(files := TakenIn(c, |Excess(c)|))
  }

  lemma SlotUntouched(c: Call, m: nat, t: nat)
    requires m <= |Excess(c)| && (c.Crowded() || m < c.max)
    requires 1 <= t < c.max && (c.Crowded() || t < c.max - m)
    ensures Untouched(c, m, NumberedName(t))
  {
    hide NumberedName, Excess;
    forall p | 0 <= p < m
      ensures Spared(c, p, NumberedName(t))
    {
      DistinctSlots(t, Excess(c)[p]);
      DistinctSlots(t, if c.Crowded() then 0 else c.max - 1 - p);
    }
  }

  /** The number under which the log of slot t was found. */
  function Origin(c: Call, t: nat): nat
    requires t < c.max && (c.Crowded() || |Excess(c)| < c.max)
  {
    if !c.Crowded() && t >= c.max - |Excess(c)| then Excess(c)[c.max - 1 - t] else t
  }

  lemma TakenSlot(c: Call, t: nat)
    requires 1 <= t < c.max && (c.Crowded() || |Excess(c)| < c.max)
    ensures After(c).Had(t) == Lookup(c.files, NumberedName(Origin(c, t)))
  {
    hide NumberedName, TakenIn, Excess;
    var m := |Excess(c)|;
    if !c.Crowded() && t >= c.max - m {
      TakenMoves(c, m, c.max - 1 - t);
    } else {
      SlotUntouched(c, m, t);
      TakenKeeps(c, m, NumberedName(t));
    }
  }

  /** Distinct numbers of listed logs are no more than the listing has entries. */
  lemma NumbersFit(c: Call, numbers: seq<nat>, others: seq<string>)
    requires forall k :: 0 <= k < |numbers| ==> NumberedName(numbers[k]) in c.entries
    requires forall k :: 0 <= k < |others| ==> others[k] in c.entries && forall n :: others[k] != NumberedName(n)
    requires forall j, k :: 0 <= j < k < |numbers| ==> numbers[j] != numbers[k]
    requires |others| <= 1
    ensures |numbers| + |others| <= |c.entries|
  {
    var names := seq(|numbers|, k requires 0 <= k < |numbers| => NumberedName(numbers[k]));
    forall j, k | 0 <= j < k < |names|
      ensures names[j] != names[k]
    {
      DistinctSlots(numbers[j], numbers[k]);
    }
    hide NumberedName;
    DistinctCount(names + others, set x | x in c.entries);
    ElementsBound(c.entries);
  }

  lemma NumberIsListed(c: Call, n: nat)
    requires IsListing(c.entries, c.files) && NumberedName(n) in c.files
    ensures NumberedName(n) in c.entries
  {
    NumberedNameDigits(n);
  }

  /** The numbers in excess are fewer than a directory that is not crowded has slots. */
  lemma ExcessFits(c: Call)
    requires Loose(c)
    ensures !c.Crowded() ==> |Excess(c)| < c.max
  {
    hide NumberedName, Excess;
    forall p | 0 <= p < |Excess(c)|
      ensures NumberedName(Excess(c)[p]) in c.entries
    {
      NumberIsListed(c, Excess(c)[p]);
    }
    NumbersFit(c, Excess(c), []);
  }

  lemma RestIsReady(c: Call, w: Walk, i: nat)
    requires Loose(c) && (c.Crowded() || |Excess(c)| < c.max) && Taking(c, w, i, |Excess(c)|)
    ensures After(c).Ready(i)
  {
    hide NumberedName, CurrentName, NumberOf, Selected, Precedes, TakenIn;
    forall k | 0 <= k < i
      ensures c.entries[k] == CurrentName(c.program) || NumberOf(c.program, c.entries[k]) == None
           || IsSlotName(c.entries[k], c.max)
      ensures forall n :: 10 <= n < c.max ==> c.entries[k] != NumberedName(n)
    {
      EntryIsPlain(c, i, k);
    }
  }

  lemma EntryIsPlain(c: Call, i: nat, k: nat)
    requires Loose(c) && k < i <= |c.entries| && NumbersLeft(c, i, |Excess(c)|)
    ensures c.entries[k] == CurrentName(c.program) || NumberOf(c.program, c.entries[k]) == None
         || IsSlotName(c.entries[k], c.max)
    ensures forall n :: 10 <= n < c.max ==> c.entries[k] != NumberedName(n)
  {
    var name := c.entries[k];
    assert name in c.entries && name in c.entries[..i];
    forall n | 10 <= n < c.max
      ensures name != NumberedName(n)
    {
      LooseIsOneDigit(c, n);
    }
    hide NumberedName, CurrentName, NumberOf, Selected, Excess, Unvisited;
    if n :| 1 <= n < 10 && name == NumberedName(n) {
      NoneBelowLast(c, n);
    }
  }

  lemma NoneBelowLast(c: Call, n: nat)
    requires n < 10
    ensures NumberedName(n) in c.files && n >= c.max ==> n >= Unvisited(c, |Excess(c)|)
  {
    hide NumberedName, Excess;
    if NumberedName(n) in c.files && n >= c.max {
      var p :| 0 <= p < |Excess(c)| && Excess(c)[p] == n;
    }
  }

  lemma LooseIsOneDigit(c: Call, n: nat)
    requires Loose(c) && 10 <= n < UINT_RANGE
    ensures NumberedName(n) !in c.files
  {
    NumberedNameDigits(n);
    NumberOfNumberedName(c.program, n);
    CurrentIsNotNumbered(c.program, n);
    hide NumberedName, CurrentName, NumberOf, Selected;
    if t :| 1 <= t < 10 && NumberedName(n) == NumberedName(t) {
      NumberedNameInjective(n, t);
    }
  }

  /** Where the logs in excess were taken in, the gap is not above the index. */
  lemma GapIsBelow(c: Call)
    requires Loose(c) && (c.Crowded() || |Excess(c)| < c.max)
    ensures After(c).Gap() <= if c.Crowded() then c.max - 1 else c.max - 1 - |Excess(c)|
  {
    var a := After(c);
    assert a.max >= 2;
    hide NumberedName, TakenIn, Excess, Loose;
    var g := a.Gap();
    GapSplits(a, g);
    if !c.Crowded() && g > c.max - 1 - |Excess(c)| {
      TakenSlot(c, g);
    }
  }

  lemma RestKeepsInvariant(c: Call, w: Walk, i: nat)
    requires Loose(c) && (c.Crowded() || |Excess(c)| < c.max) && (c.Crowded() || TopFree(c))
    requires Taking(c, w, i, |Excess(c)|)
    ensures Numbers(After(c), w.index, i, w.index + 1) && Slots(After(c), w, w.index + 1) && Others(After(c), w, i)
  {
    var a := After(c);
    GapIsBelow(c);
    RestNumbers(c, w, i);
    hide NumberedName, CurrentName, TakenIn, Excess, Numbers, NumbersLeft, Loose, TopFree, Call.Gap, Call.Gets;
    forall t | 1 <= t < c.max
      ensures Lookup(w.files, NumberedName(t)) == a.Had(t)
      ensures t > w.index ==> a.Gets(t) == a.Had(t)
    {
      GapSplits(a, t);
    }
    hide Call.Had;
  }

  lemma RestNumbers(c: Call, w: Walk, i: nat)
    requires Loose(c) && (c.Crowded() || |Excess(c)| < c.max) && (c.Crowded() || TopFree(c))
    requires Taking(c, w, i, |Excess(c)|)
    ensures Numbers(After(c), w.index, i, w.index + 1)
  {
    var a := After(c);
    GapIsBelow(c);
    hide NumberedName, TakenIn, Excess;
    forall t | 1 <= t < c.max
      ensures Waiting(a, i, t) <==> a.Had(t).Some? && t < w.index + 1
    {
      RestWaits(c, w, i, t);
    }
    hide CurrentName, Waiting, Call.Gap, NumbersLeft, Loose, TopFree;
    assert forall t :: Waiting(a, i, t) ==> 1 <= t < c.max by { WaitingIsSlot(a, i); }
  }

  lemma WaitingIsSlot(c: Call, i: nat)
    requires i <= |c.entries|
    ensures forall t :: Waiting(c, i, t) ==> 1 <= t < c.max
  {
  }

  /** The numbers that are left are those of the slots below the index. */
  lemma RestWaits(c: Call, w: Walk, i: nat, t: nat)
    requires Loose(c) && (c.Crowded() || |Excess(c)| < c.max) && (c.Crowded() || TopFree(c))
    requires Taking(c, w, i, |Excess(c)|) && 1 <= t < c.max
    ensures Waiting(After(c), i, t) <==> After(c).Had(t).Some? && t < w.index + 1
  {
    hide CurrentName, NumberedName, TakenIn;
    TakenSlot(c, t);
    if t >= 10 {
      LooseIsOneDigit(c, t);
    }
    assert Waiting(After(c), i, t) <==> NumberedName(t) in c.entries[..i];
  }

  /** The pigeonhole argument once more: the logs of the slots come from different files, so with a
      current log beside them the directory is crowded or a slot is free. */
  lemma SlotOneIsFreeAfter(c: Call)
    requires Loose(c) && (c.Crowded() || |Excess(c)| < c.max) && c.SeesCurrent()
    ensures After(c).Gets(1) == None
  {
    var a := After(c);
    assert a.max >= 2;
    GapSplits(a, 1);
    hide NumberedName, CurrentName, TakenIn, Excess, Origin, Call.Gap, Call.Gets, Loose;
    if a.Gap() == 0 {
      GapOfCrowded(a);
      var t := OriginsFit(c);
      GapSplits(a, t);
      OriginIsListed(c, t);
    }
  }

  lemma GapOfCrowded(c: Call)
    requires 2 <= c.max
    ensures c.Crowded() ==> c.Gap() > 0
  {
  }

  lemma OriginIsListed(c: Call, t: nat)
    requires Loose(c) && !c.Crowded() && |Excess(c)| < c.max && After(c).Had(t).Some?
    ensures t < c.max && NumberedName(Origin(c, t)) in c.entries
  {
    hide NumberedName, TakenIn, Excess, Origin;
    TakenSlot(c, t);
    NumberIsListed(c, Origin(c, t));
  }

  function Origins(c: Call): (s: seq<nat>)
    requires 1 <= c.max && (c.Crowded() || |Excess(c)| < c.max)
    ensures |s| == c.max - 1 && forall k :: 0 <= k < |s| ==> s[k] == Origin(c, k + 1)
  {
    seq(c.max - 1, k requires 0 <= k < c.max - 1 => Origin(c, k + 1))
  }

  lemma OriginsFit(c: Call) returns (t: nat)
    requires Loose(c) && !c.Crowded() && |Excess(c)| < c.max && c.SeesCurrent()
    ensures 1 <= t < c.max && NumberedName(Origin(c, t)) !in c.entries
  {
    OriginsAreDistinct(c);
    CurrentIsListedAlone(c);
    var numbers := Origins(c);
    hide NumberedName, CurrentName, Excess, Origin, Loose, Origins;
    if k :| 0 <= k < |numbers| && NumberedName(numbers[k]) !in c.entries {
      t := k + 1;
    } else {
      NumbersFit(c, numbers, [CurrentName(c.program)]);
    }
  }

  lemma CurrentIsListedAlone(c: Call)
    requires Loose(c) && c.SeesCurrent()
    ensures CurrentName(c.program) in c.entries && forall n :: CurrentName(c.program) != NumberedName(n)
  {
    CurrentIsSelected(c.program);
    CurrentIsNoNumber(c.program);
  }

  lemma OriginsAreDistinct(c: Call)
    requires 1 <= c.max && (c.Crowded() || |Excess(c)| < c.max)
    ensures forall j, k :: 0 <= j < k < c.max - 1 ==> Origins(c)[j] != Origins(c)[k]
  {
    hide NumberedName, Excess;
  }

  /** The contents of the slots with the logs in excess taken in: outside a crowded directory they come
      to the highest slots, the largest number on top. */
  function Row(c: Call): (s: Row)
    requires 1 <= c.max && (c.Crowded() || |Excess(c)| < c.max)
    ensures |s| == c.max - 1
    ensures forall k :: 0 <= k < c.max - 1 ==>
      s[k] == if !c.Crowded() && k + 1 >= c.max - |Excess(c)|
              then Lookup(c.files, NumberedName(Excess(c)[c.max - 2 - k]))
              else Lookup(c.files, NumberedName(k + 1))
  {
    seq(c.max - 1, k requires 0 <= k < c.max - 1 => Lookup(c.files, NumberedName(Origins(c)[k])))
  }

  lemma RowIsAfter(c: Call)
    requires 1 <= c.max && (c.Crowded() || |Excess(c)| < c.max)
    ensures SlotsOf(After(c).files, c.max) == Row(c)
  {
    hide NumberedName, TakenIn, Excess;
    forall k | 0 <= k < c.max - 1
      ensures SlotsOf(After(c).files, c.max)[k] == Row(c)[k]
    {
      TakenSlot(c, k + 1);
      assert SlotsOf(After(c).files, c.max)[k] == After(c).Had(k + 1);
    }
  }

  /** One call where the logs in excess find free slots, or the directory is crowded: it is one rotation
      of the row they were taken into. No number in excess is left, and all other files are kept. */
  ghost predicate TakenAndShifted(c: Call, after: Files)
    requires 2 <= c.max
  {
    && (c.Crowded() || |Excess(c)| < c.max)
    && var current, slots := CurrentName(c.program), Rotate(Row(c), c.Crowded());
    && (c.SeesCurrent() ==> slots[0] == None)
    && SlotsOf(after, c.max) == (if c.SeesCurrent() then slots[0 := Some(c.files[current])] else slots)
    && current !in after
    && (forall n :: c.max <= n < 10 ==> NumberedName(n) !in after)
    && forall name :: name != current && !IsSlotName(name, c.max) && !IsSlotName(name, 10) ==>
         Lookup(after, name) == Lookup(c.files, name)
  }

  /** The result of the walk, for the files and for the current log. */
  lemma WalkResultLoose(c: Call) returns (w: Walk)
    requires Loose(c) && (c.Crowded() || |Excess(c)| < c.max) && (c.Crowded() || TopFree(c))
    ensures w == WalkBack(Walk(c.files, c.max - 1, false), c.entries, |c.entries|, c.program, c.max)
    ensures Others(After(c), w, 0)
    ensures forall t :: 1 <= t < c.max ==> Lookup(w.files, NumberedName(t)) == After(c).Gets(t)
  {
    TakingAtStart(c);
    var w', i' := TakingAll(c, Walk(c.files, c.max - 1, false), |c.entries|, 0);
    RestIsReady(c, w', i');
    RestKeepsInvariant(c, w', i');
    hide NumberedName, WalkBack, Taking, Numbers, Slots, Others, Loose, TakenIn, TopFree;
    RestOfWalk(After(c), w', i', w'.index + 1);
    w := WalkBack(w', c.entries, i', c.program, c.max);
  }

  lemma CurrentAfter(c: Call)
    requires Loose(c) && (c.Crowded() || |Excess(c)| < c.max)
    ensures Lookup(After(c).files, CurrentName(c.program)) == Lookup(c.files, CurrentName(c.program))
    ensures After(c).SeesCurrent() <==> c.SeesCurrent()
    ensures c.SeesCurrent() <==> CurrentName(c.program) in c.entries
  {
    CurrentIsNoNumber(c.program);
    CurrentIsSelected(c.program);
    hide NumberedName, CurrentName, TakenIn, Excess, Selected;
    TakenKeeps(c, |Excess(c)|, CurrentName(c.program));
  }

  /** The call as a whole, in terms of the directory with the logs in excess taken in. */
  lemma AfterShifts(c: Call)
    requires Loose(c) && (c.Crowded() || |Excess(c)| < c.max) && (c.Crowded() || TopFree(c))
    ensures ShiftedInto(After(c), Rotated(c.files, c.entries, c.program, c.max))
  {
    hide NumberedName, CurrentName, TakenIn, ShiftedInto, WalkBack, Finish, Others, Excess, TopFree;
    LooseBounds(c);
    hide Loose;
    var w := WalkResultLoose(c);
    CurrentAfter(c);
    FoundCurrent(c, w);
    CurrentIsNoNumber(c.program);
    if c.SeesCurrent() {
      SlotOneIsFreeAfter(c);
    }
    FinishMovesCurrent(After(c), w);
  }

  lemma FoundCurrent(c: Call, w: Walk)
    requires (c.Crowded() || |Excess(c)| < c.max) && Others(After(c), w, 0)
    ensures w.foundCurrent <==> CurrentName(c.program) in c.entries
  {
    hide NumberedName, CurrentName, TakenIn, Excess;
  }

  lemma CurrentIsNoNumber(program: string)
    requires |program| == |PREFIX| + 1
    ensures forall n :: CurrentName(program) != NumberedName(n)
  {
    forall n: nat
      ensures CurrentName(program) != NumberedName(n)
    {
      CurrentIsNotNumbered(program, n);
    }
  }

  lemma ExcessIsTaken(c: Call)
    requires Loose(c)
    requires c.Crowded() || TopFree(c)
    ensures TakenAndShifted(c, Rotated(c.files, c.entries, c.program, c.max))
  {
    ExcessFits(c);
    AfterShifts(c);
    RowIsAfter(c);
    CurrentAfter(c);
    var after := Rotated(c.files, c.entries, c.program, c.max);
    hide NumberedName, CurrentName, Rotated, Rotate, Row, SlotsOf, TakenIn, Excess;
    forall n | c.max <= n < 10
      ensures NumberedName(n) !in after
    {
      NoExcessLeft(c, after, n);
    }
    forall name | name != CurrentName(c.program) && !IsSlotName(name, c.max) && !IsSlotName(name, 10)
      ensures Lookup(after, name) == Lookup(c.files, name)
    {
      NeitherSlotNorExcess(c, name);
    }
  }

  lemma NoExcessLeft(c: Call, after: Files, n: nat)
    requires Loose(c) && (c.Crowded() || |Excess(c)| < c.max) && ShiftedInto(After(c), after)
    requires c.max <= n < 10
    ensures NumberedName(n) !in after
  {
    CurrentIsNotNumbered(c.program, n);
    hide NumberedName, CurrentName, Rotate, SlotsOf, TakenIn, Excess;
    forall t | 1 <= t < c.max
      ensures NumberedName(n) != NumberedName(t)
    {
      DistinctSlots(n, t);
    }
    assert !IsSlotName(NumberedName(n), c.max);
    ExcessIsGone(c, n);
    assert Lookup(after, NumberedName(n)) == Lookup(After(c).files, NumberedName(n));
  }

  lemma ExcessIsGone(c: Call, n: nat)
    requires (c.Crowded() || |Excess(c)| < c.max) && 2 <= c.max <= n < 10
    ensures NumberedName(n) !in After(c).files
  {
    hide NumberedName, TakenIn, Excess;
    if NumberedName(n) in c.files {
      var p :| 0 <= p < |Excess(c)| && Excess(c)[p] == n;
      TakenMoves(c, |Excess(c)|, p);
    } else {
      forall p | 0 <= p < |Excess(c)|
        ensures Spared(c, p, NumberedName(n))
      {
        DistinctSlots(n, if c.Crowded() then 0 else c.max - 1 - p);
      }
      TakenKeeps(c, |Excess(c)|, NumberedName(n));
    }
  }

  lemma NeitherSlotNorExcess(c: Call, name: string)
    requires (c.Crowded() || |Excess(c)| < c.max) && 2 <= c.max
    requires !IsSlotName(name, c.max) && !IsSlotName(name, 10)
    ensures Lookup(After(c).files, name) == Lookup(c.files, name)
  {
    hide NumberedName, TakenIn, Excess;
    TakenKeeps(c, |Excess(c)|, name);
  }

  // ---- When a log is lost. ----

  ghost predicate DistinctContents(files: Files) {
    forall a, b :: a in files && b in files && a != b ==> files[a] != files[b]
  }

  /** In a directory that is not crowded no log is lost if and only if the highest slots are free, one
      for every number in excess; otherwise a number in excess is renamed on top of the log of a
      slot. */
  lemma ExcessKeepsLogsExactly(c: Call)
    requires Loose(c) && PREFIX <= c.program && !c.Crowded() && DistinctContents(c.files)
    ensures NothingLost(c.files, Rotated(c.files, c.entries, c.program, c.max), c.max, false) <==> TopFree(c)
  {
    ExcessFits(c);
    hide NumberedName, CurrentName, Rotated, Excess, Loose, TakenIn;
    var after := Rotated(c.files, c.entries, c.program, c.max);
    if TopFree(c) {
      forall name | name in c.files
        ensures exists name' :: name' in after && after[name'] == c.files[name]
      {
        var name' := NameAfter(c, name);
        AfterShifts(c);
        LooseBounds(c);
        ContentSurvives(After(c), after, name');
      }
    } else {
      var t :| 1 <= t < c.max && t >= c.max - |Excess(c)| && NumberedName(t) in c.files;
      OverwrittenIsLost(c, t);
      assert !(exists name' :: name' in after && after[name'] == c.files[NumberedName(t)]);
    }
  }

  /** Where a content is once the logs in excess are taken in. */
  lemma NameAfter(c: Call, name: string) returns (name': string)
    requires !c.Crowded() && |Excess(c)| < c.max && TopFree(c) && name in c.files
    ensures Lookup(After(c).files, name') == Some(c.files[name])
  {
    hide NumberedName, TakenIn, Excess;
    var m := |Excess(c)|;
    if p :| 0 <= p < m && name == NumberedName(Excess(c)[p]) {
      TakenMoves(c, m, p);
      name' := NumberedName(c.max - 1 - p);
    } else {
      TakenKeeps(c, m, name);
      name' := name;
    }
  }

  /** The content of a slot that a number in excess is renamed to is nowhere. */
  lemma OverwrittenIsGone(c: Call, t: nat)
    requires !c.Crowded() && |Excess(c)| < c.max && DistinctContents(c.files)
    requires 1 <= t < c.max && t >= c.max - |Excess(c)| && NumberedName(t) in c.files
    ensures Lacks(After(c).files, c.files[NumberedName(t)])
  {
    var m, x := |Excess(c)|, c.files[NumberedName(t)];
    forall name | name in After(c).files
      ensures After(c).files[name] != x
    {
      OriginOfContent(c, t, name);
    }
  }

  lemma OriginOfContent(c: Call, t: nat, name: string)
    requires !c.Crowded() && |Excess(c)| < c.max && DistinctContents(c.files)
    requires 1 <= t < c.max && t >= c.max - |Excess(c)| && NumberedName(t) in c.files
    ensures Lookup(After(c).files, name) != Some(c.files[NumberedName(t)])
  {
    hide NumberedName, TakenIn, Excess;
    var m := |Excess(c)|;
    if Untouched(c, m, name) {
      TakenKeeps(c, m, name);
      assert Spared(c, c.max - 1 - t, name);
    } else {
      var p :| 0 <= p < m && !Spared(c, p, name);
      TakenMoves(c, m, p);
      DistinctSlots(Excess(c)[p], t);
    }
  }

  lemma {:induction false} RestLacks(w: Walk, entries: seq<string>, i: nat, program: string, max: nat, x: string)
    requires 1 <= max && i <= |entries| && Lacks(w.files, x)
    ensures Lacks(Finish(WalkBack(w, entries, i, program, max), program), x)
    decreases i
  {
    if i == 0 {
      hide NumberedName, CurrentName;
    } else {
      hide Visit, Lacks, Finish;
      VisitLacks(w, entries[i - 1], program, |entries|, max, x);
      RestLacks(Visit(w, entries[i - 1], program, |entries|, max), entries, i - 1, program, max, x);
    }
  }

  lemma OverwrittenIsLost(c: Call, t: nat)
    requires Loose(c) && !c.Crowded() && |Excess(c)| < c.max && DistinctContents(c.files)
    requires 1 <= t < c.max && t >= c.max - |Excess(c)| && NumberedName(t) in c.files
    ensures Lacks(Rotated(c.files, c.entries, c.program, c.max), c.files[NumberedName(t)])
  {
    TakingAtStart(c);
    var w, i := TakingAll(c, Walk(c.files, c.max - 1, false), |c.entries|, 0);
    OverwrittenIsGone(c, t);
    hide NumberedName, WalkBack, Loose, TakenIn, Excess, Finish, Lacks;
    RestLacks(w, c.entries, i, c.program, c.max, c.files[NumberedName(t)]);
  }
}

/** What the walk over the names means for the numbered slots: in an orderly directory whose numbers
    have one digit, one call is exactly one LogSlots.Rotate, with the current log put into slot 1. */
module LogMeaning {
  import opened Options
  import opened Decimal
  import opened LogNames
  import opened LogSlots
  import opened LogRotation

  function Lookup(files: Files, name: string): Option<string> {
    if name in files then Some(files[name]) else None
  }

  /** The contents of slots 1 to max - 1. */
  function SlotsOf(files: Files, max: nat): (s: Row)
    requires 1 <= max
    ensures |s| == max - 1
    ensures forall k :: 0 <= k < max - 1 ==> s[k] == Lookup(files, NumberedName(k + 1))
  {
    seq(max - 1, k requires 0 <= k => Lookup(files, NumberedName(k + 1)))
  }

  ghost predicate IsSlotName(name: string, max: nat) {
    exists n :: 1 <= n < max && name == NumberedName(n)
  }

  /** Every selected file is the current log, a numbered log of one of the slots, or a file whose
      name gives no number. Numbers may be missing. */
  ghost predicate Orderly(files: Files, program: string, max: nat) {
    forall name :: name in files && Selected(name) ==>
      name == CurrentName(program) || NumberOf(program, name) == None || IsSlotName(name, max)
  }

  /** No number in use has two digits. With a maximum of ten this is always so. */
  ghost predicate OneDigit(files: Files, max: nat) {
    forall n :: 10 <= n < max ==> NumberedName(n) !in files
  }

  /** A call: the directory, its listing, the program name and the maximum number of files. */
  datatype Call = Call(files: Files, entries: seq<string>, program: string, max: nat) {
    ghost predicate Valid() {
      && |program| == |PREFIX| + 1 && 2 <= max <= UINT_RANGE
      && Orderly(files, program, max) && OneDigit(files, max) && IsListing(entries, files)
    }

    /** What the walk needs of the listing when the first i entries are left. */
    ghost predicate Ready(i: nat) {
      && |program| == |PREFIX| + 1 && 2 <= max <= UINT_RANGE && i <= |entries|
      && (forall j, k :: 0 <= j < k < |entries| ==> Precedes(entries[j], entries[k]))
      && (forall k :: 0 <= k < i ==>
            || entries[k] == CurrentName(program) || NumberOf(program, entries[k]) == None
            || IsSlotName(entries[k], max))
      && forall k, n :: 0 <= k < i && 10 <= n < max ==> entries[k] != NumberedName(n)
    }

    /** The current log is among the listed files: it exists and the program name has the prefix. */
    predicate SeesCurrent() {
      PREFIX <= program && CurrentName(program) in files
    }

    predicate Crowded() {
      |entries| >= max
    }

    /** The content of slot t before the call. */
    function Had(t: int): Option<string> {
      if 1 <= t < max then Lookup(files, NumberedName(t)) else None
    }

    /** The content of slot t after the call, the current log aside. */
    function Gets(t: int): Option<string> {
      if 1 <= t < max then Rotate(SlotsOf(files, max), Crowded())[t - 1] else None
    }

    /** The slot that is filled: everything below it moves up by one. */
    function Gap(): int
      requires 2 <= max
    {
      if Crowded() then max - 1 else LastFree(SlotsOf(files, max)) + 1
    }
  }

  lemma ReadyAtStart(c: Call)
    requires c.Valid()
    ensures c.Ready(|c.entries|)
  {
    hide NumberedName, CurrentName, NumberOf, Selected, Precedes;
    forall k | 0 <= k < |c.entries|
      ensures c.entries[k] in c.files && Selected(c.entries[k])
    {
      assert c.entries[k] in c.entries;
    }
  }

  lemma ReadyStaysReady(c: Call, i: nat, j: nat)
    requires c.Ready(i) && j <= i
    ensures c.Ready(j)
  {
    hide NumberedName, CurrentName, NumberOf, IsSlotName, Precedes;
  }

  lemma GapSplits(c: Call, t: int)
    requires 2 <= c.max
    ensures 0 <= c.Gap() < c.max
    ensures !c.Crowded() && c.Gap() < t < c.max ==> c.Had(t).Some?
    ensures !c.Crowded() && t == c.Gap() ==> c.Had(t) == None
    ensures c.Gets(t) == if t > c.Gap() then c.Had(t) else c.Had(t - 1)
  {
    hide NumberedName, Lookup;
    var s := SlotsOf(c.files, c.max);
    if 1 <= t < c.max {
      assert s[t - 1] == c.Had(t);
    }
  }

  /** The log of slot t is still to be visited when i entries are left. */
  ghost predicate Waiting(c: Call, i: nat, t: int)
    requires i <= |c.entries|
  {
    1 <= t < c.max && exists k :: 0 <= k < i && c.entries[k] == NumberedName(t)
  }

  /** The loop invariant, first part: the numbers still to be visited are those below `bound`,
      none of them exceeds `index`. */
  ghost predicate Numbers(c: Call, index: int, i: nat, bound: int)
    requires 2 <= c.max
  {
    && i <= |c.entries|
    && 0 <= index < c.max
    && ((index >= c.Gap() && bound == index + 1) || (index <= c.Gap() && bound == index))
    && forall t :: Waiting(c, i, t) <==> c.Had(t).Some? && t < bound
  }

  /** Second part: the slots above `index` are final, the others are as they were or vacated. */
  ghost predicate Slots(c: Call, w: Walk, bound: int) {
    forall t :: 1 <= t < c.max ==>
      Lookup(w.files, NumberedName(t)) ==
      if t > w.index then c.Gets(t) else if t < bound then c.Had(t) else None
  }

  /** Third part: no other file is touched, and the current log is noticed. */
  ghost predicate Others(c: Call, w: Walk, i: nat) {
    && i <= |c.entries|
    && (forall name :: !IsSlotName(name, c.max) ==> Lookup(w.files, name) == Lookup(c.files, name))
    && (w.foundCurrent <==>
          exists k :: i <= k < |c.entries| && c.entries[k] == CurrentName(c.program))
  }

  lemma InvariantAtStart(c: Call)
    requires c.Valid()
    ensures Numbers(c, c.max - 1, |c.entries|, c.max)
    ensures Slots(c, Walk(c.files, c.max - 1, false), c.max)
    ensures Others(c, Walk(c.files, c.max - 1, false), |c.entries|)
  {
    assert c.max >= 2;
    GapSplits(c, 1);
    hide NumberedName, CurrentName, Waiting, Call.Gap, Call.Valid;
    forall t
      ensures Waiting(c, |c.entries|, t) <==> c.Had(t).Some? && t < c.max
    {
      AllWait(c, t);
    }
  }

  /** At first every log that is there waits. */
  lemma AllWait(c: Call, t: int)
    requires c.Valid()
    ensures Waiting(c, |c.entries|, t) <==> c.Had(t).Some? && t < c.max
  {
    if 1 <= t < c.max {
      NumberedNameDigits(t);
      hide NumberedName, Selected;
      assert NumberedName(t) in c.entries <==> NumberedName(t) in c.files;
    }
  }

  /** The last entry not yet visited carries the largest number not yet visited. */
  lemma LargestIsLast(c: Call, i: nat, n: nat)
    requires c.Ready(i) && 0 < i
    requires 1 <= n < c.max && c.entries[i - 1] == NumberedName(n)
    ensures Waiting(c, i, n)
    ensures forall t :: Waiting(c, i, t) ==> t <= n
    ensures forall t :: Waiting(c, i - 1, t) <==> Waiting(c, i, t) && t < n
  {
    hide NumberedName, Waiting;
    assert Waiting(c, i, n) by { WaitingAt(c, i, i - 1, n); }
    forall t | Waiting(c, i, t)
      ensures t <= n && (Waiting(c, i - 1, t) <==> t < n)
    {
      WaitingBehind(c, i, n, t);
    }
    forall t | Waiting(c, i - 1, t)
      ensures Waiting(c, i, t)
    {
      WaitingLonger(c, i, t);
    }
  }

  lemma WaitingAt(c: Call, i: nat, k: nat, t: int)
    requires k < i <= |c.entries| && 1 <= t < c.max && c.entries[k] == NumberedName(t)
    ensures Waiting(c, i, t)
  {
  }

  lemma WaitingLonger(c: Call, i: nat, t: int)
    requires 0 < i <= |c.entries| && Waiting(c, i - 1, t)
    ensures Waiting(c, i, t)
  {
  }

  /** A waiting number is at most the last one, and the last one does not wait twice. */
  lemma WaitingBehind(c: Call, i: nat, n: nat, t: int)
    requires c.Ready(i) && 0 < i <= |c.entries|
    requires 1 <= n < c.max && c.entries[i - 1] == NumberedName(n) && Waiting(c, i, t)
    ensures t <= n && (Waiting(c, i - 1, t) <==> t < n)
  {
    hide NumberedName, Call.Ready;
    var k :| 0 <= k < i && c.entries[k] == NumberedName(t);
    NumbersInOrder(c, i, k, i - 1, t, n);
    if k < i - 1 {
      WaitingAt(c, i - 1, k, t);
    } else {
      NumberedNameInjective(t, n);
      if Waiting(c, i - 1, t) {
        var l :| 0 <= l < i - 1 && c.entries[l] == NumberedName(t);
        NumbersInOrder(c, i, l, i - 1, t, n);
      }
    }
  }

  /** Of two numbered entries the later one has the larger number. */
  lemma NumbersInOrder(c: Call, i: nat, j: nat, k: nat, m: nat, n: nat)
    requires c.Ready(i) && j <= k < i
    requires 1 <= m < c.max && c.entries[j] == NumberedName(m)
    requires 1 <= n < c.max && c.entries[k] == NumberedName(n)
    ensures if j < k then m < n else m == n
  {
    hide NumberedName, CurrentName, NumberOf, IsSlotName;
    if j < k {
      OneDigitOrder(m, n);
    } else {
      NumberedNameInjective(m, n);
    }
  }

  /** An entry that is no numbered log leaves the numbers as they are. */
  lemma NumbersUnchanged(c: Call, index: int, i: nat, bound: int)
    requires 2 <= c.max && 0 < i <= |c.entries| && Numbers(c, index, i, bound)
    requires !IsSlotName(c.entries[i - 1], c.max)
    ensures Numbers(c, index, i - 1, bound)
  {
    hide NumberedName, Call.Had, Call.Gap, Waiting;
    forall t
      ensures Waiting(c, i - 1, t) <==> Waiting(c, i, t)
    {
      WaitingUnchanged(c, i, t);
    }
  }

  lemma WaitingUnchanged(c: Call, i: nat, t: int)
    requires 0 < i <= |c.entries| && !IsSlotName(c.entries[i - 1], c.max)
    ensures Waiting(c, i - 1, t) <==> Waiting(c, i, t)
  {
    hide NumberedName;
    if Waiting(c, i, t) {
      var k :| 0 <= k < i && c.entries[k] == NumberedName(t);
      assert k != i - 1;
      assert 0 <= k < i - 1 && c.entries[k] == NumberedName(t);
    }
  }

  /** The visit of a numbered log either evicts the last slot of a crowded directory, or finds
      the top slots packed and leaves the log where it is, or moves it up by one. */
  lemma PlaceCases(c: Call, w: Walk, i: nat, bound: int, n: nat)
    requires c.Ready(i) && 0 < i
    requires 1 <= n < c.max && c.entries[i - 1] == NumberedName(n)
    requires Numbers(c, w.index, i, bound)
    ensures n <= w.index && n < bound && c.Had(n).Some?
    ensures n == c.max - 1 && c.Crowded() ==> c.Gap() == n && w.index == n
    ensures !(n == c.max - 1 && c.Crowded()) && n == w.index ==> n > c.Gap()
    ensures n < w.index ==> n < c.Gap()
    ensures forall t :: n < t < bound ==> c.Had(t) == None
  {
    LargestIsLast(c, i, n);
    GapSplits(c, w.index);
    GapSplits(c, n);
  }

  /** No rename lands on another log: the target is the log itself or a free name. */
  lemma PlaceTargetIsFree(c: Call, w: Walk, i: nat, bound: int, n: nat)
    requires c.Ready(i) && 0 < i
    requires 1 <= n < c.max && c.entries[i - 1] == NumberedName(n)
    requires Numbers(c, w.index, i, bound) && Slots(c, w, bound)
    ensures var target := if n < w.index then n + 1 else w.index;
            1 <= target < c.max && (target == n || NumberedName(target) !in w.files)
  {
    PlaceCases(c, w, i, bound, n);
    hide NumberedName, Call.Gets, Call.Gap, Call.Had, Call.Ready;
    var target := if n < w.index then n + 1 else w.index;
    assert target != n ==> Lookup(w.files, NumberedName(target)) == None;
  }

  lemma PlaceKeepsNumbers(c: Call, w: Walk, i: nat, bound: int, n: nat)
    requires c.Ready(i) && 0 < i
    requires 1 <= n < c.max && c.entries[i - 1] == NumberedName(n)
    requires Numbers(c, w.index, i, bound)
    ensures Numbers(c, Place(w, c.entries[i - 1], n, |c.entries|, c.max).index, i - 1, n)
  {
    PlaceCases(c, w, i, bound, n);
    LargestIsLast(c, i, n);
  }

  /** What deletion and renaming do to one name. */
  lemma PlaceLookup(w: Walk, source: string, n: nat, count: nat, max: nat, name: string)
    requires 1 <= max && source in w.files
    ensures var evicted := n >= max - 1 && count >= max;
            var target := NumberedName(if n < w.index then n + 1 else w.index);
            Lookup(Place(w, source, n, count, max).files, name) ==
            if !evicted && name == target then Lookup(w.files, source)
            else if name == source then None
            else Lookup(w.files, name)
  {
  }

  lemma PlaceKeepsSlots(c: Call, w: Walk, i: nat, bound: int, n: nat)
    requires c.Ready(i) && 0 < i
    requires 1 <= n < c.max && c.entries[i - 1] == NumberedName(n)
    requires Numbers(c, w.index, i, bound) && Slots(c, w, bound)
    ensures Slots(c, Place(w, c.entries[i - 1], n, |c.entries|, c.max), n)
  {
    hide NumberedName, Call.Gets, Call.Gap, Call.Ready;
    PlaceCases(c, w, i, bound, n);
    var w' := Place(w, NumberedName(n), n, |c.entries|, c.max);
    assert Lookup(w.files, NumberedName(n)) == c.Had(n);
    forall t | 1 <= t < c.max
      ensures Lookup(w'.files, NumberedName(t)) ==
              if t > w'.index then c.Gets(t) else if t < n then c.Had(t) else None
    {
      PlaceLookup(w, NumberedName(n), n, |c.entries|, c.max, NumberedName(t));
      SlotAfterPlace(c, w, i, bound, n, t);
    }
  }

  /** The arithmetic of the slots: which slots are final after log n was visited. */
  lemma SlotAfterPlace(c: Call, w: Walk, i: nat, bound: int, n: nat, t: nat)
    requires c.Ready(i) && 0 < i
    requires 1 <= n < c.max && c.entries[i - 1] == NumberedName(n)
    requires Numbers(c, w.index, i, bound) && Slots(c, w, bound) && 1 <= t < c.max
    ensures var evicted := n >= c.max - 1 && |c.entries| >= c.max;
            var index := if n < w.index then n + 1 else w.index;
            var index' := if evicted then index else index - 1;
            var now := if !evicted && NumberedName(t) == NumberedName(index) then c.Had(n)
                       else if NumberedName(t) == NumberedName(n) then None
                       else Lookup(w.files, NumberedName(t));
            now == if t > index' then c.Gets(t) else if t < n then c.Had(t) else None
  {
    hide NumberedName, Call.Had, Call.Gets, Call.Gap, Call.Ready, Lookup;
    PlaceCases(c, w, i, bound, n);
    GapSplits(c, t);
    DistinctSlots(t, n);
    DistinctSlots(t, if n < w.index then n + 1 else w.index);
  }

  lemma DistinctSlots(m: nat, n: nat)
    ensures m != n ==> NumberedName(m) != NumberedName(n)
  {
    if NumberedName(m) == NumberedName(n) {
      NumberedNameInjective(m, n);
    }
  }

  lemma PlaceKeepsOthers(c: Call, w: Walk, i: nat, bound: int, n: nat)
    requires c.Ready(i) && 0 < i
    requires 1 <= n < c.max && c.entries[i - 1] == NumberedName(n)
    requires Numbers(c, w.index, i, bound) && Slots(c, w, bound) && Others(c, w, i)
    ensures Others(c, Place(w, c.entries[i - 1], n, |c.entries|, c.max), i - 1)
  {
    PlaceCases(c, w, i, bound, n);
    CurrentIsNotNumbered(c.program, n);
    assert Lookup(w.files, NumberedName(n)) == c.Had(n);
    OthersAfterPlace(c, w, i, n);
  }

  lemma OthersAfterPlace(c: Call, w: Walk, i: nat, n: nat)
    requires 0 < i <= |c.entries| && 1 <= n <= w.index < c.max && Others(c, w, i)
    requires c.entries[i - 1] == NumberedName(n) != CurrentName(c.program)
    requires NumberedName(n) in w.files
    ensures Others(c, Place(w, c.entries[i - 1], n, |c.entries|, c.max), i - 1)
  {
    var w' := Place(w, c.entries[i - 1], n, |c.entries|, c.max);
    var target := if n < w.index then n + 1 else w.index;
    forall name | !IsSlotName(name, c.max)
      ensures Lookup(w'.files, name) == Lookup(c.files, name)
    {
      PlaceLookup(w, NumberedName(n), n, |c.entries|, c.max, name);
      assert name != NumberedName(n) && name != NumberedName(target);
    }
  }

  /** An entry that is no numbered log changes no file. */
  lemma OtherEntryChangesNoFile(c: Call, w: Walk, i: nat)
    requires c.Ready(i) && 0 < i && Others(c, w, i)
    requires !IsSlotName(c.entries[i - 1], c.max)
    ensures var w' := Visit(w, c.entries[i - 1], c.program, |c.entries|, c.max);
            w'.files == w.files && w'.index == w.index && Others(c, w', i - 1)
  {
    hide NumberedName, CurrentName, NumberOf, Place, Call.Had, Call.Gets, Call.Gap, Lookup, Precedes;
  }

  /** A numbered log is the current log of no program and is placed by its own number. */
  lemma NumberedEntryIsPlaced(c: Call, w: Walk, n: nat)
    requires |c.program| == |PREFIX| + 1 && 1 <= n < c.max <= UINT_RANGE
    ensures Visit(w, NumberedName(n), c.program, |c.entries|, c.max)
         == Place(w, NumberedName(n), n, |c.entries|, c.max)
  {
    NumberOfNumberedName(c.program, n);
    CurrentIsNotNumbered(c.program, n);
  }

  /** One iteration, whatever the entry is. */
  lemma VisitKeepsInvariant(c: Call, w: Walk, i: nat, bound: int) returns (bound': int)
    requires c.Ready(i) && 0 < i
    requires Numbers(c, w.index, i, bound) && Slots(c, w, bound) && Others(c, w, i)
    ensures var w' := Visit(w, c.entries[i - 1], c.program, |c.entries|, c.max);
            Numbers(c, w'.index, i - 1, bound') && Slots(c, w', bound') && Others(c, w', i - 1)
  {
    hide NumberedName, Visit, Place, Call.Gets, Call.Gap, Call.Had, Lookup, Others, Numbers;
    if n :| 1 <= n < c.max && c.entries[i - 1] == NumberedName(n) {
      NumberedEntryIsPlaced(c, w, n);
      PlaceKeepsNumbers(c, w, i, bound, n);
      PlaceKeepsSlots(c, w, i, bound, n);
      PlaceKeepsOthers(c, w, i, bound, n);
      bound' := n;
    } else {
      OtherEntryChangesNoFile(c, w, i);
      NumbersUnchanged(c, w.index, i, bound);
      bound' := bound;
    }
  }

  /** The walk when i entries are left. */
  function Before(c: Call, i: nat): Walk
    requires i <= |c.entries| && 1 <= c.max
    decreases |c.entries| - i
  {
    if i == |c.entries| then Walk(c.files, c.max - 1, false)
    else Visit(Before(c, i + 1), c.entries[i], c.program, |c.entries|, c.max)
  }

  lemma {:induction false} BeforeIsOnTheWay(c: Call, i: nat)
    requires i <= |c.entries| && 1 <= c.max
    ensures WalkBack(Walk(c.files, c.max - 1, false), c.entries, |c.entries|, c.program, c.max)
         == WalkBack(Before(c, i), c.entries, i, c.program, c.max)
    decreases |c.entries| - i
  {
    hide Visit;
    if i < |c.entries| {
      BeforeIsOnTheWay(c, i + 1);
    }
  }

  /** The invariant holds at every point of the walk. */
  lemma {:induction false} WalkKeepsInvariant(c: Call, i: nat) returns (bound: int)
    requires c.Valid() && i <= |c.entries|
    ensures var w := Before(c, i);
            Numbers(c, w.index, i, bound) && Slots(c, w, bound) && Others(c, w, i)
    decreases |c.entries| - i
  {
    hide NumberedName, CurrentName, Visit, Numbers, Slots, Others;
    if i == |c.entries| {
      InvariantAtStart(c);
      bound := c.max;
    } else {
      bound := WalkKeepsInvariant(c, i + 1);
      ReadyAtStart(c);
      ReadyStaysReady(c, |c.entries|, i + 1);
      hide Call.Ready;
      bound := VisitKeepsInvariant(c, Before(c, i + 1), i + 1, bound);
    }
  }

  /** The name an iteration renames its entry to, if it renames it. */
  function TargetOf(w: Walk, name: string, program: string, count: nat, max: nat): Option<string>
    requires 1 <= max
  {
    var number := NumberOf(program, name);
    if name == CurrentName(program) || number == None then None
    else if number.value >= max - 1 && count >= max then None
    else Some(NumberedName(if number.value < w.index then number.value + 1 else w.index))
  }

  /** An iteration renames its entry, leaves the files alone, or deletes the log of the last slot of
      a crowded directory. */
  lemma VisitMoves(c: Call, w: Walk, i: nat)
    requires c.Valid() && 0 < i <= |c.entries|
    ensures var name := c.entries[i - 1];
            var target := TargetOf(w, name, c.program, |c.entries|, c.max);
            var files := Visit(w, name, c.program, |c.entries|, c.max).files;
            if target.Some? then files == Renamed(w.files, name, target.value)
            else files == w.files || (c.Crowded() && name == NumberedName(c.max - 1) && files == w.files - {name})
  {
    hide NumberedName, CurrentName, NumberOf;
    var name := c.entries[i - 1];
    assert name in c.entries;
    if n :| 1 <= n < c.max && name == NumberedName(n) {
      NumberOfNumberedName(c.program, n);
      CurrentIsNotNumbered(c.program, n);
    }
  }

  /** No rename of a call lands on another log: at every point of the walk the entry is there, and
      its target is the entry itself or a free name; and when the current log is moved in the end,
      slot 1 is free. */
  lemma NoRenameCollides(c: Call, i: nat)
    requires c.Valid() && i <= |c.entries|
    ensures var w := Before(c, i);
            if i > 0 then
              var name := c.entries[i - 1];
              var target := TargetOf(w, name, c.program, |c.entries|, c.max);
              name in w.files && (target.Some? ==> target.value == name || target.value !in w.files)
            else
              w.foundCurrent ==> CurrentName(c.program) in w.files && NumberedName(1) !in w.files
  {
    var bound := WalkKeepsInvariant(c, i);
    var w := Before(c, i);
    if i > 0 {
      EntryIsThere(c, i);
      TargetIsFree(c, w, i, bound);
    } else {
      hide NumberedName, CurrentName;
      CurrentIsListed(c, w);
      if w.foundCurrent {
        hide Call.Valid;
        assert Lookup(w.files, CurrentName(c.program)) == Lookup(c.files, CurrentName(c.program)) by {
          CurrentIsOther(c);
        }
        SlotOneIsFree(c);
        WalkResult(c);
        assert Lookup(w.files, NumberedName(1)) == c.Gets(1) by { BeforeIsOnTheWay(c, 0); }
      }
    }
  }

  lemma CurrentIsOther(c: Call)
    requires c.Valid()
    ensures !IsSlotName(CurrentName(c.program), c.max)
  {
    forall n | 1 <= n < c.max
      ensures CurrentName(c.program) != NumberedName(n)
    {
      CurrentIsNotNumbered(c.program, n);
    }
  }

  lemma EntryIsThere(c: Call, i: nat)
    requires c.Valid() && 0 < i <= |c.entries|
    ensures c.entries[i - 1] in Before(c, i).files
  {
    PendingAt(c, i);
  }

  lemma {:induction false} PendingAt(c: Call, i: nat)
    requires c.Valid() && i <= |c.entries|
    ensures Pending(Before(c, i), c.entries, i, c.program)
    decreases |c.entries| - i
  {
    hide Visit, NumberedName, CurrentName;
    if i == |c.entries| {
      ListingDistinct(c.entries, c.files);
    } else {
      PendingAt(c, i + 1);
      VisitKeepsPending(Before(c, i + 1), c.entries, i, c.program, c.max);
    }
  }

  lemma TargetIsFree(c: Call, w: Walk, i: nat, bound: int)
    requires c.Valid() && 0 < i <= |c.entries|
    requires Numbers(c, w.index, i, bound) && Slots(c, w, bound)
    ensures var name := c.entries[i - 1];
            var target := TargetOf(w, name, c.program, |c.entries|, c.max);
            target.Some? ==> target.value == name || target.value !in w.files
  {
    hide NumberedName, CurrentName, NumberOf, Numbers, Slots;
    var name := c.entries[i - 1];
    assert name in c.entries;
    if n :| 1 <= n < c.max && name == NumberedName(n) {
      NumberOfNumberedName(c.program, n);
      PlaceTargetIsFree(c, w, i, bound, n);
    }
  }

  /** The result of the walk: all slots are final. */
  lemma WalkResult(c: Call)
    requires c.Valid()
    ensures var w := WalkBack(Walk(c.files, c.max - 1, false), c.entries, |c.entries|, c.program, c.max);
            && (forall t :: 1 <= t < c.max ==> Lookup(w.files, NumberedName(t)) == c.Gets(t))
            && Others(c, w, 0)
  {
    ReadyAtStart(c);
    InvariantAtStart(c);
    RestOfWalk(c, Walk(c.files, c.max - 1, false), |c.entries|, c.max);
  }

  /** The same for the rest of a walk that has kept the invariant so far. */
  lemma {:induction false} RestOfWalk(c: Call, w: Walk, i: nat, bound: int)
    requires c.Ready(i) && Numbers(c, w.index, i, bound) && Slots(c, w, bound) && Others(c, w, i)
    ensures var w' := WalkBack(w, c.entries, i, c.program, c.max);
            && (forall t :: 1 <= t < c.max ==> Lookup(w'.files, NumberedName(t)) == c.Gets(t))
            && Others(c, w', 0)
    decreases i
  {
    hide NumberedName, CurrentName, Visit, Others, Precedes, NumberOf, IsSlotName;
    if i == 0 {
      forall t | 1 <= t < c.max
        ensures Lookup(w.files, NumberedName(t)) == c.Gets(t)
      {
        assert !Waiting(c, 0, t) && !Waiting(c, 0, t - 1);
        GapSplits(c, t);
      }
    } else {
      hide Numbers, Slots;
      var bound' := VisitKeepsInvariant(c, w, i, bound);
      ReadyStaysReady(c, i, i - 1);
      RestOfWalk(c, Visit(w, c.entries[i - 1], c.program, |c.entries|, c.max), i - 1, bound');
    }
  }

  lemma NothingLeft(c: Call, w: Walk)
    requires 1 <= c.max
    ensures WalkBack(w, c.entries, 0, c.program, c.max) == w
  {
  }

  function SlotNames(m: nat): set<string> {
    if m <= 1 then {} else SlotNames(m - 1) + {NumberedName(m - 1)}
  }

  lemma SlotNameStep(name: string, m: nat)
    requires 1 < m
    ensures IsSlotName(name, m) <==> IsSlotName(name, m - 1) || name == NumberedName(m - 1)
  {
    hide NumberedName;
    if n :| 1 <= n < m && name == NumberedName(n) {
      assert n < m - 1 ==> IsSlotName(name, m - 1);
    }
    if n :| 1 <= n < m - 1 && name == NumberedName(n) {
      assert 1 <= n < m && name == NumberedName(n);
    }
    if name == NumberedName(m - 1) {
      assert 1 <= m - 1 < m;
    }
  }

  lemma NextSlotNameIsNew(m: nat)
    requires 1 < m
    ensures !IsSlotName(NumberedName(m - 1), m - 1)
  {
    if n :| 1 <= n < m - 1 && NumberedName(m - 1) == NumberedName(n) {
      NumberedNameInjective(m - 1, n);
    }
  }

  lemma {:induction false} SlotNamesCount(m: nat)
    requires 1 <= m
    ensures |SlotNames(m)| == m - 1
    ensures forall name :: name in SlotNames(m) <==> IsSlotName(name, m)
  {
    if m > 1 {
      hide NumberedName, IsSlotName;
      SlotNamesCount(m - 1);
      NextSlotNameIsNew(m);
      forall name
        ensures IsSlotName(name, m) <==> IsSlotName(name, m - 1) || name == NumberedName(m - 1)
      {
        SlotNameStep(name, m);
      }
    }
  }

  lemma {:induction false} ElementsBound(s: seq<string>)
    ensures |set x | x in s| <= |s|
  {
    if s != [] {
      ElementsBound(s[1..]);
      assert (set x | x in s) == (set x | x in s[1..]) + {s[0]};
    }
  }

  lemma ListedNames(c: Call)
    requires c.Valid() && c.SeesCurrent()
    requires forall t :: 1 <= t < c.max ==> c.Had(t).Some?
    ensures SlotNames(c.max) + {CurrentName(c.program)} <= set x | x in c.entries
    ensures CurrentName(c.program) !in SlotNames(c.max)
  {
    CurrentIsSelected(c.program);
    SlotNamesCount(c.max);
    forall n | 1 <= n < c.max
      ensures NumberedName(n) in c.entries && NumberedName(n) != CurrentName(c.program)
    {
      assert c.Had(n).Some?;
      NumberedNameDigits(n);
      CurrentIsNotNumbered(c.program, n);
    }
  }

  /** The pigeonhole argument: with a current log in a directory that is not crowded, some slot
      is free, so slot 1 is free after the walk and the move of the current log lands on nothing. */
  lemma SlotOneIsFree(c: Call)
    requires c.Valid() && c.SeesCurrent()
    ensures c.Gets(1) == None
  {
    hide NumberedName, CurrentName;
    GapSplits(c, 1);
    if c.Gap() == 0 {
      forall t | 1 <= t < c.max
        ensures c.Had(t).Some?
      {
        GapSplits(c, t);
      }
      ListedNames(c);
      SlotNamesCount(c.max);
      SubsetBound(SlotNames(c.max) + {CurrentName(c.program)}, set x | x in c.entries);
      ElementsBound(c.entries);
    }
  }

  lemma SubsetBound(a: set<string>, b: set<string>)
    requires a <= b
    ensures |a| <= |b|
  {
    assert b == a + (b - a);
  }

  /** The slots are those of one rotation with the current log, if one is listed, in slot 1, which
      was free for it; the current name is gone; every other file is untouched. */
  ghost predicate ShiftedInto(c: Call, after: Files)
    requires 2 <= c.max
  {
    var current := CurrentName(c.program);
    var slots := Rotate(SlotsOf(c.files, c.max), c.Crowded());
    && (c.SeesCurrent() ==> slots[0] == None)
    && SlotsOf(after, c.max) == (if c.SeesCurrent() then slots[0 := Some(c.files[current])] else slots)
    && current !in after
    && forall name :: name != current && !IsSlotName(name, c.max) ==>
         Lookup(after, name) == Lookup(c.files, name)
  }

  /** The main result: what one call does to an orderly directory with numbers of one digit, gaps and
      files without a number allowed. A program whose name lacks the prefix rotates the numbered logs
      as any other; its own log is not listed and just deleted. */
  lemma RotationShiftsSlots(c: Call)
    requires c.Valid()
    ensures ShiftedInto(c, Rotated(c.files, c.entries, c.program, c.max))
  {
    var w := WalkBack(Walk(c.files, c.max - 1, false), c.entries, |c.entries|, c.program, c.max);
    WalkResult(c);
    CurrentIsListed(c, w);
    forall n | 1 <= n < c.max
      ensures CurrentName(c.program) != NumberedName(n)
    {
      CurrentIsNotNumbered(c.program, n);
    }
    if c.SeesCurrent() {
      SlotOneIsFree(c);
    }
    FinishMovesCurrent(c, w);
  }

  lemma CurrentIsListed(c: Call, w: Walk)
    requires c.Valid() && Others(c, w, 0)
    ensures w.foundCurrent <==> c.SeesCurrent()
  {
    CurrentIsSelected(c.program);
    hide Selected;
    assert CurrentName(c.program) in c.entries <==> c.SeesCurrent();
  }

  /** What the final move and the write test do to one name. */
  lemma FinishLookup(w: Walk, program: string, name: string)
    requires w.foundCurrent ==> CurrentName(program) in w.files
    ensures Lookup(Finish(w, program), name) ==
            if name == CurrentName(program) then None
            else if w.foundCurrent && name == NumberedName(1) then Lookup(w.files, CurrentName(program))
            else Lookup(w.files, name)
  {
  }

  lemma FinishMovesCurrent(c: Call, w: Walk)
    requires 2 <= c.max && Others(c, w, 0)
    requires w.foundCurrent <==> c.SeesCurrent()
    requires forall t :: 1 <= t < c.max ==>
      Lookup(w.files, NumberedName(t)) == c.Gets(t) && NumberedName(t) != CurrentName(c.program)
    requires c.SeesCurrent() ==> c.Gets(1) == None
    ensures ShiftedInto(c, Finish(w, c.program))
  {
    hide NumberedName, CurrentName, Finish, Rotate;
    var after, current := Finish(w, c.program), CurrentName(c.program);
    assert Lookup(w.files, current) == Lookup(c.files, current);
    forall name
      ensures Lookup(after, name) ==
              if name == current then None
              else if w.foundCurrent && name == NumberedName(1) then Lookup(w.files, current)
              else Lookup(w.files, name)
    {
      FinishLookup(w, c.program, name);
    }
    assert IsSlotName(NumberedName(1), c.max);
    assert current !in after;
    var slots := Rotate(SlotsOf(c.files, c.max), c.Crowded());
    var slots' := if c.SeesCurrent() then slots[0 := Some(c.files[current])] else slots;
    forall k | 0 <= k < c.max - 1
      ensures SlotsOf(after, c.max)[k] == slots'[k]
    {
      DistinctSlots(k + 1, 1);
      assert slots[k] == c.Gets(k + 1);
    }
  }
}

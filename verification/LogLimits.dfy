/** When rotation preserves the logs and when it does not: repeated calls without a current log,
    the exact condition on the program name and on the maximum number of files under which one call
    preserves the logs, and what the callers in the repository get. */
module LogLimits {
  import opened Options
  import opened Decimal
  import opened LogNames
  import opened LogSlots
  import opened LogRotation
  import opened LogMeaning
  import opened LogHistory

  // ---- Every directory has a listing. ----

  lemma {:induction false} InsertSorted(x: string, s: seq<string>) returns (r: seq<string>)
    requires x !in s
    requires forall i, j :: 0 <= i < j < |s| ==> Precedes(s[i], s[j])
    ensures forall i, j :: 0 <= i < j < |r| ==> Precedes(r[i], r[j])
    ensures forall name :: name in r <==> name == x || name in s
  {
    if s == [] {
      r := [x];
    } else {
      PrecedesTotal(x, s[0]);
      if Precedes(x, s[0]) {
        forall j | 0 <= j < |s|
          ensures Precedes(x, s[j])
        {
          if j > 0 {
            PrecedesTransitive(x, s[0], s[j]);
          }
        }
        r := [x] + s;
      } else {
        var t := InsertSorted(x, s[1..]);
        forall j | 0 <= j < |t|
          ensures Precedes(s[0], t[j])
        {
          assert t[j] in t;
          assert t[j] == x || t[j] in s[1..];
        }
        r := [s[0]] + t;
      }
    }
  }

  lemma {:induction false} SortedNames(names: set<string>) returns (s: seq<string>)
    ensures forall i, j :: 0 <= i < j < |s| ==> Precedes(s[i], s[j])
    ensures forall name :: name in s <==> name in names
  {
    if names == {} {
      s := [];
    } else {
      var x :| x in names;
      s := SortedNames(names - {x});
      s := InsertSorted(x, s);
    }
  }

  lemma ListingExists(files: Files)
    ensures exists entries :: IsListing(entries, files)
  {
    var entries := SortedNames(set name | name in files && Selected(name));
    assert IsListing(entries, files);
  }

  // ---- Without a current log. ----

  lemma {:induction false} DistinctCount(s: seq<string>, names: set<string>)
    requires forall i, j :: 0 <= i < j < |s| ==> s[i] != s[j]
    requires forall i :: 0 <= i < |s| ==> s[i] in names
    ensures |s| <= |names|
  {
    if s != [] {
      DistinctCount(s[1..], names - {s[0]});
    }
  }

  /** Without a current log a tidy directory is never crowded, so nothing is deleted. */
  lemma IdleIsNotCrowded(c: Call)
    requires c.Valid() && Tidy(c.files, c.program, c.max) && CurrentName(c.program) !in c.files
    ensures !c.Crowded()
  {
    SlotNamesCount(c.max);
    ListingDistinct(c.entries, c.files);
    forall i | 0 <= i < |c.entries|
      ensures c.entries[i] in SlotNames(c.max)
    {
      assert c.entries[i] in c.files && Selected(c.entries[i]);
    }
    DistinctCount(c.entries, SlotNames(c.max));
  }

  /** One call after which no log is written. */
  ghost predicate IdleCall(before: Files, after: Files, program: string, max: nat)
    requires 1 <= max
  {
    exists entries :: IsListing(entries, before) && after == Rotated(before, entries, program, max)
  }

  ghost predicate IdleRun(trace: seq<Files>, program: string, max: nat)
    requires 1 <= max
  {
    trace != [] && forall i :: 0 <= i < |trace| - 1 ==> IdleCall(trace[i], trace[i + 1], program, max)
  }

  /** Repeated calls without a current log delete nothing, keep the age order, and only pack the
      logs towards the last slot; after as many calls as there are slots nothing changes. */
  lemma IdleRunPacks(trace: seq<Files>, program: string, max: nat)
    requires Aligned(program) && 2 <= max <= 10 && IdleRun(trace, program, max)
    requires Tidy(trace[0], program, max) && CurrentName(program) !in trace[0]
    ensures var last := SlotsOf(trace[|trace| - 1], max);
            && Contents(last) == Contents(SlotsOf(trace[0], max))
            && (|trace| >= max ==>
                  PackedFrom(last, |last| - |Contents(last)|) && Rotate(last, false) == last)
  {
    IdleRunRotates(trace, program, max);
    var s := SlotsOf(trace[0], max);
    RotateManyKeepsContents(s, |trace| - 1);
    if |trace| >= max {
      RepeatedRotationPacks(s, |trace| - 1);
    }
  }

  lemma {:induction false} IdleRunRotates(trace: seq<Files>, program: string, max: nat)
    requires Aligned(program) && 2 <= max <= 10 && IdleRun(trace, program, max)
    requires Tidy(trace[0], program, max) && CurrentName(program) !in trace[0]
    ensures SlotsOf(trace[|trace| - 1], max) == RotateMany(SlotsOf(trace[0], max), |trace| - 1)
  {
    if |trace| > 1 {
      IdleCallRotates(trace[0], trace[1], program, max);
      IdleRunTail(trace, program, max);
      IdleRunRotates(trace[1..], program, max);
    }
  }

  lemma IdleRunTail(trace: seq<Files>, program: string, max: nat)
    requires 1 <= max && |trace| > 1 && IdleRun(trace, program, max)
    ensures IdleRun(trace[1..], program, max)
  {
    var tail := trace[1..];
    forall i | 0 <= i < |tail| - 1
      ensures IdleCall(tail[i], tail[i + 1], program, max)
    {
      assert IdleCall(trace[i + 1], trace[i + 1 + 1], program, max);
    }
  }

  lemma IdleCallRotates(before: Files, after: Files, program: string, max: nat)
    requires Aligned(program) && 2 <= max <= 10 && IdleCall(before, after, program, max)
    requires Tidy(before, program, max) && CurrentName(program) !in before
    ensures Tidy(after, program, max) && CurrentName(program) !in after
    ensures SlotsOf(after, max) == Rotate(SlotsOf(before, max), false)
  {
    var entries :| IsListing(entries, before) && after == Rotated(before, entries, program, max);
    var c := Call(before, entries, program, max);
    IdleIsNotCrowded(c);
    RotationShiftsSlots(c);
    ShiftedIsTidy(c, after);
  }

  lemma ShiftedIsTidy(c: Call, after: Files)
    requires c.Valid() && Tidy(c.files, c.program, c.max) && ShiftedInto(c, after)
    ensures Tidy(after, c.program, c.max)
  {
    hide NumberedName, CurrentName, Selected;
    forall name | name in after && Selected(name) && name != CurrentName(c.program)
      ensures IsSlotName(name, c.max)
    {
      assert IsSlotName(name, c.max) || Lookup(after, name) == Lookup(c.files, name);
    }
  }

  // ---- The exact condition. ----

  /** Every content is still there, except that a crowded directory may give up its last slot. */
  ghost predicate NothingLost(before: Files, after: Files, max: nat, crowded: bool)
    requires 1 <= max
  {
    forall name :: name in before && !(crowded && name == NumberedName(max - 1)) ==>
      exists name' :: name' in after && after[name'] == before[name]
  }

  /** Rotation under this program name and this maximum loses nothing in any tidy directory. */
  ghost predicate Preserving(program: string, max: nat)
    requires 1 <= max
  {
    forall files: Files, entries :: Tidy(files, program, max) && IsListing(entries, files) ==>
      NothingLost(files, Rotated(files, entries, program, max), max, |entries| >= max)
  }

  /** The condition a caller can check: with a program name one character longer than the prefix
      it starts with, numbers must have one digit; with any other name that starts with the prefix
      there may be no second slot and the current log must not carry the name of slot 1. */
  predicate Suitable(program: string, max: nat) {
    && PREFIX <= program
    && if |program| == |PREFIX| + 1 then max <= 10 else max <= 2 && program != PREFIX + "_1"
  }

  /** Rotation preserves the logs of every tidy directory if and only if its arguments are
      suitable. */
  lemma PreservingExactly(program: string, max: nat)
    requires program != "" && 1 <= max <= UINT_RANGE
    ensures Preserving(program, max) <==> Suitable(program, max)
  {
    if Suitable(program, max) {
      forall files: Files, entries | Tidy(files, program, max) && IsListing(entries, files)
        ensures NothingLost(files, Rotated(files, entries, program, max), max, |entries| >= max)
      {
        if max == 1 {
          NoSlotPreserves(files, entries, program);
        } else if Aligned(program) {
          AlignedPreserves(Call(files, entries, program, max));
        } else {
          OneSlotPreserves(files, entries, program);
        }
      }
    } else if !(PREFIX <= program) {
      ForeignProgramLosesItsLog(program, max);
    } else if !Aligned(program) {
      MisalignedProgramLosesALog(program, max);
    } else {
      TwoDigitsLoseALog(program, max);
    }
  }

  lemma AlignedPreserves(c: Call)
    requires c.Valid() && PREFIX <= c.program && Tidy(c.files, c.program, c.max)
    ensures NothingLost(c.files, Rotated(c.files, c.entries, c.program, c.max), c.max, c.Crowded())
  {
    RotationShiftsSlots(c);
    var after := Rotated(c.files, c.entries, c.program, c.max);
    forall name | name in c.files && !(c.Crowded() && name == NumberedName(c.max - 1))
      ensures exists name' :: name' in after && after[name'] == c.files[name]
    {
      ContentSurvives(c, after, name);
    }
  }

  lemma ContentSurvives(c: Call, after: Files, name: string)
    requires 2 <= c.max && PREFIX <= c.program && ShiftedInto(c, after)
    requires name in c.files && !(c.Crowded() && name == NumberedName(c.max - 1))
    ensures exists name' :: name' in after && after[name'] == c.files[name]
  {
    hide NumberedName, CurrentName, ShiftedInto;
    if name == CurrentName(c.program) {
      CurrentSurvives(c, after);
    } else if n :| 1 <= n < c.max && name == NumberedName(n) {
      NumberedSurvives(c, after, n);
    } else {
      OtherSurvives(c, after, name);
    }
  }

  lemma SurvivesAs(files: Files, after: Files, name: string, name': string)
    requires name in files && Lookup(after, name') == Some(files[name])
    ensures exists name' :: name' in after && after[name'] == files[name]
  {
  }

  lemma CurrentSurvives(c: Call, after: Files)
    requires 2 <= c.max && ShiftedInto(c, after) && c.SeesCurrent()
    ensures exists name' :: name' in after && after[name'] == c.files[CurrentName(c.program)]
  {
    hide NumberedName, CurrentName, Rotate;
    assert SlotsOf(after, c.max)[0] == Some(c.files[CurrentName(c.program)]);
    SurvivesAs(c.files, after, CurrentName(c.program), NumberedName(1));
  }

  lemma NumberedSurvives(c: Call, after: Files, n: nat)
    requires 2 <= c.max && PREFIX <= c.program && ShiftedInto(c, after)
    requires 1 <= n < c.max && NumberedName(n) in c.files && !(c.Crowded() && n == c.max - 1)
    ensures exists name' :: name' in after && after[name'] == c.files[NumberedName(n)]
  {
    hide NumberedName, CurrentName, Rotate;
    var s, r := SlotsOf(c.files, c.max), Rotate(SlotsOf(c.files, c.max), c.Crowded());
    assert s[n - 1] == Some(c.files[NumberedName(n)]);
    RotateMovesByAtMostOne(s, c.Crowded(), n - 1);
    var k := if r[n - 1] == s[n - 1] then n - 1 else n;
    assert k > 0 || CurrentName(c.program) !in c.files;
    assert SlotsOf(after, c.max)[k] == r[k] == s[n - 1];
    SurvivesAs(c.files, after, NumberedName(n), NumberedName(k + 1));
  }

  lemma OtherSurvives(c: Call, after: Files, name: string)
    requires 2 <= c.max && ShiftedInto(c, after)
    requires name in c.files && name != CurrentName(c.program) && !IsSlotName(name, c.max)
    ensures exists name' :: name' in after && after[name'] == c.files[name]
  {
    hide NumberedName, CurrentName, Rotate, SlotsOf;
    assert Lookup(after, name) == Lookup(c.files, name);
    SurvivesAs(c.files, after, name, name);
  }

  /** How a single directory refutes preservation. */
  lemma Refutes(files: Files, entries: seq<string>, program: string, max: nat, name: string)
    requires 1 <= max && Tidy(files, program, max) && IsListing(entries, files)
    requires name in files && (|entries| < max || name != NumberedName(max - 1))
    requires var after := Rotated(files, entries, program, max);
             forall name' :: name' in after ==> after[name'] != files[name]
    ensures !Preserving(program, max)
  {
    assert !NothingLost(files, Rotated(files, entries, program, max), max, |entries| >= max);
  }

  /** A program whose name lacks the prefix never finds its own log in the listing; the write
      test then deletes it. */
  lemma ForeignProgramLosesItsLog(program: string, max: nat)
    requires 1 <= max && !(PREFIX <= program)
    ensures Rotated(map[CurrentName(program) := "x"], [], program, max) == map[]
    ensures !Preserving(program, max)
  {
    var current := CurrentName(program);
    var files: Files := map[current := "x"];
    CurrentIsSelected(program);
    Refutes(files, [], program, max, current);
  }

  /** The offset misses the digit of slot 1. */
  lemma MisalignedReadsNothing(program: string)
    requires PREFIX <= program && !Aligned(program)
    ensures NumberOf(program, NumberedName(1)) == None
  {
    var name := NumberedName(1);
    assert name == "net_server_1.log";
    if |program| <= |name| {
      var rest := name[|program|..];
      if |program| == 10 {
        assert rest == "_1.log";
      } else if |program| == 12 {
        assert rest == ".log";
      } else if |program| == 13 {
        assert rest == "log";
      } else if |program| == 14 {
        assert rest == "og";
      } else if |program| == 15 {
        assert rest == "g";
      } else {
        assert rest == "";
      }
    }
  }

  /** Entries that give no number leave the directory alone during the walk. */
  lemma {:induction false} BlindWalk(w: Walk, entries: seq<string>, i: nat, program: string, max: nat)
    requires 1 <= max && i <= |entries|
    requires forall k :: 0 <= k < i ==>
      entries[k] == CurrentName(program) || NumberOf(program, entries[k]) == None
    ensures WalkBack(w, entries, i, program, max)
         == w.(foundCurrent := w.foundCurrent || CurrentName(program) in entries[..i])
    decreases i
  {
    hide NumberOf, CurrentName;
    if i > 0 {
      var w' := Visit(w, entries[i - 1], program, |entries|, max);
      BlindWalk(w', entries, i - 1, program, max);
      assert entries[..i] == entries[..i - 1] + [entries[i - 1]];
    }
  }

  /** A call that finds no number at all just puts the current log into slot 1. */
  lemma BlindRotation(files: Files, entries: seq<string>, program: string, max: nat)
    requires 1 <= max && PREFIX <= program && IsListing(entries, files)
    requires forall name :: name in entries ==>
      name == CurrentName(program) || NumberOf(program, name) == None
    ensures Rotated(files, entries, program, max) ==
      (if CurrentName(program) in files then Renamed(files, CurrentName(program), NumberedName(1)) else files)
        - {CurrentName(program)}
  {
    BlindWalk(Walk(files, max - 1, false), entries, |entries|, program, max);
    CurrentIsSelected(program);
    assert entries[..|entries|] == entries;
    assert CurrentName(program) in entries <==> CurrentName(program) in files;
  }

  lemma OneSlotPreserves(files: Files, entries: seq<string>, program: string)
    requires Suitable(program, 2) && !Aligned(program)
    requires Tidy(files, program, 2) && IsListing(entries, files)
    ensures NothingLost(files, Rotated(files, entries, program, 2), 2, |entries| >= 2)
  {
    MisalignedReadsNothing(program);
    BlindRotation(files, entries, program, 2);
    OnlySlotOneName(program);
    CurrentIsSelected(program);
    NumberedNameDigits(1);
    hide NumberedName, CurrentName, NumberOf, Rotated, Selected;
    var current, one := CurrentName(program), NumberedName(1);
    var after := Rotated(files, entries, program, 2);
    if current in files && one in files {
      assert current in entries && one in entries;
    }
    forall name | name in files && !(|entries| >= 2 && name == one)
      ensures exists name' :: name' in after && after[name'] == files[name]
    {
      var name' := if name == current then one else name;
      assert name' in after && after[name'] == files[name];
    }
  }

  /** With a maximum of one there is no slot, but the current log still moves to the name of slot 1. */
  lemma NoSlotPreserves(files: Files, entries: seq<string>, program: string)
    requires Suitable(program, 1) && Tidy(files, program, 1) && IsListing(entries, files)
    ensures NothingLost(files, Rotated(files, entries, program, 1), 1, |entries| >= 1)
  {
    OnlySlotOneName(program);
    NumberedNameDigits(1);
    hide NumberedName, CurrentName, NumberOf, Rotated, Selected;
    var current, one := CurrentName(program), NumberedName(1);
    assert one !in files;
    BlindRotation(files, entries, program, 1);
    var after := Rotated(files, entries, program, 1);
    forall name | name in files
      ensures exists name' :: name' in after && after[name'] == files[name]
    {
      var name' := if name == current then one else name;
      assert name' in after && after[name'] == files[name];
    }
  }

  lemma OnlySlotOneName(program: string)
    requires PREFIX <= program
    ensures CurrentName(program) == NumberedName(1) <==> program == PREFIX + "_1"
  {
    assert NumberedName(1) == (PREFIX + "_1") + SUFFIX;
    assert program == CurrentName(program)[..|CurrentName(program)| - |SUFFIX|];
  }

  /** For every other program name the log of slot 1 is passed over in the walk, and the current
      log is then moved on top of it, or is itself deleted as the file to be created next. */
  lemma MisalignedProgramLosesALog(program: string, max: nat)
    requires 1 <= max && PREFIX <= program && !Aligned(program) && !Suitable(program, max)
    ensures !Preserving(program, max)
  {
    CurrentIsSelected(program);
    NumberedNameDigits(1);
    MisalignedReadsNothing(program);
    OnlySlotOneName(program);
    hide CurrentName, NumberedName, NumberOf, Selected;
    if CurrentName(program) == NumberedName(1) {
      SameNameLosesItself(program, max);
    } else {
      CurrentReplacesSlotOne(program, max);
    }
  }

  lemma SameNameLosesItself(program: string, max: nat)
    requires 1 <= max && PREFIX <= program && Selected(CurrentName(program))
    requires CurrentName(program) == NumberedName(1)
    ensures !Preserving(program, max)
  {
    DistinctSlots(1, 0);
    hide CurrentName, NumberedName, NumberOf, Selected, Rotated;
    var current := CurrentName(program);
    var files: Files := map[current := "x"];
    BlindRotation(files, [current], program, max);
    assert Rotated(files, [current], program, max) == map[];
    assert |[current]| < max || max - 1 == 0;
    Refutes(files, [current], program, max, current);
  }

  lemma CurrentReplacesSlotOne(program: string, max: nat)
    requires 2 < max && PREFIX <= program && Selected(CurrentName(program)) && Selected(NumberedName(1))
    requires CurrentName(program) != NumberedName(1) && NumberOf(program, NumberedName(1)) == None
    ensures !Preserving(program, max)
  {
    hide CurrentName, NumberedName, NumberOf, Selected, Rotated, Precedes;
    var current, one := CurrentName(program), NumberedName(1);
    assert IsSlotName(one, max);
    var files: Files := map[current := "x", one := "y"];
    PrecedesTotal(current, one);
    var entries := if Precedes(current, one) then [current, one] else [one, current];
    BlindRotation(files, entries, program, max);
    assert Rotated(files, entries, program, max) == map[one := "x"];
    Refutes(files, entries, program, max, one);
  }

  lemma TwoDigitsWalk(program: string, max: nat)
    requires Aligned(program) && 10 < max <= UINT_RANGE
    ensures var nine, ten := NumberedName(9), NumberedName(10);
            Rotated(map[nine := "x", ten := "y"], [ten, nine], program, max) == map[nine := "x"]
  {
    NumberOfNumberedName(program, 9);
    NumberOfNumberedName(program, 10);
    CurrentIsNotNumbered(program, 9);
    CurrentIsNotNumbered(program, 10);
    DistinctSlots(9, 10);
    hide NumberedName, NumberOf, CurrentName, Visit;
    var nine, ten := NumberedName(9), NumberedName(10);
    var w := Walk(map[nine := "x", ten := "y"], max - 1, false);
    NineReplacesTen(w, program, max);
    TenMovesDown(program, max);
    TwoVisits(w, ten, nine, program, max);
  }

  lemma TwoVisits(w: Walk, first: string, second: string, program: string, max: nat)
    requires 1 <= max
    ensures WalkBack(w, [first, second], 2, program, max)
         == Visit(Visit(w, second, program, 2, max), first, program, 2, max)
  {
    hide Visit;
    var w1 := Visit(w, second, program, 2, max);
    assert WalkBack(w, [first, second], 2, program, max) == WalkBack(w1, [first, second], 1, program, max);
  }

  lemma NineReplacesTen(w: Walk, program: string, max: nat)
    requires 10 < max && NumberedName(9) != NumberedName(10) && NumberedName(9) != CurrentName(program)
    requires NumberOf(program, NumberedName(9)) == Some(9)
    requires w == Walk(map[NumberedName(9) := "x", NumberedName(10) := "y"], max - 1, false)
    ensures Visit(w, NumberedName(9), program, 2, max) == Walk(map[NumberedName(10) := "x"], 9, false)
  {
    hide NumberedName, NumberOf, CurrentName;
  }

  lemma TenMovesDown(program: string, max: nat)
    requires 10 < max && NumberedName(9) != NumberedName(10) && NumberedName(10) != CurrentName(program)
    requires NumberOf(program, NumberedName(10)) == Some(10)
    ensures Visit(Walk(map[NumberedName(10) := "x"], 9, false), NumberedName(10), program, 2, max)
         == Walk(map[NumberedName(9) := "x"], 8, false)
  {
    hide NumberedName, NumberOf, CurrentName;
  }

  /** With two-digit numbers ten sorts before nine, so nine is visited first and is renamed on top
      of ten. */
  lemma TwoDigitsLoseALog(program: string, max: nat)
    requires Aligned(program) && 10 < max <= UINT_RANGE
    ensures !Preserving(program, max)
  {
    var nine, ten := NumberedName(9), NumberedName(10);
    var files: Files := map[nine := "x", ten := "y"];
    var entries := [ten, nine];
    TwoDigitOrderFails();
    NumberedNameDigits(9);
    NumberedNameDigits(10);
    assert IsSlotName(nine, max) && IsSlotName(ten, max);
    DistinctSlots(9, 10);
    TwoDigitsWalk(program, max);
    Refutes(files, entries, program, max, ten);
  }

  // ---- What the callers in the repository get. ----

  /** The file server passes a name that lacks the prefix but has the length at which the numbers of
      the net servers are read. So it rotates the numbered logs of the net servers, passes over their
      current log, and deletes its own. */
  lemma FileServerRotates(files: Files, entries: seq<string>, max: nat)
    requires 2 <= max <= UINT_RANGE && IsListing(entries, files) && OneDigit(files, max)
    requires forall name :: name in files && Selected(name) ==> name == "net_server.log" || IsSlotName(name, max)
    ensures var after := Rotated(files, entries, "file_server", max);
            && SlotsOf(after, max) == Rotate(SlotsOf(files, max), |entries| >= max)
            && Lookup(after, "net_server.log") == Lookup(files, "net_server.log")
            && "file_server.log" !in after
  {
    var program, current := "file_server", "net_server.log";
    FileServerNames();
    PlainIsNoSlot(max);
    hide NumberedName, CurrentName, NumberOf, Selected, Rotated, Rotate, SlotsOf, IsListing, OneDigit;
    RotationShiftsSlots(Call(files, entries, program, max));
  }

  lemma FileServerNames()
    ensures CurrentName("file_server") == "file_server.log" && !(PREFIX <= "file_server")
    ensures NumberOf("file_server", "net_server.log") == None
  {
    assert "net_server.log"[11..] == "log";
    assert PREFIX[0] != "file_server"[0];
  }

  lemma PlainIsNoSlot(max: nat)
    ensures !IsSlotName("net_server.log", max)
  {
    var current := "net_server.log";
    forall n | 1 <= n < max
      ensures current != NumberedName(n)
    {
      assert NumberedName(n)[|PREFIX|] == '_';
    }
  }

  /** Two of the three callers pass the prefix itself as program name: the offset lands on the
      underscore, so no number is ever read, no log is ever renumbered or deleted, and the previous
      content of slot 1 is overwritten. The third is the file server
      (FileServerRotates). */
  lemma PrefixCallerOverwritesSlotOne(files: Files, entries: seq<string>, max: nat)
    requires 1 <= max && IsListing(entries, files)
    requires forall name :: name in files && Selected(name) ==>
      name == CurrentName(PREFIX) || exists n: nat :: name == NumberedName(n)
    ensures Rotated(files, entries, PREFIX, max) ==
      if CurrentName(PREFIX) in files
      then (files - {CurrentName(PREFIX)})[NumberedName(1) := files[CurrentName(PREFIX)]]
      else files
  {
    forall name | name in entries && name != CurrentName(PREFIX)
      ensures NumberOf(PREFIX, name) == None
    {
      assert name in files && Selected(name);
      var n: nat :| name == NumberedName(n);
      assert name[|PREFIX|..][0] == '_';
    }
    BlindRotation(files, entries, PREFIX, max);
    OnlySlotOneName(PREFIX);
  }

  /** So their history never holds more than one old log, however many sessions there are. */
  lemma {:induction false} PrefixCallerKeepsOneLog(trace: seq<Files>, logs: seq<string>, max: nat)
    requires 1 <= max && Run(trace, logs, PREFIX, max)
    requires forall name :: name in trace[0] ==> !Selected(name)
    ensures forall name :: name in trace[|logs|] && Selected(name) ==>
      name == CurrentName(PREFIX) || name == NumberedName(1)
    ensures Lookup(trace[|logs|], CurrentName(PREFIX)) ==
      if |logs| == 0 then None else Some(logs[|logs| - 1])
    ensures Lookup(trace[|logs|], NumberedName(1)) ==
      if |logs| < 2 then None else Some(logs[|logs| - 2])
  {
    var n := |logs|;
    OnlySlotOneName(PREFIX);
    NumberedNameDigits(1);
    CurrentIsSelected(PREFIX);
    if n > 0 {
      PrefixCallerKeepsOneLog(trace[..n], logs[..n - 1], max);
      assert Round(trace[n - 1], trace[n], PREFIX, max, logs[n - 1]);
      var entries :| IsListing(entries, trace[n - 1]) && trace[n]
        == Rotated(trace[n - 1], entries, PREFIX, max)[CurrentName(PREFIX) := logs[n - 1]];
      PrefixCallerOverwritesSlotOne(trace[n - 1], entries, max);
    }
  }
}

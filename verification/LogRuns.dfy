/** Which callers get a bounded history: over whole runs that start without a log, slot k holds the
    log of the k-th session before the last one exactly for suitable program names and maxima of two
    files or more. */
module LogRuns {
  import opened Options
  import opened Decimal
  import opened LogNames
  import opened LogSlots
  import opened LogRotation
  import opened LogMeaning
  import opened LogHistory
  import opened LogLimits

  /** Every run of sessions in a directory without logs leads to the history of its sessions. */
  ghost predicate KeepsHistory(program: string, max: nat)
    requires 1 <= max
  {
    forall trace: seq<Files>, logs: seq<string> ::
      Run(trace, logs, program, max) && NoLogs(trace[0], program, max) ==>
        Holds(trace[|logs|], logs, program, max) && OthersKept(trace[0], trace[|logs|], program, max)
  }

  // ---- Runs exist. ----

  lemma {:induction false} RunExists(program: string, max: nat, logs: seq<string>) returns (trace: seq<Files>)
    requires 1 <= max
    ensures Run(trace, logs, program, max) && trace[0] == map[] && NoLogs(trace[0], program, max)
  {
    if logs == [] {
      trace := [map[]];
    } else {
      var n := |logs| - 1;
      trace := RunExists(program, max, logs[..n]);
      ListingExists(trace[n]);
      var entries :| IsListing(entries, trace[n]);
      hide NoLogs, IsListing;
      var after := Rotated(trace[n], entries, program, max)[CurrentName(program) := logs[n]];
      assert Round(trace[n], after, program, max, logs[n]);
      RunGrows(trace, logs, program, max, after);
      trace := trace + [after];
    }
  }

  lemma RunGrows(trace: seq<Files>, logs: seq<string>, program: string, max: nat, after: Files)
    requires 1 <= max && logs != [] && Run(trace, logs[..|logs| - 1], program, max)
    requires Round(trace[|logs| - 1], after, program, max, logs[|logs| - 1])
    ensures Run(trace + [after], logs, program, max)
  {
    hide Round;
  }

  // ---- Program names of another length. ----

  /** With a program name that starts with the prefix but is not one character longer, no number is
      read, and only one old log is kept. */
  lemma {:induction false} MisalignedCallerKeepsOneLog(trace: seq<Files>, logs: seq<string>, program: string, max: nat)
    requires 2 <= max && PREFIX <= program && !Aligned(program) && program != PREFIX + "_1"
    requires Run(trace, logs, program, max) && NoLogs(trace[0], program, max)
    ensures OneLogAt(trace[|logs|], logs, program, max)
    ensures OthersKept(trace[0], trace[|logs|], program, max)
  {
    var n := |logs|;
    if n > 0 {
      RunPrefix(trace, logs, program, max);
      MisalignedCallerKeepsOneLog(trace[..n], logs[..n - 1], program, max);
      hide Round, NoLogs, OneLogAt, OthersKept;
      MisalignedRound(trace[n - 1], trace[n], logs[..n - 1], program, max, logs[n - 1]);
      OthersKeptTwice(trace[0], trace[n - 1], trace[n], program, max);
      assert logs == logs[..n - 1] + [logs[n - 1]];
    } else {
      NoLogsIsOneLog(trace[0], program, max);
    }
  }

  /** The current log, the one before it in slot 1, and no other. */
  ghost predicate OneLogAt(files: Files, logs: seq<string>, program: string, max: nat) {
    && (forall name :: name in files && Selected(name) ==>
          name == CurrentName(program) || name == NumberedName(1)
          || (NumberOf(program, name) == None && !IsSlotName(name, max)))
    && Lookup(files, CurrentName(program)) == (if logs == [] then None else Some(logs[|logs| - 1]))
    && Lookup(files, NumberedName(1)) == (if |logs| < 2 then None else Some(logs[|logs| - 2]))
  }

  lemma NoLogsIsOneLog(files: Files, program: string, max: nat)
    requires 2 <= max && NoLogs(files, program, max)
    ensures OneLogAt(files, [], program, max)
  {
    hide NumberedName, CurrentName, NumberOf, Selected;
  }

  lemma MisalignedRound(before: Files, after: Files, logs: seq<string>, program: string, max: nat, log: string)
    requires 2 <= max && PREFIX <= program && !Aligned(program) && program != PREFIX + "_1"
    requires OneLogAt(before, logs, program, max) && Round(before, after, program, max, log)
    ensures OneLogAt(after, logs + [log], program, max)
    ensures OthersKept(before, after, program, max)
  {
    var entries :| IsListing(entries, before)
      && after == Rotated(before, entries, program, max)[CurrentName(program) := log];
    MisalignedReadsNothing(program);
    OnlySlotOneName(program);
    hide NumberedName, CurrentName, NumberOf, Selected, Rotated;
    BlindRotation(before, entries, program, max);
    hide IsListing;
    var current, one := CurrentName(program), NumberedName(1);
    assert IsSlotName(one, max);
    MovedAndWritten(before, after, current, one, log);
  }

  /** What the move to slot 1 and the write of the new log do to one name. */
  lemma MovedAndWritten(before: Files, after: Files, current: string, one: string, log: string)
    requires current != one
    requires var moved := if current in before then Renamed(before, current, one) else before;
             after == (moved - {current})[current := log]
    ensures Lookup(after, current) == Some(log)
    ensures Lookup(after, one) == Lookup(before, if current in before then current else one)
    ensures forall name :: name != current && name != one ==> Lookup(after, name) == Lookup(before, name)
  {
  }

  /** With a single slot that is a bounded history. */
  lemma OneSlotKeepsHistory(program: string)
    requires Suitable(program, 2) && !Aligned(program)
    ensures KeepsHistory(program, 2)
  {
    forall trace: seq<Files>, logs: seq<string> | Run(trace, logs, program, 2) && NoLogs(trace[0], program, 2)
      ensures Holds(trace[|logs|], logs, program, 2) && OthersKept(trace[0], trace[|logs|], program, 2)
    {
      MisalignedCallerKeepsOneLog(trace, logs, program, 2);
      OneLogIsHistory(trace[|logs|], logs, program);
    }
  }

  lemma OneLogIsHistory(files: Files, logs: seq<string>, program: string)
    requires OneLogAt(files, logs, program, 2)
    ensures Holds(files, logs, program, 2)
  {
    hide NumberedName, CurrentName, NumberOf, Selected;
    assert IsSlotName(NumberedName(1), 2);
    assert SlotsOf(files, 2) == Newest(Older(logs), 1);
  }

  /** With more slots it is not: after three sessions slot 2 lacks the log of the first. */
  lemma MisalignedForgets(program: string, max: nat)
    requires 2 < max && PREFIX <= program && !Aligned(program) && program != PREFIX + "_1"
    ensures !KeepsHistory(program, max)
  {
    var logs := ["x", "y", "z"];
    var trace := RunExists(program, max, logs);
    MisalignedCallerKeepsOneLog(trace, logs, program, max);
    DistinctSlots(1, 2);
    NumberedNameDigits(2);
    hide NumberedName, CurrentName, NumberOf, Run, NoLogs, Selected;
    var files := trace[3];
    assert IsSlotName(NumberedName(2), max);
    assert Lookup(files, NumberedName(2)) != Some("x");
    assert SlotsOf(files, max)[1] != Newest(Older(logs), max - 1)[1];
  }

  /** When the current log has the name of slot 1, that slot is never the log of an earlier session. */
  lemma SameNameForgets(max: nat)
    requires 2 <= max
    ensures !KeepsHistory(PREFIX + "_1", max)
  {
    var program, logs := PREFIX + "_1", ["x"];
    var trace := RunExists(program, max, logs);
    OnlySlotOneName(program);
    WrittenLast(trace, logs, program, max);
    hide NumberedName, CurrentName, Run, NoLogs;
    assert SlotsOf(trace[1], max)[0] == Some("x");
    assert Newest(Older(logs), max - 1)[0] == None;
  }

  lemma WrittenLast(trace: seq<Files>, logs: seq<string>, program: string, max: nat)
    requires 1 <= max && Run(trace, logs, program, max) && logs != []
    ensures Lookup(trace[|logs|], CurrentName(program)) == Some(logs[|logs| - 1])
  {
    assert Round(trace[|logs| - 1], trace[|logs| - 1 + 1], program, max, logs[|logs| - 1]);
  }

  // ---- A maximum of one file. ----

  /** What one call and the write that follows do when no listed name gives a number. */
  lemma BlindRound(before: Files, after: Files, program: string, max: nat, log: string)
    requires 1 <= max && PREFIX <= program && Round(before, after, program, max, log)
    requires forall name :: name in before && Selected(name) ==>
      name == CurrentName(program) || NumberOf(program, name) == None
    ensures var current := CurrentName(program);
            var moved := if current in before then Renamed(before, current, NumberedName(1)) else before;
            after == (moved - {current})[current := log]
  {
    hide NumberedName, CurrentName, NumberOf, Selected, Rotated, Renamed;
    var entries :| IsListing(entries, before)
      && after == Rotated(before, entries, program, max)[CurrentName(program) := log];
    BlindRotation(before, entries, program, max);
  }

  /** A program that preserves its log keeps one too many: the second session leaves a numbered log. */
  lemma NoSlotKeepsTooMuch(program: string)
    requires Suitable(program, 1)
    ensures !KeepsHistory(program, 1)
  {
    var logs := ["x", "y"];
    var trace := RunExists(program, 1, logs);
    RunPrefix(trace, logs, program, 1);
    assert Round(trace[0], trace[1], program, 1, "x") && Round(trace[1], trace[2], program, 1, "y");
    OnlySlotOneName(program);
    hide NumberedName, CurrentName, NumberOf, Selected, Run, Round, NoLogs;
    var current, one := CurrentName(program), NumberedName(1);
    BlindRound(trace[0], trace[1], program, 1, "x");
    assert trace[1] == map[current := "x"];
    BlindRound(trace[1], trace[2], program, 1, "y");
    assert Lookup(trace[2], one) == Some("x") && Lookup(trace[0], one) == None;
    assert !IsSlotName(one, 1);
  }

  /** A program that does not preserve its log has the history a maximum of one allows, which is
      none. */
  lemma {:induction false} NoSlotKeepsNone(trace: seq<Files>, logs: seq<string>, program: string)
    requires program != "" && !Suitable(program, 1)
    requires Run(trace, logs, program, 1) && NoLogs(trace[0], program, 1)
    ensures Holds(trace[|logs|], logs, program, 1) && OthersKept(trace[0], trace[|logs|], program, 1)
  {
    var n := |logs|;
    if n == 0 {
      hide NumberedName, CurrentName, NumberOf, Selected;
      assert SlotsOf(trace[0], 1) == Newest(Older(logs), 0);
    } else {
      RunPrefix(trace, logs, program, 1);
      NoSlotKeepsNone(trace[..n], logs[..n - 1], program);
      hide Holds, OthersKept, Round, NoLogs, Suitable;
      assert logs == logs[..n - 1] + [logs[n - 1]];
      LosingRound(trace[n - 1], trace[n], logs[..n - 1], program, logs[n - 1]);
      OthersKeptTwice(trace[0], trace[n - 1], trace[n], program, 1);
    }
  }

  /** The current log is deleted by the write test: it was not seen in the listing, or it was moved to
      its own name. */
  lemma CurrentIsLost(files: Files, entries: seq<string>, program: string)
    requires program != "" && !Suitable(program, 1) && IsListing(entries, files) && Orderly(files, program, 1)
    ensures Rotated(files, entries, program, 1) == files - {CurrentName(program)}
  {
    hide NumberedName, CurrentName, NumberOf, Selected, Rotated, Orderly;
    forall name | name in entries
      ensures name == CurrentName(program) || NumberOf(program, name) == None
    {
      NoSlotEntry(files, entries, program, name);
    }
    if PREFIX <= program {
      OnlySlotOneName(program);
      BlindRotation(files, entries, program, 1);
      assert Rotated(files, entries, program, 1) == files - {CurrentName(program)};
    } else {
      CurrentIsSelected(program);
      assert CurrentName(program) !in entries;
      UnseenIsDeleted(files, entries, program);
    }
  }

  lemma NoSlotEntry(files: Files, entries: seq<string>, program: string, name: string)
    requires IsListing(entries, files) && Orderly(files, program, 1) && name in entries
    ensures name == CurrentName(program) || NumberOf(program, name) == None
  {
    hide NumberedName, CurrentName, NumberOf, Selected;
    assert name in files && Selected(name);
  }

  lemma UnseenIsDeleted(files: Files, entries: seq<string>, program: string)
    requires CurrentName(program) !in entries
    requires forall name :: name in entries ==> NumberOf(program, name) == None
    ensures Rotated(files, entries, program, 1) == files - {CurrentName(program)}
  {
    hide CurrentName, NumberOf;
    BlindWalk(Walk(files, 0, false), entries, |entries|, program, 1);
    assert entries[..|entries|] == entries;
  }

  lemma LosingRound(before: Files, after: Files, logs: seq<string>, program: string, log: string)
    requires program != "" && !Suitable(program, 1)
    requires Holds(before, logs, program, 1) && Round(before, after, program, 1, log)
    ensures Holds(after, logs + [log], program, 1) && OthersKept(before, after, program, 1)
  {
    hide NumberedName, CurrentName, NumberOf, Selected, Rotated;
    var entries :| IsListing(entries, before)
      && after == Rotated(before, entries, program, 1)[CurrentName(program) := log];
    assert Orderly(before, program, 1);
    hide IsListing, Suitable, Holds, Orderly, OthersKept;
    CurrentIsLost(before, entries, program);
    LosingWrite(before, after, logs, program, log);
  }

  /** The old log is gone and the new one is written. */
  lemma LosingWrite(before: Files, after: Files, logs: seq<string>, program: string, log: string)
    requires Holds(before, logs, program, 1)
    requires after == (before - {CurrentName(program)})[CurrentName(program) := log]
    ensures Holds(after, logs + [log], program, 1) && OthersKept(before, after, program, 1)
  {
    hide NumberedName, CurrentName, NumberOf, Selected, IsSlotName;
    assert SlotsOf(after, 1) == Newest(Older(logs + [log]), 0);
  }

  /** A program whose name lacks the prefix keeps no old log at all. */
  lemma ForeignForgets(program: string, max: nat)
    requires 2 <= max && !(PREFIX <= program)
    ensures !KeepsHistory(program, max)
  {
    var logs := ["x", "y"];
    var trace := RunExists(program, max, logs);
    CurrentIsSelected(program);
    NumberedNameDigits(1);
    hide NumberedName, CurrentName, Run, NoLogs, Selected;
    ForeignRun(trace, logs, program, max);
    assert SlotsOf(trace[2], max)[0] == None;
    assert Newest(Older(logs), max - 1)[0] == Some("x");
  }

  lemma {:induction false} ForeignRun(trace: seq<Files>, logs: seq<string>, program: string, max: nat)
    requires 1 <= max && !Selected(CurrentName(program))
    requires Run(trace, logs, program, max) && trace[0] == map[]
    ensures trace[|logs|] == if logs == [] then map[] else map[CurrentName(program) := logs[|logs| - 1]]
  {
    if logs != [] {
      var n := |logs| - 1;
      RunPrefix(trace, logs, program, max);
      ForeignRun(trace[..n + 1], logs[..n], program, max);
      hide Run, CurrentName, IsListing;
      var entries :| IsListing(entries, trace[n])
        && trace[n + 1] == Rotated(trace[n], entries, program, max)[CurrentName(program) := logs[n]];
      hide Selected;
      if entries != [] {
        FirstIsSelected(entries, trace[n]);
      }
    }
  }

  lemma FirstIsSelected(entries: seq<string>, files: Files)
    requires IsListing(entries, files) && entries != []
    ensures entries[0] in files && Selected(entries[0])
  {
    assert entries[0] in entries;
  }

  // ---- Numbers of two digits. ----

  /** The logs of eleven sessions and one more, all different. */
  function Logs(n: nat): (logs: seq<string>)
    ensures |logs| == n
    ensures forall k :: 0 <= k < n ==> logs[k] == Print(k)
  {
    seq(n, k requires 0 <= k < n => Print(k))
  }

  /** The directory after eleven sessions: ten numbered logs, the oldest of them number ten. */
  ghost predicate Eleven(files: Files, program: string, max: nat) {
    && 10 < max <= UINT_RANGE && Aligned(program)
    && Lookup(files, CurrentName(program)) == Some(Print(10))
    && (forall t :: 1 <= t <= 10 ==> Lookup(files, NumberedName(t)) == Some(Print(10 - t)))
    && forall name :: name in files ==> Selected(name) && (name == CurrentName(program) || IsSlotName(name, 11))
  }

  lemma ElevenSessions(trace: seq<Files>, program: string, max: nat)
    requires Aligned(program) && 10 < max <= UINT_RANGE
    requires Run(trace, Logs(11), program, max) && trace[0] == map[] && NoLogs(trace[0], program, max)
    ensures Eleven(trace[11], program, max)
  {
    assert |trace| == 12;
    hide Run, NoLogs, CurrentName, NumberedName, Print, NumberOf, Selected, Aligned, Holds, OthersKept, Eleven;
    BoundedHistory(trace, Logs(11), program, max);
    ElevenSlots(trace[11], program, max);
    ElevenNames(trace[11], program, max);
  }

  lemma ElevenSlots(files: Files, program: string, max: nat)
    requires 10 < max && Holds(files, Logs(11), program, max)
    ensures Lookup(files, CurrentName(program)) == Some(Print(10))
    ensures forall t :: 1 <= t < max ==>
      Lookup(files, NumberedName(t)) == if t <= 10 then Some(Print(10 - t)) else None
  {
    hide CurrentName, NumberedName, Print, Orderly;
    var row := Newest(Older(Logs(11)), max - 1);
    forall t | 1 <= t < max
      ensures Lookup(files, NumberedName(t)) == if t <= 10 then Some(Print(10 - t)) else None
    {
      assert SlotsOf(files, max)[t - 1] == row[t - 1];
    }
  }

  lemma ElevenNames(files: Files, program: string, max: nat)
    requires Aligned(program) && 10 < max <= UINT_RANGE && OthersKept(map[], files, program, max)
    requires Lookup(files, CurrentName(program)) == Some(Print(10))
    requires forall t :: 1 <= t < max ==>
      Lookup(files, NumberedName(t)) == if t <= 10 then Some(Print(10 - t)) else None
    ensures Eleven(files, program, max)
  {
    CurrentIsSelected(program);
    hide CurrentName, NumberedName, Print, Selected;
    forall name | name in files
      ensures Selected(name) && (name == CurrentName(program) || IsSlotName(name, 11))
    {
      if name != CurrentName(program) {
        assert Lookup(files, name) != Lookup(map[], name);
        var t :| 1 <= t < max && name == NumberedName(t);
        assert t <= 10;
        NumberedNameDigits(t);
      }
    }
  }

  /** One more call in that directory. */
  ghost predicate Twelfth(c: Call) {
    Eleven(c.files, c.program, c.max) && IsListing(c.entries, c.files)
  }

  /** In a listing, what precedes comes first. */
  lemma ListingOrder(entries: seq<string>, files: Files, j: nat, k: nat)
    requires IsListing(entries, files) && j < |entries| && k < |entries|
    requires Precedes(entries[j], entries[k])
    ensures j < k
  {
    PrecedesAsymmetric(entries[j], entries[k]);
  }

  /** Number ten stands behind number one and before all others. */
  lemma TenPrecedes(t: nat)
    requires 1 <= t < 10
    ensures if t == 1 then Precedes(NumberedName(1), NumberedName(10)) else Precedes(NumberedName(10), NumberedName(t))
  {
    var p := PREFIX + "_";
    assert NumberedName(10) == p + "10.log" by {
      assert Print(10) == Print(1) + [DigitChar(0)] == "10";
    }
    var name := [DigitChar(t)] + SUFFIX;
    assert NumberedName(t) == p + name;
    PrecedesPrefix(p, "10.log", name);
    PrecedesPrefix(p, name, "10.log");
    assert name[0] == DigitChar(t);
    if t == 1 {
      assert name[1] == '.';
    }
  }

  lemma IsListed(c: Call, t: nat) returns (i: nat)
    requires Twelfth(c) && 1 <= t <= 10
    ensures i < |c.entries| && c.entries[i] == NumberedName(t)
  {
    hide NumberedName, CurrentName;
    assert Lookup(c.files, NumberedName(t)).Some?;
    i :| 0 <= i < |c.entries| && c.entries[i] == NumberedName(t);
  }

  /** An entry behind number nine is the current log; one before number ten is that or number one. */
  lemma EntryCases(c: Call, i: nat, k: nat)
    requires Twelfth(c) && i < |c.entries| && k < |c.entries|
    ensures c.entries[k] == NumberedName(9) && k < i ==> c.entries[i] == CurrentName(c.program)
    ensures c.entries[k] == NumberedName(10) && i < k ==>
      c.entries[i] == CurrentName(c.program) || c.entries[i] == NumberedName(1)
  {
    hide NumberedName, CurrentName;
    var name := c.entries[i];
    assert name in c.entries && name in c.files;
    if t :| 1 <= t < 11 && name == NumberedName(t) {
      ListingDistinct(c.entries, c.files);
      if c.entries[k] == NumberedName(9) && k < i {
        if t == 10 {
          TwoDigitOrderFails();
          ListingOrder(c.entries, c.files, i, k);
        } else if t < 9 {
          OneDigitOrder(t, 9);
          ListingOrder(c.entries, c.files, i, k);
        }
      }
      if c.entries[k] == NumberedName(10) && i < k && 1 < t < 10 {
        TenPrecedes(t);
        ListingOrder(c.entries, c.files, k, i);
      }
    }
  }

  // A maximum above eleven: number nine is renamed on top of number ten.

  ghost predicate Lacks(files: Files, x: string) {
    forall name :: name in files ==> files[name] != x
  }

  lemma VisitLacks(w: Walk, name: string, program: string, count: nat, max: nat, x: string)
    requires 1 <= max && Lacks(w.files, x)
    ensures Lacks(Visit(w, name, program, count, max).files, x)
  {
    hide NumberedName, CurrentName, NumberOf;
  }

  lemma {:induction false} WalkLacks(c: Call, i: nat, x: string)
    requires 1 <= c.max && i <= |c.entries| && Lacks(Before(c, i).files, x)
    ensures Lacks(Before(c, 0).files, x)
    decreases i
  {
    hide Visit, Lacks;
    if i > 0 {
      VisitLacks(Before(c, i), c.entries[i - 1], c.program, |c.entries|, c.max, x);
      WalkLacks(c, i - 1, x);
    }
  }

  /** Until number nine is visited nothing happens. */
  lemma {:induction false} NothingBeforeNine(c: Call, nine: nat, i: nat)
    requires Twelfth(c) && nine < i <= |c.entries| && c.entries[nine] == NumberedName(9)
    ensures Before(c, i).files == c.files && Before(c, i).index == c.max - 1
    decreases |c.entries| - i
  {
    hide NumberedName, CurrentName, NumberOf, Twelfth;
    if i < |c.entries| {
      NothingBeforeNine(c, nine, i + 1);
      EntryCases(c, i, nine);
    } else {
      assert c.max > 10 by { TwelfthMax(c); }
    }
  }

  lemma TwelfthMax(c: Call)
    requires Twelfth(c)
    ensures c.max > 10 && |c.program| == |PREFIX| + 1
  {
  }

  /** The visit of number nine destroys the content of number ten. */
  lemma NineDestroysTen(c: Call, nine: nat)
    requires Twelfth(c) && nine < |c.entries| && c.entries[nine] == NumberedName(9)
    ensures Lacks(Before(c, nine).files, Print(0))
  {
    NothingBeforeNine(c, nine, nine + 1);
    NumberOfNumberedName(c.program, 9);
    CurrentIsNotNumbered(c.program, 9);
    CurrentIsNotNumbered(c.program, 10);
    DistinctSlots(9, 10);
    var w, ten := Before(c, nine + 1), NumberedName(10);
    hide NumberOf, Before;
    PlacesNineOnTen(w, c.program, |c.entries|, c.max);
    assert Before(c, nine) == Visit(w, NumberedName(9), c.program, |c.entries|, c.max) by { BeforeStep(c, nine); }
    OnlyTenHolds(c.files, c.program, c.max);
    hide NumberedName, CurrentName, Visit, Print, Twelfth;
    RenamedLacks(c.files, NumberedName(9), ten, Print(0));
  }

  lemma RenamedLacks(files: Files, source: string, target: string, x: string)
    requires source in files && source != target
    requires forall name :: name in files && name != target ==> files[name] != x
    ensures Lacks(Renamed(files, source, target), x)
  {
  }

  lemma BeforeStep(c: Call, i: nat)
    requires i < |c.entries| && 1 <= c.max
    ensures Before(c, i) == Visit(Before(c, i + 1), c.entries[i], c.program, |c.entries|, c.max)
  {
    hide Visit;
  }

  lemma PlacesNineOnTen(w: Walk, program: string, count: nat, max: nat)
    requires 10 < max && w.index == max - 1
    requires NumberedName(9) != CurrentName(program) && NumberOf(program, NumberedName(9)) == Some(9)
    ensures Visit(w, NumberedName(9), program, count, max).files == Renamed(w.files, NumberedName(9), NumberedName(10))
  {
    hide NumberedName, CurrentName, NumberOf, Renamed;
  }

  lemma OnlyTenHolds(files: Files, program: string, max: nat)
    requires Eleven(files, program, max)
    ensures forall name :: name in files && name != NumberedName(10) ==> files[name] != Print(0)
  {
    hide NumberedName, CurrentName, Print, Selected;
    forall name | name in files && name != NumberedName(10)
      ensures files[name] != Print(0)
    {
      var k: nat := 10;
      if name != CurrentName(program) {
        var t :| 1 <= t < 11 && name == NumberedName(t);
        k := 10 - t;
      }
      assert Lookup(files, name) == Some(Print(k)) && k > 0;
      if Print(k) == Print(0) {
        PrintInjective(k, 0);
      }
    }
  }

  // A maximum of eleven: number ten is deleted although number nine was just renamed to it.

  lemma {:induction false} TenStaysAway(c: Call, ten: nat, i: nat)
    requires Twelfth(c) && c.max == 11 && i <= ten < |c.entries| && c.entries[ten] == NumberedName(10)
    ensures NumberedName(10) !in Before(c, i).files
    decreases ten - i
  {
    hide NumberOf;
    NumberOfNumberedName(c.program, 10);
    NumberOfNumberedName(c.program, 1);
    CurrentIsNotNumbered(c.program, 10);
    CurrentIsNotNumbered(c.program, 1);
    BeforeStep(c, i);
    hide NumberedName, CurrentName, Before;
    if i == ten {
      AtLeastEleven(c);
    } else {
      TenStaysAway(c, ten, i + 1);
      EntryCases(c, i, ten);
      OneStaysLow(Before(c, i + 1), c.program, |c.entries|);
    }
  }

  lemma OneStaysLow(w: Walk, program: string, count: nat)
    requires NumberedName(10) !in w.files
    requires NumberedName(1) != CurrentName(program) && NumberOf(program, NumberedName(1)) == Some(1)
    ensures NumberedName(10) !in Visit(w, NumberedName(1), program, count, 11).files
  {
    DistinctSlots(10, 0);
    DistinctSlots(10, 1);
    DistinctSlots(10, 2);
    hide NumberedName, CurrentName, NumberOf;
  }

  lemma AtLeastEleven(c: Call)
    requires Twelfth(c)
    ensures |c.entries| >= 11
  {
    var current := CurrentName(c.program);
    SlotNamesCount(11);
    forall t: nat | 1 <= t < 11
      ensures NumberedName(t) != current
    {
      CurrentIsNotNumbered(c.program, t);
    }
    hide NumberedName, CurrentName, SlotNames, Print, Twelfth;
    forall name | name in SlotNames(11) + {current}
      ensures name in c.entries
    {
      LogIsListed(c, name);
    }
    assert current !in SlotNames(11);
    CountNames(c.entries, SlotNames(11), current);
  }

  lemma CountNames(entries: seq<string>, names: set<string>, one: string)
    requires one !in names && forall name :: name in names + {one} ==> name in entries
    ensures |names| + 1 <= |entries|
  {
    SubsetBound(names + {one}, set x | x in entries);
    ElementsBound(entries);
  }

  lemma LogIsListed(c: Call, name: string)
    requires Twelfth(c) && (name == CurrentName(c.program) || IsSlotName(name, 11))
    ensures name in c.entries
  {
    hide NumberedName, CurrentName, Print;
    assert Lookup(c.files, name).Some?;
  }

  /** After the twelfth session the history is broken. */
  lemma TwelfthBreaks(c: Call)
    requires Twelfth(c)
    ensures var after := Rotated(c.files, c.entries, c.program, c.max)[CurrentName(c.program) := Print(11)];
            !Holds(after, Logs(12), c.program, c.max)
  {
    TwelfthMax(c);
    CurrentIsNotNumbered(c.program, 10);
    DistinctSlots(10, 1);
    hide NumberedName, CurrentName, Visit, Print, Before, Twelfth, WalkBack;
    var w := Before(c, 0);
    if c.max == 11 {
      var ten := IsListed(c, 10);
      TenStaysAway(c, ten, 0);
    } else {
      var nine := IsListed(c, 9);
      NineDestroysTen(c, nine);
      WalkLacks(c, nine, Print(0));
      if Print(11) == Print(0) {
        PrintInjective(11, 0);
      }
    }
    BrokenSlots(w, c.program, c.max);
    assert Rotated(c.files, c.entries, c.program, c.max) == Finish(w, c.program) by { WalkEnds(c); }
  }

  lemma WalkEnds(c: Call)
    requires 1 <= c.max
    ensures Rotated(c.files, c.entries, c.program, c.max) == Finish(Before(c, 0), c.program)
  {
    hide Before, WalkBack, Finish;
    BeforeIsOnTheWay(c, 0);
    NothingLeft(c, Before(c, 0));
  }

  lemma BrokenSlots(w: Walk, program: string, max: nat)
    requires 10 < max && NumberedName(10) != CurrentName(program) && NumberedName(10) != NumberedName(1)
    requires if max == 11 then NumberedName(10) !in w.files else Lacks(w.files, Print(0)) && Print(11) != Print(0)
    ensures !Holds(Finish(w, program)[CurrentName(program) := Print(11)], Logs(12), program, max)
  {
    hide NumberedName, CurrentName, Print;
    var after := Finish(w, program)[CurrentName(program) := Print(11)];
    var t := if max == 11 then 10 else 11;
    assert Older(Logs(12))[11 - t] == Print(11 - t);
    assert Newest(Older(Logs(12)), max - 1)[t - 1] == Some(Print(11 - t));
    assert Lookup(after, NumberedName(t)) != Some(Print(11 - t));
  }

  /** With numbers of two digits the twelfth session loses a log. */
  lemma TwoDigitsForget(program: string, max: nat)
    requires Aligned(program) && 10 < max <= UINT_RANGE
    ensures !KeepsHistory(program, max)
  {
    var trace := RunExists(program, max, Logs(12));
    assert Logs(12)[..11] == Logs(11);
    RunPrefix(trace, Logs(12), program, max);
    ElevenSessions(trace[..12], program, max);
    var entries :| IsListing(entries, trace[11])
      && trace[12] == Rotated(trace[11], entries, program, max)[CurrentName(program) := Print(11)];
    hide Run, NoLogs, CurrentName, NumberedName, Print, NumberOf, Rotated;
    TwelfthBreaks(Call(trace[11], entries, program, max));
  }

  /** For two files and more the history of every run is kept if and only if the program name and the
      maximum are suitable. For one file it is the other way round: a call that loses nothing leaves
      the log of the previous session, where none is to be left. */
  lemma KeepsHistoryExactly(program: string, max: nat)
    requires program != "" && 1 <= max <= UINT_RANGE
    ensures KeepsHistory(program, max) <==> if max == 1 then !Suitable(program, max) else Suitable(program, max)
  {
    hide KeepsHistory;
    if max == 1 {
      NoSlotExactly(program);
    } else if Suitable(program, max) {
      if Aligned(program) {
        AlignedKeepsHistory(program, max);
      } else {
        OneSlotKeepsHistory(program);
      }
    } else if !(PREFIX <= program) {
      ForeignForgets(program, max);
    } else if Aligned(program) {
      TwoDigitsForget(program, max);
    } else if program == PREFIX + "_1" {
      SameNameForgets(max);
    } else {
      MisalignedForgets(program, max);
    }
  }

  lemma NoSlotExactly(program: string)
    requires program != ""
    ensures KeepsHistory(program, 1) <==> !Suitable(program, 1)
  {
    if Suitable(program, 1) {
      NoSlotKeepsTooMuch(program);
    } else {
      forall trace: seq<Files>, logs: seq<string> | Run(trace, logs, program, 1) && NoLogs(trace[0], program, 1)
        ensures Holds(trace[|logs|], logs, program, 1) && OthersKept(trace[0], trace[|logs|], program, 1)
      {
        NoSlotKeepsNone(trace, logs, program);
      }
    }
  }

  lemma AlignedKeepsHistory(program: string, max: nat)
    requires Aligned(program) && 2 <= max <= 10
    ensures KeepsHistory(program, max)
  {
    forall trace: seq<Files>, logs: seq<string> | Run(trace, logs, program, max) && NoLogs(trace[0], program, max)
      ensures Holds(trace[|logs|], logs, program, max) && OthersKept(trace[0], trace[|logs|], program, max)
    {
      BoundedHistory(trace, logs, program, max);
    }
  }
}

/** Many rounds of "rotate, then write a fresh current log". */
module LogHistory {
  import opened Options
  import opened Decimal
  import opened LogNames
  import opened LogSlots
  import opened LogRotation
  import opened LogMeaning

  /** Every selected file is the current log or the log of a slot. */
  ghost predicate Tidy(files: Files, program: string, max: nat) {
    forall name :: name in files && Selected(name) ==>
      name == CurrentName(program) || IsSlotName(name, max)
  }

  /** One session: the logs are rotated, then the program writes its log. */
  ghost predicate Round(before: Files, after: Files, program: string, max: nat, log: string)
    requires 1 <= max
  {
    exists entries :: IsListing(entries, before)
      && after == Rotated(before, entries, program, max)[CurrentName(program) := log]
  }

  /** A run of sessions: trace[i] is the directory before session i. */
  ghost predicate Run(trace: seq<Files>, logs: seq<string>, program: string, max: nat)
    requires 1 <= max
  {
    && |trace| == |logs| + 1
    && forall i :: 0 <= i < |logs| ==> Round(trace[i], trace[i + 1], program, max, logs[i])
  }

  /** The k newest of the given logs, newest first. */
  function Newest(logs: seq<string>, k: nat): (s: Row)
    ensures |s| == k
    ensures forall j :: 0 <= j < k ==> s[j] == if j < |logs| then Some(logs[|logs| - 1 - j]) else None
  {
    seq(k, j requires 0 <= j => if j < |logs| then Some(logs[|logs| - 1 - j]) else None)
  }

  function Older(logs: seq<string>): seq<string> {
    if logs == [] then [] else logs[..|logs| - 1]
  }

  /** A directory that holds exactly the history of the given sessions, beside files that are not
      selected or give no number. */
  ghost predicate Holds(files: Files, logs: seq<string>, program: string, max: nat)
    requires 1 <= max
  {
    && Orderly(files, program, max)
    && Lookup(files, CurrentName(program)) == (if logs == [] then None else Some(logs[|logs| - 1]))
    && SlotsOf(files, max) == Newest(Older(logs), max - 1)
  }

  /** Rotating a history without gaps always drops or closes the last slot, unless it is full and
      nothing is to be moved. */
  lemma RotateDense(logs: seq<string>, k: nat, crowded: bool)
    requires k > 0
    requires Rotate(Newest(logs, k), crowded)[0] == None
    ensures Rotate(Newest(logs, k), crowded) == CloseGap(Newest(logs, k), k - 1)
  {
    assert LastFree(Newest(logs, k)) == if |logs| < k then k - 1 else -1;
  }

  lemma NewestExtends(logs: seq<string>, log: string, k: nat)
    requires k > 0
    ensures CloseGap(Newest(logs, k), k - 1)[0 := Some(log)] == Newest(logs + [log], k)
  {
  }

  lemma RowPrepends(s: Row, logs: seq<string>, crowded: bool)
    requires s != [] && s == Newest(Older(logs), |s|)
    requires logs != [] ==> Rotate(s, crowded)[0] == None
    ensures Newest(logs, |s|) ==
      if logs == [] then Rotate(s, crowded) else Rotate(s, crowded)[0 := Some(logs[|logs| - 1])]
  {
    if logs == [] {
      RotateFree(s, crowded);
    } else {
      RotateDense(Older(logs), |s|, crowded);
      NewestExtends(Older(logs), logs[|logs| - 1], |s|);
      assert logs == Older(logs) + [logs[|logs| - 1]];
    }
  }

  /** Rotation prepends the current log to the history and truncates it to the slots. */
  lemma RotationPrepends(c: Call, logs: seq<string>)
    requires c.Valid() && PREFIX <= c.program && Holds(c.files, logs, c.program, c.max)
    ensures SlotsOf(Rotated(c.files, c.entries, c.program, c.max), c.max) == Newest(logs, c.max - 1)
  {
    RotationShiftsSlots(c);
    hide NumberedName, CurrentName, Rotated, Rotate, Newest, SlotsOf;
    RowPrepends(SlotsOf(c.files, c.max), logs, c.Crowded());
  }

  lemma RotateFree(s: Row, crowded: bool)
    requires forall k :: 0 <= k < |s| ==> s[k] == None
    ensures Rotate(s, crowded) == s
  {
  }

  /** A directory without logs. */
  ghost predicate NoLogs(files: Files, program: string, max: nat) {
    && Orderly(files, program, max) && CurrentName(program) !in files
    && forall n :: 1 <= n < max ==> NumberedName(n) !in files
  }

  /** Files other than the current log and the slots are as they were. */
  ghost predicate OthersKept(before: Files, after: Files, program: string, max: nat) {
    forall name :: name != CurrentName(program) && !IsSlotName(name, max) ==>
      Lookup(after, name) == Lookup(before, name)
  }

  lemma OthersKeptTwice(a: Files, b: Files, c: Files, program: string, max: nat)
    requires OthersKept(a, b, program, max) && OthersKept(b, c, program, max)
    ensures OthersKept(a, c, program, max)
  {
    hide CurrentName, NumberedName, Lookup;
  }

  /** Up to ten sessions fill nine slots at most, whatever the maximum is. */
  lemma HistoryIsOneDigit(files: Files, logs: seq<string>, program: string, max: nat)
    requires 1 <= max && Holds(files, logs, program, max) && (max <= 10 || |logs| <= 10)
    ensures OneDigit(files, max)
  {
    hide NumberedName, CurrentName;
    forall n | 10 <= n < max
      ensures NumberedName(n) !in files
    {
      assert SlotsOf(files, max)[n - 1] == Newest(Older(logs), max - 1)[n - 1] == None;
      assert Lookup(files, NumberedName(n)) == None;
    }
  }

  lemma RoundKeepsHistory(before: Files, after: Files, logs: seq<string>, program: string, max: nat, log: string)
    requires Aligned(program) && 2 <= max <= UINT_RANGE && (max <= 10 || |logs| <= 10)
    requires Holds(before, logs, program, max) && Round(before, after, program, max, log)
    ensures Holds(after, logs + [log], program, max)
    ensures OthersKept(before, after, program, max)
  {
    var entries :| IsListing(entries, before)
      && after == Rotated(before, entries, program, max)[CurrentName(program) := log];
    var c := Call(before, entries, program, max);
    HistoryIsOneDigit(before, logs, program, max);
    RotationShiftsSlots(c);
    RotationPrepends(c, logs);
    hide Rotated;
    OthersAfterRotation(c, Rotated(before, entries, program, max));
    HistoryAfterWrite(Rotated(before, entries, program, max), logs, program, max, log);
    OthersAfterWrite(before, Rotated(before, entries, program, max), program, max, log);
  }

  lemma OthersAfterRotation(c: Call, after: Files)
    requires c.Valid() && ShiftedInto(c, after)
    ensures OthersKept(c.files, after, c.program, c.max)
    ensures Orderly(after, c.program, c.max)
  {
    hide NumberedName, CurrentName, Selected, NumberOf, Rotate;
    forall name | name in after && Selected(name) && !IsSlotName(name, c.max)
      ensures NumberOf(c.program, name) == None
    {
      assert name != CurrentName(c.program);
      assert Lookup(after, name) == Lookup(c.files, name);
    }
  }

  lemma OthersAfterWrite(before: Files, after: Files, program: string, max: nat, log: string)
    requires OthersKept(before, after, program, max)
    ensures OthersKept(before, after[CurrentName(program) := log], program, max)
  {
    hide CurrentName, NumberedName;
  }

  /** Writing the current log completes the history. */
  lemma HistoryAfterWrite(rotated: Files, logs: seq<string>, program: string, max: nat, log: string)
    requires |program| == |PREFIX| + 1 && 1 <= max
    requires Orderly(rotated, program, max) && SlotsOf(rotated, max) == Newest(logs, max - 1)
    ensures Holds(rotated[CurrentName(program) := log], logs + [log], program, max)
  {
    var after := rotated[CurrentName(program) := log];
    forall k | 0 <= k < max - 1
      ensures SlotsOf(after, max)[k] == SlotsOf(rotated, max)[k]
    {
      CurrentIsNotNumbered(program, k + 1);
    }
    assert SlotsOf(after, max) == SlotsOf(rotated, max);
    assert Older(logs + [log]) == logs;
    hide CurrentName, NumberedName, SlotsOf, Selected, NumberOf, IsSlotName;
  }

  /** The refinement over whole runs: after any number of sessions in a directory that held no
      log, the current log is that of the last session, slot k holds the log of the k-th session
      before it as long as there are k earlier sessions, no further log is kept, and other files
      are untouched. With a larger maximum than ten it is so for eleven sessions. */
  lemma {:induction false} BoundedHistory(trace: seq<Files>, logs: seq<string>, program: string, max: nat)
    requires Aligned(program) && 2 <= max <= UINT_RANGE && (max <= 10 || |logs| <= 11)
    requires Run(trace, logs, program, max) && NoLogs(trace[0], program, max)
    ensures Holds(trace[|logs|], logs, program, max)
    ensures OthersKept(trace[0], trace[|logs|], program, max)
  {
    var n := |logs|;
    if n == 0 {
      hide NumberedName, CurrentName, NumberOf, Selected;
      assert SlotsOf(trace[0], max) == Newest(Older(logs), max - 1);
    } else {
      RunPrefix(trace, logs, program, max);
      BoundedHistory(trace[..n], logs[..n - 1], program, max);
      hide Holds, OthersKept, Round, NoLogs;
      RoundKeepsHistory(trace[n - 1], trace[n], logs[..n - 1], program, max, logs[n - 1]);
      OthersKeptTwice(trace[0], trace[n - 1], trace[n], program, max);
      assert logs == logs[..n - 1] + [logs[n - 1]];
    }
  }

  /** All but the last session of a run are a run. */
  lemma RunPrefix(trace: seq<Files>, logs: seq<string>, program: string, max: nat)
    requires 1 <= max && Run(trace, logs, program, max) && logs != []
    ensures Run(trace[..|logs|], logs[..|logs| - 1], program, max)
    ensures Round(trace[|logs| - 1], trace[|logs|], program, max, logs[|logs| - 1])
  {
    hide Round;
  }
}

/** `getNextLogFileName` as it runs: a directory whose files are deleted and renamed in place
    (src/client_server/net_server_common_tools.cpp). */
module LogFiles {
  import opened Options
  import opened Decimal
  import opened LogNames
  import opened LogRotation
  import opened LogMeaning
  import opened LogExcess

  lemma WalkBackStep(w: Walk, entries: seq<string>, i: nat, program: string, max: nat)
    requires 0 < i <= |entries| && 1 <= max
    ensures WalkBack(w, entries, i, program, max)
         == WalkBack(Visit(w, entries[i - 1], program, |entries|, max), entries, i - 1, program, max)
  {
    hide Visit;
  }

  lemma WalkBackEnds(w: Walk, entries: seq<string>, program: string, max: nat)
    requires 1 <= max
    ensures WalkBack(w, entries, 0, program, max) == w
  {
  }

  lemma MeaningOfCall(c: Call)
    requires 1 <= c.max
    ensures c.Valid() ==> ShiftedInto(c, Rotated(c.files, c.entries, c.program, c.max))
    ensures Loose(c) && (c.Crowded() || TopFree(c)) ==>
      TakenAndShifted(c, Rotated(c.files, c.entries, c.program, c.max))
  {
    hide NumberedName, CurrentName, Rotated, ShiftedInto, TakenAndShifted, Excess;
    if c.Valid() {
      RotationShiftsSlots(c);
    }
    if Loose(c) && (c.Crowded() || TopFree(c)) {
      ExcessIsTaken(c);
    }
  }

  class LogDirectory {
    var files: Files

    constructor (initial: Files)
      ensures files == initial
    {
      files := initial;
    }

    method CreateFile(name: string)
      modifies this
      ensures files == old(files)[name := ""]
    {
      files := files[name := ""];
    }

    method DeleteFile(name: string) returns (done: bool)
      modifies this
      ensures done == (name in old(files))
      ensures files == old(files) - {name}
    {
      done := name in files;
      files := files - {name};
    }

    method Rename(source: string, target: string) returns (done: bool)
      modifies this
      ensures done == (source in old(files))
      ensures files == Renamed(old(files), source, target)
    {
      done := source in files;
      if done {
        var content := files[source];
        files := (files - {source})[target := content];
      }
    }

    /** The body of the walk for one entry: the current log is noticed, a name without a number is
        passed over; a log whose number is that of the last slot or exceeds it is deleted when the
        directory is crowded, and every other one is renamed to the next number or, if that exceeds
        the index, to the index. */
    method VisitEntry(name: string, program: string, count: nat, max: nat, index: nat, foundCurrent: bool)
      returns (failed: bool, index': nat, foundCurrent': bool)
      requires name in files && 1 <= max && index < UINT_RANGE
      modifies this
      ensures !failed && index' < UINT_RANGE
      ensures foundCurrent' == (foundCurrent || name == program + SUFFIX)
      ensures name == program + SUFFIX || NumberOf(program, name) == None ==>
        files == old(files) && index' == index
      ensures name != program + SUFFIX && NumberOf(program, name).Some? ==>
        var number := NumberOf(program, name).value;
        var slot := if number < index then number + 1 else index;
        if number >= max - 1 && count >= max then
          files == old(files) - {name} && index' == slot
        else
          && files == (old(files) - {name})[PREFIX + "_" + Print(slot) + SUFFIX := old(files)[name]]
          && index' == (slot - 1) % UINT_RANGE
      ensures Walk(files, index', foundCurrent')
           == Visit(Walk(old(files), index, foundCurrent), name, program, count, max)
    {
      failed, index', foundCurrent' := false, index, foundCurrent;
      if name == program + SUFFIX {
        foundCurrent' := true;
        return;
      }
      var scanned := NumberOf(program, name);
      if scanned == None {
        return;
      }
      var number := scanned.value;
      if number < index {
        index' := number + 1;
      }
      if number >= max - 1 && count >= max {
        var _ := DeleteFile(name);
        return;
      }
      var renamed := Rename(name, NumberedName(index'));
      failed := !renamed;
      index' := if index' == 0 then UINT_RANGE - 1 else index' - 1;
    }

    /** No rename ever misses its source, whatever the directory holds, so the name of the next
        log is always returned and never the empty string of the error exits. In an orderly
        directory with numbers of one digit the numbered logs move as LogSlots.Rotate says and the
        current log becomes number 1; logs whose numbers exceed the slots are taken into the highest
        slots where these are free, and given up in a crowded directory. */
    method GetNextLogFileName(program: string, entries: seq<string>, max: nat)
      returns (result: string)
      requires program != "" && 1 <= max <= UINT_RANGE
      requires IsListing(entries, files)
      modifies this
      ensures result == CurrentName(program) && result !in files
      ensures files == Rotated(old(files), entries, program, max)
      ensures var c := Call(old(files), entries, program, max); c.Valid() ==> ShiftedInto(c, files)
      ensures var c := Call(old(files), entries, program, max);
              Loose(c) && (c.Crowded() || TopFree(c)) ==> TakenAndShifted(c, files)
    {
      hide NumberedName, Visit, WalkBack, Call.Valid, ShiftedInto, Loose, TopFree, TakenAndShifted;
      ghost var c := Call(files, entries, program, max);
      MeaningOfCall(c);
      result := program + SUFFIX;
      var failed, foundCurrent := false, false;
      var index: nat := max - 1;
      var i: nat := |entries|;
      ghost var goal := WalkBack(Walk(files, index, foundCurrent), entries, i, program, max);
      ListingDistinct(entries, files);
      while i > 0
        invariant i <= |entries| && index < UINT_RANGE
        invariant Pending(Walk(files, index, foundCurrent), entries, i, program)
        invariant goal == WalkBack(Walk(files, index, foundCurrent), entries, i, program, max)
      {
        WalkBackStep(Walk(files, index, foundCurrent), entries, i, program, max);
        i := i - 1;
        VisitKeepsPending(Walk(files, index, foundCurrent), entries, i, program, max);
        failed, index, foundCurrent :=
          VisitEntry(entries[i], program, |entries|, max, index, foundCurrent);
        if failed {
          return "";
        }
      }
      WalkBackEnds(Walk(files, index, foundCurrent), entries, program, max);
      if foundCurrent {
        var renamed := Rename(result, NumberedName(1));
        if !renamed {
          return "";
        }
      }
      CreateFile(result);
      var deleted := DeleteFile(result);
      if !deleted {
        return "";
      }
    }
  }
}

/** The specification of `getNextLogFileName` on values: the backward walk over the sorted listing
    that renumbers the logs, and the move of the current log to slot 1
    (src/client_server/net_server_common_tools.cpp). */
module LogRotation {
  import opened Options
  import opened Decimal
  import opened LogNames

  /** One directory: file names and what the files hold. */
  type Files = map<string, string>

  /** The variables the walk carries. */
  datatype Walk = Walk(files: Files, index: nat, foundCurrent: bool)

  /** `rename`: an existing target is replaced. */
  function Renamed(files: Files, source: string, target: string): Files {
    if source in files then (files - {source})[target := files[source]] else files
  }

  /** `index--` on an `unsigned int`. */
  function Decrement(index: nat): nat {
    if index == 0 then UINT_RANGE - 1 else index - 1
  }

  /** The part of an iteration that follows the extraction of the number: adjust the index, then
      delete or rename. `count` is the number of entries, `max` the maximum number of files. */
  function Place(w: Walk, name: string, number: nat, count: nat, max: nat): Walk
    requires 1 <= max
  {
    var index := if number < w.index then number + 1 else w.index;
    if number >= max - 1 && count >= max then w.(files := w.files - {name}, index := index)
    else w.(files := Renamed(w.files, name, NumberedName(index)), index := Decrement(index))
  }

  /** One iteration. */
  function Visit(w: Walk, name: string, program: string, count: nat, max: nat): Walk
    requires 1 <= max
  {
    if name == CurrentName(program) then w.(foundCurrent := true)
    else match NumberOf(program, name)
      case None => w
      case Some(number) => Place(w, name, number, count, max)
  }

  /** The iterations for the first i entries, last entry first. */
  function WalkBack(w: Walk, entries: seq<string>, i: nat, program: string, max: nat): Walk
    requires i <= |entries| && 1 <= max
    decreases i
  {
    if i == 0 then w
    else WalkBack(Visit(w, entries[i - 1], program, |entries|, max), entries, i - 1, program, max)
  }

  /** After the walk: the current log moves to slot 1; the file of that name is created and
      deleted again to see whether it can be written. */
  function Finish(w: Walk, program: string): Files {
    var moved := if w.foundCurrent then Renamed(w.files, CurrentName(program), NumberedName(1))
                 else w.files;
    moved - {CurrentName(program)}
  }

  /** The directory after one call. */
  function Rotated(files: Files, entries: seq<string>, program: string, max: nat): Files
    requires 1 <= max
  {
    Finish(WalkBack(Walk(files, max - 1, false), entries, |entries|, program, max), program)
  }

  /** The entries still to be visited are distinct files of the directory, and so is the current
      log once it was seen. */
  ghost predicate Pending(w: Walk, entries: seq<string>, i: nat, program: string) {
    && i <= |entries|
    && (forall j, k :: 0 <= j < k < |entries| ==> entries[j] != entries[k])
    && (forall k :: 0 <= k < i ==> entries[k] in w.files)
    && (w.foundCurrent ==> CurrentName(program) in w.files)
  }

  lemma VisitKeepsPending(w: Walk, entries: seq<string>, i: nat, program: string, max: nat)
    requires i < |entries| && 1 <= max
    requires Pending(w, entries, i + 1, program)
    ensures Pending(Visit(w, entries[i], program, |entries|, max), entries, i, program)
  {
  }

  lemma ListingDistinct(entries: seq<string>, files: Files)
    requires IsListing(entries, files)
    ensures forall j, k :: 0 <= j < k < |entries| ==> entries[j] != entries[k]
  {
    forall j, k | 0 <= j < k < |entries|
      ensures entries[j] != entries[k]
    {
      PrecedesAsymmetric(entries[j], entries[k]);
    }
  }
}

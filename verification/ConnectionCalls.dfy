/** The calls of the connection manager over whole runs, each followed from its beginning: a wait or a
    waiting abort returns only when no connection is listed, an abort closes every listed connection,
    and nothing is registered between a stop and the next start (src/net_connection_manager.inl). */
module ConnectionCalls {
  import opened Options
  import opened ConnectionManager

  // ---- Waits and waiting aborts. ----

  /** The thread is in the course of a wait, or of an abort that waits. */
  predicate InCall(p: Thread) {
    p.Checking? || p.Blocked? || p.Signalled? || ((p.Gathering? || p.Closing?) && p.again)
  }

  /** The event begins such a call. */
  predicate Begins(e: Event, t: nat) {
    e == BeginWait(t) || e == BeginAbort(t, true)
  }

  lemma CallBegins(s: State, e: Event, t: nat)
    requires Enabled(s, e) && Begins(e, t)
    ensures Has(Next(s, e), t) && InCall(Next(s, e).threads[t])
  {
    hide Removed, Inserted, TakeToClose;
  }

  /** What other threads do leaves a thread where it is; at most it is woken up. */
  lemma OthersLeaveAlone(s: State, e: Event, t: nat)
    requires Has(s, t) && Enabled(s, e) && Actor(e) != Some(t)
    ensures Has(Next(s, e), t)
    ensures var p := Next(s, e).threads[t];
            p == s.threads[t] || (s.threads[t].Blocked? && p.Signalled? && e.Remove? && s.list != [])
  {
    hide Next, Removed;
    if e.Remove? {
      RemoveIs(s, e.t);
      RemovedThreads(s, e.t, s.threads[e.t].c);
      if s.list == [] {
        RemoveMisses(s, e.t, s.threads[e.t].c);
      }
    } else if e.Insert? {
      InsertAdvances(s, e.t);
    } else if Actor(e).Some? {
      ThreadAdvances(s, e);
    } else {
      OthersAdvance(s, e);
    }
  }

  /** A step of the thread itself goes on with the call, or returns because the list is empty. */
  lemma OwnStepOfCall(s: State, e: Event, t: nat)
    requires Has(s, t) && Enabled(s, e) && Actor(e) == Some(t) && InCall(s.threads[t])
    ensures Has(Next(s, e), t) && Next(s, e).list == s.list
    ensures InCall(Next(s, e).threads[t]) || (Next(s, e).threads[t].Idle? && s.list == [])
  {
    hide Removed, Inserted;
  }

  lemma CallGoesOn(s: State, e: Event, t: nat)
    requires Has(s, t) && Enabled(s, e) && InCall(s.threads[t])
    ensures Has(Next(s, e), t)
    ensures InCall(Next(s, e).threads[t]) || (Next(s, e).threads[t].Idle? && s.list == [] && Next(s, e).list == [])
  {
    hide Next, Enabled;
    if Actor(e) == Some(t) {
      OwnStepOfCall(s, e, t);
    } else {
      OthersLeaveAlone(s, e, t);
    }
  }

  /** Over every run: a call that has returned did so at a moment when the list was empty. */
  lemma {:induction false} CallReturnsAtEmpty(s: State, events: seq<Event>, t: nat) returns (k: nat)
    requires Has(s, t) && InCall(s.threads[t]) && Possible(s, events)
    requires Has(After(s, events), t) ==> !InCall(After(s, events).threads[t])
    ensures k < |events| && Possible(s, events[..k + 1])
    ensures var r := After(s, events[..k + 1]); r.list == [] && Has(r, t) && r.threads[t].Idle?
    decreases events
  {
    hide Next, Enabled, InCall;
    assert events != [];
    var e, rest := events[0], events[1..];
    CallGoesOn(s, e, t);
    if InCall(Next(s, e).threads[t]) {
      k := CallReturnsAtEmpty(Next(s, e), rest, t);
      PrefixSteps(s, events, k + 1, t);
      k := k + 1;
    } else {
      k := 0;
      OneEvent(s, events);
    }
  }

  /** While the manager is stopped: the call goes on, or the list is empty and stays so. */
  lemma {:induction false} CallOrEmpty(s: State, events: seq<Event>, t: nat)
    requires !s.active && Possible(s, events) && NoStart(events) && Has(s, t)
    requires InCall(s.threads[t]) || s.list == []
    ensures var r := After(s, events); Has(r, t) && (InCall(r.threads[t]) || r.list == [])
    decreases events
  {
    hide Next, Enabled, InCall;
    if events != [] {
      var e := events[0];
      StoppedStep(s, e);
      if InCall(s.threads[t]) {
        CallGoesOn(s, e, t);
      } else {
        OneStepHas(s, e, t);
        EmptyStays(s.list, Next(s, e).list);
      }
      CallOrEmpty(Next(s, e), events[1..], t);
    }
  }

  lemma OneStepHas(s: State, e: Event, t: nat)
    requires Has(s, t) && Enabled(s, e)
    ensures Has(Next(s, e), t)
  {
    SameThreads(s, e);
  }

  lemma SameThreads(s: State, e: Event)
    requires Enabled(s, e)
    ensures |Next(s, e).threads| == |s.threads|
  {
    hide Next, Removed;
    if e.Remove? {
      RemoveIs(s, e.t);
      RemovedThreads(s, e.t, s.threads[e.t].c);
    } else if e.Insert? {
      InsertAdvances(s, e.t);
    } else if Actor(e).Some? {
      ThreadAdvances(s, e);
    } else {
      OthersAdvance(s, e);
    }
  }

  lemma EmptyStays(before: seq<Connection>, after: seq<Connection>)
    requires before == [] && multiset(after) <= multiset(before)
    ensures after == []
  {
    assert |multiset(after)| == |after|;
  }

  /** The i-th event of the run stops the manager and none behind it starts it again. */
  predicate StoppedFrom(events: seq<Event>, i: nat) {
    i < |events| && events[i].Stop? && forall k :: i < k < |events| ==> !events[k].Start?
  }

  lemma {:induction false} RunSplits(s: State, events: seq<Event>, m: nat)
    requires Possible(s, events) && m <= |events|
    ensures Possible(s, events[..m]) && Possible(After(s, events[..m]), events[m..])
    ensures After(s, events) == After(After(s, events[..m]), events[m..])
    decreases m
  {
    hide Next, Enabled;
    if m == 0 {
      assert events[..0] == [] && events[0..] == events;
    } else {
      RunSplits(Next(s, events[0]), events[1..], m - 1);
      assert events[..m][1..] == events[1..][..m - 1] && events[1..][m - 1..] == events[m..];
    }
  }

  /** If after a stop a thread begins to wait, or to abort with waiting, and has returned when m events
      have happened, no connection is listed from then on until the next start, whatever the other
      threads do. */
  lemma StopThenWaitDrains(s: State, events: seq<Event>, i: nat, j: nat, m: nat, t: nat)
    requires Possible(s, events) && StoppedFrom(events, i) && i < j < m <= |events| && Begins(events[j], t)
    requires Possible(s, events[..m])
    requires Has(After(s, events[..m]), t) && After(s, events[..m]).threads[t].Idle?
    ensures After(s, events).list == []
  {
    RunSplits(s, events, m);
    var before, after := events[..m], events[m..];
    hide After, Possible, Enabled, Next;
    DrainedByReturn(s, before, i, j, t);
    var r := After(s, before);
    StoppedOnlyShrinks(r, after);
    EmptyStays(r.list, After(r, after).list);
  }

  lemma {:induction false} DrainedByReturn(s: State, events: seq<Event>, i: nat, j: nat, t: nat)
    requires Possible(s, events) && StoppedFrom(events, i) && i < j < |events| && Begins(events[j], t)
    requires Has(After(s, events), t) && After(s, events).threads[t].Idle?
    ensures After(s, events).list == [] && !After(s, events).active
    decreases events
  {
    hide Next, Enabled;
    var e, rest := events[0], events[1..];
    if i > 0 {
      DrainedByReturn(Next(s, e), rest, i - 1, j - 1, t);
    } else {
      assert !Next(s, e).active by { StopIs(s); }
      assert NoStart(rest);
      CallWhileStopped(Next(s, e), rest, j - 1, t);
      StoppedOnlyShrinks(Next(s, e), rest);
    }
  }

  lemma StopIs(s: State)
    ensures !Next(s, Stop).active
  {
  }

  lemma {:induction false} CallWhileStopped(s: State, events: seq<Event>, j: nat, t: nat)
    requires !s.active && Possible(s, events) && NoStart(events) && j < |events| && Begins(events[j], t)
    requires Has(After(s, events), t) && !InCall(After(s, events).threads[t])
    ensures After(s, events).list == []
    decreases events
  {
    hide Next, Enabled, InCall;
    var e, rest := events[0], events[1..];
    StoppedStep(s, e);
    if j == 0 {
      CallBegins(s, e, t);
      CallOrEmpty(Next(s, e), rest, t);
    } else {
      CallWhileStopped(Next(s, e), rest, j - 1, t);
    }
  }

  /** A waiting thread does not spin: it is blocked until a deregistration takes the last connection off
      the list. */
  lemma {:induction false} BlockedUntilEmptied(s: State, events: seq<Event>, t: nat)
    requires Has(s, t) && s.threads[t].Blocked? && Possible(s, events)
    requires forall k :: 0 <= k < |events| ==> !events[k].Remove?
    ensures Has(After(s, events), t) && After(s, events).threads[t].Blocked?
    decreases events
  {
    hide Next;
    if events != [] {
      assert Actor(events[0]) != Some(t) by { BlockedDoesNothing(s, events[0], t); }
      OthersLeaveAlone(s, events[0], t);
      BlockedUntilEmptied(Next(s, events[0]), events[1..], t);
    }
  }

  lemma BlockedDoesNothing(s: State, e: Event, t: nat)
    requires Has(s, t) && s.threads[t].Blocked? && Enabled(s, e)
    ensures Actor(e) != Some(t)
  {
  }

  /** The check of a wait returns if the list is empty and blocks otherwise. */
  lemma CheckDecides(s: State, t: nat)
    requires Enabled(s, CheckWait(t))
    ensures Next(s, CheckWait(t)) == s.(threads := s.threads[t := if s.list == [] then Idle else Blocked])
  {
  }

  // ---- Start and stop. ----

  /** Whether registrations are accepted is decided by the last start or stop of the run. */
  lemma {:induction false} LastSwitchDecides(s: State, events: seq<Event>)
    requires Possible(s, events)
    ensures After(s, events).active <==>
      (exists k :: 0 <= k < |events| && events[k].Start? && NoStop(events[k..])) || (s.active && NoStop(events))
    decreases events
  {
    hide Next, Enabled;
    if events != [] {
      var e, rest := events[0], events[1..];
      LastSwitchDecides(Next(s, e), rest);
      SwitchStep(s, e);
      assert events[0..] == events;
      assert NoStop(events) <==> !e.Stop? && NoStop(rest) by { assert events == [e] + rest; }
      forall k | 0 <= k < |rest|
        ensures events[k + 1] == rest[k] && events[k + 1..] == rest[k..]
      {
      }
      if k :| 0 <= k < |rest| && rest[k].Start? && NoStop(rest[k..]) {
        assert events[k + 1].Start? && NoStop(events[k + 1..]);
      }
      if k :| 0 <= k < |events| && events[k].Start? && NoStop(events[k..]) {
        assert k > 0 ==> rest[k - 1].Start? && NoStop(rest[k - 1..]);
      }
    }
  }

  predicate NoStop(events: seq<Event>) {
    forall k :: 0 <= k < |events| ==> !events[k].Stop?
  }

  lemma SwitchStep(s: State, e: Event)
    requires Enabled(s, e)
    ensures Next(s, e).active == (e.Start? || (s.active && !e.Stop?))
  {
    hide Find, Awaken;
  }

  /** A registration is accepted exactly when the manager is active and the list has not reached the
      maximum; then the connection is appended and the manager takes a reference to it. */
  lemma InsertExactly(s: State, t: nat)
    requires Enabled(s, Insert(t))
    ensures var c, s', accepted := s.threads[t].c, Next(s, Insert(t)), s.active && |s.list| < s.max;
            && s'.threads == s.threads[t := Storing(c, accepted)]
            && s'.list == (if accepted then s.list + [c] else s.list)
            && s'.references == (if accepted then s.references + multiset{c} else s.references)
  {
  }

  /** So after a stop no registration is accepted until the next start. */
  lemma NoRegistrationAfterStop(s: State, events: seq<Event>, i: nat, t: nat)
    requires Possible(s, events) && StoppedFrom(events, i) && Enabled(After(s, events), Insert(t))
    ensures var r := After(s, events);
            Next(r, Insert(t)) == r.(threads := r.threads[t := Storing(r.threads[t].c, false)])
  {
    LastSwitchDecides(s, events);
    assert !After(s, events).active by {
      assert !NoStop(events);
      forall k | 0 <= k < |events| && events[k].Start?
        ensures !NoStop(events[k..])
      {
        assert events[k..][i - k] == events[i];
      }
    }
    hide After, Possible;
  }

  /** A removal takes the first occurrence off the list and gives back its reference; the last one wakes
      every blocked thread. */
  lemma RemoveExactly(s: State, t: nat) returns (i: nat)
    requires Enabled(s, Remove(t))
    ensures var c, s' := s.threads[t].c, Next(s, Remove(t));
            if c in s.list then
              && i < |s.list| && s.list[i] == c && c !in s.list[..i]
              && s'.list == s.list[..i] + s.list[i + 1..] && s'.references == s.references - multiset{c}
              && s'.threads == if |s.list| == 1 then Awaken(s.threads[t := Idle]) else s.threads[t := Idle]
            else s' == s.(threads := s.threads[t := Idle])
  {
    var c := s.threads[t].c;
    i := Find(s.list, c);
    FindIsFirst(s.list, c);
    hide Find;
  }

  lemma {:induction false} FindIsFirst(list: seq<Connection>, c: Connection)
    ensures c !in list[..Find(list, c)]
  {
    if list != [] && list[0] != c {
      FindIsFirst(list[1..], c);
      assert list[..Find(list, c)] == [list[0]] + list[1..][..Find(list[1..], c)];
    }
  }

  // ---- Aborts. ----

  /** What thread t closes during the run, in this order. */
  function ClosedBy(s: State, events: seq<Event>, t: nat): seq<Connection>
    requires Possible(s, events)
    decreases events
  {
    if events == [] then []
    else (if events[0] == CloseNext(t) then [s.threads[t].todo[0]] else [])
         + ClosedBy(Next(s, events[0]), events[1..], t)
  }

  /** How often thread t closes a connection during the run. */
  function Closings(events: seq<Event>, t: nat): nat {
    if events == [] then 0 else (if events[0] == CloseNext(t) then 1 else 0) + Closings(events[1..], t)
  }

  /** As long as the thread has something to close, it closes from the front of what it took. */
  lemma {:induction false} ClosesInOrder(s: State, events: seq<Event>, t: nat)
    requires Has(s, t) && s.threads[t].Closing? && Possible(s, events)
    requires Closings(events, t) <= |s.threads[t].todo|
    requires forall k :: 0 <= k < |events| ==> events[k] != EndClosing(t)
    ensures var p, n := s.threads[t], Closings(events, t);
            && ClosedBy(s, events, t) == p.todo[..n]
            && Has(After(s, events), t) && After(s, events).threads[t] == p.(todo := p.todo[n..])
    decreases events
  {
    hide Next, Enabled;
    if events != [] {
      var e, p := events[0], s.threads[t];
      ClosingStep(s, e, t);
      ClosesInOrder(Next(s, e), events[1..], t);
      if e == CloseNext(t) {
        var n := Closings(events[1..], t);
        assert [p.todo[0]] + p.todo[1..][..n] == p.todo[..n + 1];
        assert p.todo[1..][n..] == p.todo[n + 1..];
      }
    }
  }

  lemma ClosingStep(s: State, e: Event, t: nat)
    requires Has(s, t) && s.threads[t].Closing? && Enabled(s, e) && e != EndClosing(t)
    ensures var p := s.threads[t];
            && Has(Next(s, e), t)
            && (e == CloseNext(t) ==> p.todo != [])
            && Next(s, e).threads[t] == if e == CloseNext(t) then p.(todo := p.todo[1..]) else p
  {
    if Actor(e) == Some(t) {
      assert e == CloseNext(t);
    } else {
      OthersLeaveAlone(s, e, t);
      hide Next, Enabled;
    }
  }

  /** An abort takes a reference to every connection listed when it gathers them. Whatever the other
      threads do, it closes exactly these, each as often as it was listed and in their order, and then
      has nothing left to close. */
  lemma AbortClosesListed(s: State, events: seq<Event>, t: nat)
    requires Enabled(s, Gather(t)) && s.list != []
    requires Possible(Next(s, Gather(t)), events) && Closings(events, t) == |s.list|
    requires forall k :: 0 <= k < |events| ==> events[k] != EndClosing(t)
    ensures Next(s, Gather(t)).references == s.references + multiset(s.list)
    ensures ClosedBy(Next(s, Gather(t)), events, t) == s.list
    ensures var r := After(Next(s, Gather(t)), events);
            Has(r, t) && r.threads[t] == Closing([], s.threads[t].again)
  {
    GatherIs(s, t);
    hide Next, Enabled, After, Possible, ClosedBy, Closings;
    var g := Next(s, Gather(t));
    ClosesInOrder(g, events, t);
    WholeList(s.list);
  }

  lemma WholeList(list: seq<Connection>)
    ensures list[..|list|] == list && list[|list|..] == []
  {
  }

  lemma GatherIs(s: State, t: nat)
    requires Enabled(s, Gather(t)) && s.list != []
    ensures var g := Next(s, Gather(t));
            && Has(g, t) && g.threads[t] == Closing(s.list, s.threads[t].again)
            && g.references == s.references + multiset(s.list)
  {
  }

  /** When nothing is left to close an abort that waits starts over, any other returns. */
  lemma ClosingEnds(s: State, t: nat)
    requires Has(s, t) && s.threads[t].Closing? && s.threads[t].todo == []
    ensures Enabled(s, EndClosing(t)) && !Enabled(s, CloseNext(t))
    ensures Next(s, EndClosing(t)).threads[t] == if s.threads[t].again then Gathering(true) else Idle
  {
  }

  /** An abort that is asked not to wait gathers once; any abort returns at once from an empty list. */
  lemma AbortGathers(s: State, t: nat, wait: bool)
    requires Enabled(s, BeginAbort(t, wait))
    ensures var g := Next(s, BeginAbort(t, wait));
            && g == s.(threads := s.threads[t := Gathering(wait)]) && Enabled(g, Gather(t))
            && (s.list == [] ==> Next(g, Gather(t)).threads[t] == Idle)
  {
  }

  // ---- What else the events do. ----

  /** The one step a thread can take that is in the middle of something. */
  function StepOf(p: Thread, t: nat): Event
    requires !p.Idle? && !p.Blocked?
  {
    match p
    case Registering(_) => Insert(t)
    case Storing(_, _) => StoreFlag(t)
    case Clearing(_) => ClearFlag(t)
    case Leaving(_) => Remove(t)
    case Checking => CheckWait(t)
    case Signalled => WakeUp(t)
    case Gathering(_) => Gather(t)
    case Closing(todo, _) => if todo == [] then EndClosing(t) else CloseNext(t)
  }

  /** Nobody is stuck except on a wait for a list that is not empty: a thread in the middle of something
      has exactly one step to take, a blocked one none, an idle one may begin any call. */
  lemma StepsAreForced(s: State, e: Event, t: nat)
    requires Has(s, t) && Actor(e) == Some(t)
    ensures !s.threads[t].Idle? ==>
      (Enabled(s, e) <==> !s.threads[t].Blocked? && e == StepOf(s.threads[t], t))
    ensures s.threads[t].Idle? ==> (Enabled(s, e) <==>
      || e.BeginWait? || e.BeginAbort? || e.AbortLeastRecent? || e.AbortMostRecent?
      || (e.TestFlag? && e.c in s.references)
      || (e.BeginRegister? && e.c in s.external && e.c !in s.registered))
  {
  }

  /** Only its own events change the list, the limit, or whether the manager is active. */
  lemma OnlyTheirEvents(s: State, e: Event)
    requires Enabled(s, e)
    ensures Next(s, e).list != s.list ==> e.Insert? || e.Remove?
    ensures Next(s, e).max == if e.Initialize? then e.max else s.max
    ensures Next(s, e).active != s.active ==> e.Start? || e.Stop?
  {
    SwitchStep(s, e);
    EventKeepsLimit(s, e);
    hide Next, Enabled;
    if !e.Insert? && !e.Remove? {
      KeepsList(s, e);
    }
  }

  /** A flag is set by the answer to a registration, and cleared by a refusal, by a deregistration that
      found it set, and in a new connection. */
  lemma FlagExactly(s: State, e: Event, c: Connection)
    requires Enabled(s, e)
    ensures c in Next(s, e).registered <==>
      if e.StoreFlag? && s.threads[e.t].c == c then s.threads[e.t].accepted
      else c in s.registered && !(e.Create? && e.c == c) && !(e.ClearFlag? && s.threads[e.t].c == c)
  {
    hide Find, Awaken;
  }

  /** The references of other code: an index gives one to the connection at that position of the list, a
      registration borrows one and gives it back. */
  lemma ExternalExactly(s: State, e: Event, c: Connection)
    requires Enabled(s, e)
    ensures Next(s, e).external[c] == s.external[c] + (if Gains(s, e, c) then 1 else 0) - (if Loses(e, c) then 1 else 0)
  {
    hide Find, Awaken;
    if Actor(e).Some? {
      ExternalOfThreads(s, e, c);
    }
  }

  /** Other code gets a reference to c. */
  predicate Gains(s: State, e: Event, c: Connection)
    requires Enabled(s, e)
  {
    || (e.Create? && e.c == c) || (e.Acquire? && e.c == c) || (e.Get? && s.list[e.index] == c)
    || (e.StoreFlag? && s.threads[e.t].c == c)
  }

  /** Other code gives up a reference to c, or lends it. */
  predicate Loses(e: Event, c: Connection) {
    (e.Release? && e.c == c) || (e.BeginRegister? && e.c == c)
  }

  lemma ExternalOfThreads(s: State, e: Event, c: Connection)
    requires Enabled(s, e) && Actor(e).Some?
    ensures Next(s, e).external[c] == s.external[c] + (if Gains(s, e, c) then 1 else 0) - (if Loses(e, c) then 1 else 0)
  {
    if e.Remove? {
      RemoveIs(s, e.t);
      hide Removed, Next;
      RemovedFields(s, e.t, s.threads[e.t].c);
    } else {
      hide Removed;
    }
  }
}

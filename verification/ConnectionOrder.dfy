/** The list of connections stays in the order of registration, which decides what the two single
    aborts take (src/net_connection_manager.inl). */
module ConnectionOrder {
  import opened ConnectionManager

  /** The connection the event puts on the list, if it does. */
  function Accepted(s: State, e: Event): (c: seq<Connection>)
    requires Enabled(s, e)
    ensures |c| <= 1
  {
    if e.Insert? && Accepts(s) then [s.threads[e.t].c] else []
  }

  /** The connections that were accepted during a run, oldest first. */
  function Registrations(s: State, events: seq<Event>): seq<Connection>
    requires Possible(s, events)
    decreases events
  {
    if events == [] then []
    else Accepted(s, events[0]) + Registrations(Next(s, events[0]), events[1..])
  }

  /** The list is made of the registrations at the positions `at`, oldest first. */
  predicate InOrder(list: seq<Connection>, registrations: seq<Connection>, at: seq<nat>) {
    && |at| == |list|
    && (forall k :: 0 <= k < |at| ==> at[k] < |registrations| && list[k] == registrations[at[k]])
    && forall j, k :: 0 <= j < k < |at| ==> at[j] < at[k]
  }

  lemma EventKeepsOrder(s: State, e: Event, past: seq<Connection>, at: seq<nat>) returns (at': seq<nat>)
    requires Enabled(s, e) && InOrder(s.list, past, at)
    ensures InOrder(Next(s, e).list, past + Accepted(s, e), at')
  {
    hide InOrder, Removed, Next;
    var c := Accepted(s, e);
    assert c == [] ==> past + c == past;
    if e.Remove? {
      RemoveIs(s, e.t);
      at' := RemovalKeepsOrder(s, e.t, past, at);
    } else {
      ListAfter(s, e);
      at' := at;
      if c != [] {
        at' := at + [|past|];
        assert c == [c[0]];
        AdditionKeepsOrder(s.list, c[0], past, at);
      }
    }
  }

  /** Only an insertion and a removal change the list. */
  lemma ListAfter(s: State, e: Event)
    requires Enabled(s, e) && !e.Remove?
    ensures Next(s, e).list == if Accepted(s, e) != [] then s.list + Accepted(s, e) else s.list
  {
    if e.Insert? {
      InsertIs(s, e.t);
    } else {
      hide Inserted, Removed;
    }
  }

  lemma AdditionKeepsOrder(list: seq<Connection>, c: Connection, past: seq<Connection>, at: seq<nat>)
    requires InOrder(list, past, at)
    ensures InOrder(list + [c], past + [c], at + [|past|])
  {
  }

  lemma RemovalKeepsOrder(s: State, t: nat, past: seq<Connection>, at: seq<nat>) returns (at': seq<nat>)
    requires Enabled(s, Remove(t)) && InOrder(s.list, past, at)
    ensures InOrder(Removed(s, t, s.threads[t].c).list, past, at')
  {
    hide InOrder;
    var i := Find(s.list, s.threads[t].c);
    if i == |s.list| {
      at' := at;
    } else {
      at' := RemovalAt(s.list, past, at, i);
    }
  }

  lemma RemovalAt(list: seq<Connection>, past: seq<Connection>, at: seq<nat>, i: nat) returns (at': seq<nat>)
    requires i < |list| && InOrder(list, past, at)
    ensures InOrder(list[..i] + list[i + 1..], past, at')
  {
    at' := at[..i] + at[i + 1..];
  }

  lemma {:induction false} RunKeepsOrder(s: State, events: seq<Event>, past: seq<Connection>, at: seq<nat>)
    returns (at': seq<nat>)
    requires Possible(s, events) && InOrder(s.list, past, at)
    ensures InOrder(After(s, events).list, past + Registrations(s, events), at')
    decreases events
  {
    hide InOrder, Enabled, Next;
    if events == [] {
      at' := at;
      assert past + [] == past;
    } else {
      var e := events[0];
      var now := Accepted(s, e);
      at' := EventKeepsOrder(s, e, past, at);
      at' := RunKeepsOrder(Next(s, e), events[1..], past + now, at');
      assert past + (now + Registrations(Next(s, e), events[1..]))
          == past + now + Registrations(Next(s, e), events[1..]);
    }
  }

  /** Over every run from an empty list, the list is in the order of registration; aborting the
      least recent one takes a reference to the oldest registration still listed and goes on to
      close it, aborting the most recent one does so for the youngest. */
  lemma AbortsFollowRegistration(s: State, events: seq<Event>, t: nat) returns (at: seq<nat>)
    requires s.list == [] && Possible(s, events)
    requires var r := After(s, events); t < |r.threads| && r.threads[t].Idle? && r.list != []
    ensures var r, all := After(s, events), Registrations(s, events);
            && InOrder(r.list, all, at)
            && (forall k :: 0 <= k < |at| ==> at[0] <= at[k] <= at[|at| - 1])
            && TakesToClose(r, AbortLeastRecent(t), t, all[at[0]])
            && TakesToClose(r, AbortMostRecent(t), t, all[at[|at| - 1]])
  {
    hide After, Registrations, Possible, Next, TakesToClose;
    at := RunKeepsOrder(s, events, [], []);
    assert [] + Registrations(s, events) == Registrations(s, events);
    EndsAreTaken(After(s, events), t);
  }

  /** The event makes an idle thread hold a reference to c and be about to close it, and changes
      nothing else. */
  predicate TakesToClose(s: State, e: Event, t: nat, c: Connection)
    requires Enabled(s, e)
  {
    && t < |s.threads|
    && Next(s, e) == s.(references := s.references + multiset{c}, threads := s.threads[t := Closing([c], false)])
  }

  lemma EndsAreTaken(s: State, t: nat)
    requires t < |s.threads| && s.threads[t].Idle? && s.list != []
    ensures TakesToClose(s, AbortLeastRecent(t), t, s.list[0])
    ensures TakesToClose(s, AbortMostRecent(t), t, s.list[|s.list| - 1])
  {
  }
}

/** The list of connections and the flags of the connections
    (src/net_connection_base.inl, src/net_connection_manager.inl). Neither the test of a flag and the
    write that follows it, nor the write and the change of the list that goes with it, is one step.
    How far flags and list agree depends on which activities of a connection overlap. */
module ConnectionRegistration {
  import opened Options
  import opened ConnectionManager
  import opened ConnectionCalls

  // ---- The account of the list. ----

  /** Whether a thread has changed the flag or the list for c and not yet the other. */
  function Owes(c: Connection): Thread -> nat {
    (p: Thread) => if (p.Leaving? || (p.Storing? && p.accepted)) && p.c == c then 1 else 0
  }

  /** The list holds a connection once if its flag is set, and once more for each registration whose
      flag is still to be stored and each deregistration that has still to remove it. */
  ghost predicate Listed(s: State, c: Connection) {
    multiset(s.list)[c] == (if c in s.registered then 1 else 0) + Total(Owes(c), s.threads)
  }

  ghost predicate AllListed(s: State) {
    forall c :: Listed(s, c)
  }

  /** The connection whose flag the event writes although it is no longer as its activity found it
      when it tested it. */
  function Overtaken(s: State, e: Event): Option<Connection>
    requires Enabled(s, e)
  {
    if e.StoreFlag? && s.threads[e.t].c in s.registered then Some(s.threads[e.t].c)
    else if e.ClearFlag? && s.threads[e.t].c !in s.registered then Some(s.threads[e.t].c)
    else None
  }

  /** A deregistration finds its connection. */
  lemma DeregistrationFinds(s: State, t: nat)
    requires Enabled(s, Remove(t)) && Listed(s, s.threads[t].c)
    ensures s.threads[t].c in s.list
  {
    var c := s.threads[t].c;
    TotalUpdate(Owes(c), s.threads, t, Idle);
    assert multiset(s.list)[c] >= 1;
    assert c in multiset(s.list);
  }

  /** A thread moves on: the account is kept if and only if what it owes changes with the flag. */
  lemma MoveListed(s: State, t: nat, p: Thread, registered: set<Connection>, c: Connection)
    requires Has(s, t) && Listed(s, c)
    ensures var flag, flag' := if c in s.registered then 1 else 0, if c in registered then 1 else 0;
            Listed(WithThread(s, t, p).(registered := registered), c) <==>
            flag' + Owes(c)(p) == flag + Owes(c)(s.threads[t])
  {
    hide Total, Owes;
    TotalUpdate(Owes(c), s.threads, t, p);
  }

  /** The account looks at the list, the flags and the threads only. */
  lemma ListedDependsOn(s: State, s': State, c: Connection)
    requires s'.list == s.list && s'.registered == s.registered && s'.threads == s.threads
    ensures Listed(s', c) <==> Listed(s, c)
  {
  }

  lemma RemoveListed(s: State, t: nat, c: Connection)
    requires Enabled(s, Remove(t)) && Listed(s, c) && Listed(s, s.threads[t].c)
    ensures Listed(Removed(s, t, s.threads[t].c), c)
  {
    hide Total, Removed;
    DeregistrationFinds(s, t);
    RemovedTotal(Owes(c), s, t, s.threads[t].c);
    RemovedList(s, t, s.threads[t].c, c);
    RemovedFields(s, t, s.threads[t].c);
  }

  lemma InsertListed(s: State, t: nat, c: Connection)
    requires Enabled(s, Insert(t)) && Listed(s, c)
    ensures Listed(Inserted(s, t, s.threads[t].c), c)
  {
    hide Total;
    var d := s.threads[t].c;
    TotalUpdate(Owes(c), s.threads, t, Storing(d, Accepts(s)));
    AppendCounts(s.list, d, c);
  }

  /** A new connection is neither listed nor, by the account, flagged. */
  lemma CreateListed(s: State, d: Connection, c: Connection)
    requires Enabled(s, Create(d)) && Accounted(s, d) && Listed(s, d) && Listed(s, c)
    ensures Listed(Next(s, Create(d)), c)
  {
    hide Total, Holds, Owes;
    assert d !in s.registered;
  }

  /** The events that write flags. */
  lemma WriteListed(s: State, e: Event, c: Connection)
    requires (e.StoreFlag? || e.ClearFlag?) && Enabled(s, e) && Listed(s, c)
    ensures Listed(Next(s, e), c) <==> Overtaken(s, e) != Some(c)
  {
    hide Listed;
    var s', p := Next(s, e), if e.StoreFlag? then Idle else Leaving(s.threads[e.t].c);
    MoveListed(s, e.t, p, s'.registered, c);
    ListedDependsOn(WithThread(s, e.t, p).(registered := s'.registered), s', c);
  }

  /** The thread is not between a write of a flag and a change of the list. */
  predicate Quiet(p: Thread) {
    !p.Leaving? && !p.Storing?
  }

  lemma QuietMove(s: State, t: nat, p: Thread,
                  references: multiset<Connection>, external: multiset<Connection>, c: Connection)
    requires Has(s, t) && Listed(s, c) && Quiet(p) && Quiet(s.threads[t])
    ensures Listed(WithThread(s, t, p).(references := references, external := external), c)
  {
    hide Listed;
    MoveListed(s, t, p, s.registered, c);
    ListedDependsOn(WithThread(s, t, p).(registered := s.registered),
                    WithThread(s, t, p).(references := references, external := external), c);
  }

  /** The steps of a thread that write no flag and do not change the list. */
  lemma StepListed(s: State, e: Event, c: Connection)
    requires Enabled(s, e) && Listed(s, c) && Actor(e).Some?
    requires !e.Insert? && !e.Remove? && !e.StoreFlag? && !e.ClearFlag?
    ensures Listed(Next(s, e), c)
  {
    hide Listed, Inserted, Removed;
    match e
    case BeginRegister(t, d) => QuietMove(s, t, Registering(d), s.references, s.external - multiset{d}, c);
    case TestFlag(t, d) => QuietMove(s, t, Clearing(d), s.references, s.external, c);
    case BeginWait(t) => QuietMove(s, t, Checking, s.references, s.external, c);
    case CheckWait(t) => QuietMove(s, t, if s.list == [] then Idle else Blocked, s.references, s.external, c);
    case WakeUp(t) => QuietMove(s, t, Checking, s.references, s.external, c);
    case BeginAbort(t, wait) => QuietMove(s, t, Gathering(wait), s.references, s.external, c);
    case Gather(t) =>
      QuietMove(s, t, Idle, s.references, s.external, c);
      QuietTake(s, t, s.list, s.threads[t].again, c);
    case AbortLeastRecent(t) =>
      if s.list != [] {
        QuietTake(s, t, [s.list[0]], false, c);
      }
    case AbortMostRecent(t) =>
      if s.list != [] {
        QuietTake(s, t, [s.list[|s.list| - 1]], false, c);
      }
    case CloseNext(t) =>
      var p := s.threads[t];
      QuietMove(s, t, p.(todo := p.todo[1..]), s.references - multiset{p.todo[0]}, s.external, c);
    case EndClosing(t) =>
      QuietMove(s, t, if s.threads[t].again then Gathering(true) else Idle, s.references, s.external, c);
    case _ => assert false;
  }

  lemma QuietTake(s: State, t: nat, todo: seq<Connection>, again: bool, c: Connection)
    requires Has(s, t) && Listed(s, c) && Quiet(s.threads[t])
    ensures Listed(TakeToClose(s, t, todo, again), c)
  {
    hide Listed;
    QuietMove(s, t, Closing(todo, again), s.references + multiset(todo), s.external, c);
  }

  lemma OtherListed(s: State, e: Event, c: Connection)
    requires Enabled(s, e) && Listed(s, c) && Actor(e) == None && !e.Create?
    ensures Listed(Next(s, e), c)
  {
    hide Listed;
    ListedDependsOn(s, Next(s, e), c);
  }

  /** Every event keeps the account of every connection, except that a write that does not find the
      flag as tested breaks that of its connection. */
  lemma EventListed(s: State, e: Event, c: Connection)
    requires Enabled(s, e) && AllListed(s) && Invariant(s)
    ensures Listed(Next(s, e), c) <==> Overtaken(s, e) != Some(c)
  {
    hide Listed, Next, Inserted, Removed, Invariant;
    assert Listed(s, c);
    if e.Create? {
      InvariantParts(s, e.c);
      assert Listed(s, e.c);
      CreateListed(s, e.c, c);
    } else if e.Insert? {
      InsertListed(s, e.t, c);
      assert Next(s, e) == Inserted(s, e.t, s.threads[e.t].c) by { InsertIs(s, e.t); }
    } else if e.Remove? {
      assert Listed(s, s.threads[e.t].c);
      RemoveListed(s, e.t, c);
      RemoveIs(s, e.t);
    } else if e.StoreFlag? || e.ClearFlag? {
      WriteListed(s, e, c);
    } else if Actor(e).Some? {
      StepListed(s, e, c);
    } else {
      OtherListed(s, e, c);
    }
  }

  /** One event keeps the account if and only if it writes no flag or finds it as tested. */
  lemma EventKeepsList(s: State, e: Event)
    requires Invariant(s) && AllListed(s) && Enabled(s, e)
    ensures AllListed(Next(s, e)) <==> Overtaken(s, e) == None
  {
    hide Listed, Next, Invariant, Enabled;
    forall c: nat
      ensures Listed(Next(s, e), c) <==> Overtaken(s, e) != Some(c)
    {
      EventListed(s, e, c);
    }
    if Overtaken(s, e).Some? {
      assert !Listed(Next(s, e), Overtaken(s, e).value);
    }
  }

  /** The account holds before, during and after the run. */
  ghost predicate AlwaysListed(s: State, events: seq<Event>)
    requires Possible(s, events)
    decreases events
  {
    AllListed(s) && (events == [] || AlwaysListed(Next(s, events[0]), events[1..]))
  }

  /** Every write of the run finds the flag as tested. */
  predicate AlwaysAsTested(s: State, events: seq<Event>)
    requires Possible(s, events)
    decreases events
  {
    events == [] || (Overtaken(s, events[0]) == None && AlwaysAsTested(Next(s, events[0]), events[1..]))
  }

  lemma {:induction false} RunKeepsListFrom(s: State, events: seq<Event>)
    requires Invariant(s) && AllListed(s) && Possible(s, events)
    ensures AlwaysListed(s, events) <==> AlwaysAsTested(s, events)
    decreases events
  {
    hide Listed, Next, Invariant, Enabled, AllListed, Overtaken;
    if events != [] {
      var s' := Next(s, events[0]);
      EventKeepsList(s, events[0]);
      EventKeepsInvariant(s, events[0]);
      if AllListed(s') {
        RunKeepsListFrom(s', events[1..]);
      } else {
        NeverListed(s', events[1..]);
      }
    }
  }

  lemma NeverListed(s: State, events: seq<Event>)
    requires Possible(s, events) && !AllListed(s)
    ensures !AlwaysListed(s, events)
  {
    hide AllListed;
  }

  /** For each single run: flags and list agree at every moment, up to the activities that are under
      way, if and only if no write of a flag is overtaken by another after its test. */
  lemma RunKeepsListExactly(s: State, events: seq<Event>)
    requires Initial(s) && Possible(s, events)
    ensures AlwaysListed(s, events) <==> AlwaysAsTested(s, events)
  {
    InitialInvariant(s);
    InitialListed(s);
    RunKeepsListFrom(s, events);
  }

  // ---- Which activities may overlap. ----

  /** The activities that change the flag of a connection or its place on the list. */
  datatype Activity = Registration | Deregistration

  /** The first activity is under way when the second begins. */
  datatype Overlap = Overlap(running: Activity, beginning: Activity)

  /** The connection an activity of the thread is about. */
  function Subject(p: Thread): Option<Connection> {
    if p.Registering? || p.Storing? || p.Clearing? || p.Leaving? then Some(p.c) else None
  }

  function Kind(p: Thread): Activity {
    if p.Registering? || p.Storing? then Registration else Deregistration
  }

  /** What a caller can control: the event begins no activity on a connection while another is under
      way, unless this overlap is allowed. */
  predicate Respects(allowed: set<Overlap>, s: State, e: Event) {
    (e.BeginRegister? || e.TestFlag?) ==>
      var begins := if e.BeginRegister? then Registration else Deregistration;
      forall u :: 0 <= u < |s.threads| && Subject(s.threads[u]) == Some(e.c) ==>
        Overlap(Kind(s.threads[u]), begins) in allowed
  }

  predicate AlwaysRespects(allowed: set<Overlap>, s: State, events: seq<Event>)
    requires Possible(s, events)
    decreases events
  {
    events == [] || (Respects(allowed, s, events[0]) && AlwaysRespects(allowed, Next(s, events[0]), events[1..]))
  }

  /** No connection is on the list twice; those whose flag is set, and those that are being
      deregistered, are on it (hence alive). */
  ghost predicate Sound(s: State) {
    && (forall c :: multiset(s.list)[c] <= 1)
    && (forall c :: c in s.registered ==> c in s.list)
    && (forall t :: 0 <= t < |s.threads| && (s.threads[t].Clearing? || s.threads[t].Leaving?) ==>
          s.threads[t].c in s.list)
  }

  /** A deregistration that finds the flag clear, and therefore does nothing, leaves nothing behind
      on the list. */
  predicate AnswersTruly(s: State, e: Event) {
    e.TestFlag? ==> (e.c in s.registered <==> e.c in s.list)
  }

  ghost predicate AlwaysSound(s: State, events: seq<Event>)
    requires Possible(s, events)
    decreases events
  {
    && Sound(s)
    && (events == [] || (AnswersTruly(s, events[0]) && AlwaysSound(Next(s, events[0]), events[1..])))
  }

  // ---- Without overlaps. ----

  /** At most one thread is active on each connection. */
  ghost predicate Apart(s: State) {
    forall t, u :: 0 <= t < u < |s.threads| && Subject(s.threads[t]).Some? ==>
      Subject(s.threads[t]) != Subject(s.threads[u])
  }

  /** An activity finds the flag as it was when it was tested, or as it wrote it. */
  predicate Agrees(p: Thread, registered: set<Connection>) {
    && (p.Registering? || p.Storing? || p.Leaving? ==> p.c !in registered)
    && (p.Clearing? ==> p.c in registered)
  }

  ghost predicate Coherent(s: State) {
    && Apart(s)
    && forall t :: 0 <= t < |s.threads| ==> Agrees(s.threads[t], s.registered)
  }

  /** Thread t moves on and writes at most the flag of its own connection. */
  lemma MoveCoherent(s: State, t: nat, p: Thread, registered: set<Connection>)
    requires Coherent(s) && Has(s, t) && Agrees(p, registered)
    requires Subject(p) == None || Subject(p) == Subject(s.threads[t])
      || forall u :: 0 <= u < |s.threads| ==> Subject(s.threads[u]) != Subject(p)
    requires forall c :: (c in registered <==> c in s.registered) || Subject(s.threads[t]) == Some(c)
    ensures Coherent(WithThread(s, t, p).(registered := registered))
  {
    var s' := WithThread(s, t, p).(registered := registered);
    forall u | 0 <= u < |s'.threads| && u != t
      ensures Agrees(s'.threads[u], registered)
      ensures Subject(p).Some? ==> Subject(s'.threads[u]) != Subject(p)
    {
      assert s'.threads[u] == s.threads[u];
      if Subject(s.threads[t]).Some? {
        OthersApart(s, t, u);
      }
    }
    forall u, v | 0 <= u < v < |s'.threads| && Subject(s'.threads[u]).Some?
      ensures Subject(s'.threads[u]) != Subject(s'.threads[v])
    {
      if u != t && v != t {
        assert s'.threads[u] == s.threads[u] && s'.threads[v] == s.threads[v];
      }
    }
  }

  lemma OthersApart(s: State, t: nat, u: nat)
    requires Apart(s) && Has(s, t) && Has(s, u) && t != u && Subject(s.threads[t]).Some?
    ensures Subject(s.threads[t]) != Subject(s.threads[u])
  {
    var low, high := if t < u then t else u, if t < u then u else t;
    assert Subject(s.threads[low]).Some? ==> Subject(s.threads[low]) != Subject(s.threads[high]);
  }

  lemma AwakenCoherent(s: State, s': State)
    requires Coherent(s) && s'.registered == s.registered
    requires s'.threads == s.threads || s'.threads == Awaken(s.threads)
    ensures Coherent(s')
  {
    forall u | 0 <= u < |s.threads|
      ensures Subject(s'.threads[u]) == Subject(s.threads[u]) && Agrees(s'.threads[u], s'.registered)
    {
    }
  }

  lemma RemoveCoherent(s: State, t: nat)
    requires Coherent(s) && Enabled(s, Remove(t))
    ensures Coherent(Removed(s, t, s.threads[t].c))
  {
    hide Coherent, Removed;
    RemovedThreads(s, t, s.threads[t].c);
    MoveCoherent(s, t, Idle, s.registered);
    AwakenCoherent(WithThread(s, t, Idle).(registered := s.registered), Removed(s, t, s.threads[t].c));
  }

  /** A thread whose next activity is about no connection. */
  lemma LeaveCoherent(s: State, t: nat, p: Thread, references: multiset<Connection>)
    requires Coherent(s) && Has(s, t) && Subject(p) == None
    ensures Coherent(WithThread(s, t, p).(references := references))
  {
    hide Coherent;
    MoveCoherent(s, t, p, s.registered);
    AwakenCoherent(WithThread(s, t, p).(registered := s.registered), WithThread(s, t, p).(references := references));
  }

  /** The steps of registration and deregistration before the connection leaves the list. */
  lemma ActivityCoherent(s: State, e: Event)
    requires e.BeginRegister? || e.Insert? || e.StoreFlag? || e.TestFlag? || e.ClearFlag?
    requires Coherent(s) && Enabled(s, e) && Respects({}, s, e)
    ensures Coherent(Next(s, e))
  {
    hide Apart;
    var s', t := Next(s, e), e.t;
    if s'.threads != s.threads {
      assert Agrees(s.threads[t], s.registered);
      MoveCoherent(s, t, s'.threads[t], s'.registered);
      AwakenCoherent(WithThread(s, t, s'.threads[t]).(registered := s'.registered), s');
    } else {
      AwakenCoherent(s, s');
    }
  }

  lemma CreateCoherent(s: State, c: Connection)
    requires Coherent(s) && Invariant(s) && AllListed(s) && Enabled(s, Create(c))
    ensures Coherent(Next(s, Create(c)))
  {
    InvariantParts(s, c);
    assert Listed(s, c);
    assert c !in s.registered;
    hide Coherent;
    AwakenCoherent(s, Next(s, Create(c)));
  }

  /** Waiting. */
  lemma WaitingCoherent(s: State, e: Event)
    requires e.BeginWait? || e.CheckWait? || e.WakeUp? || e.BeginAbort?
    requires Coherent(s) && Enabled(s, e)
    ensures Coherent(Next(s, e))
  {
    hide Coherent, Inserted, Removed;
    match e
    case BeginWait(t) => LeaveCoherent(s, t, Checking, s.references);
    case CheckWait(t) => LeaveCoherent(s, t, if s.list == [] then Idle else Blocked, s.references);
    case WakeUp(t) => LeaveCoherent(s, t, Checking, s.references);
    case BeginAbort(t, wait) => LeaveCoherent(s, t, Gathering(wait), s.references);
  }

  lemma TakeCoherent(s: State, t: nat, todo: seq<Connection>, again: bool)
    requires Coherent(s) && Has(s, t)
    ensures Coherent(TakeToClose(s, t, todo, again))
  {
    hide Coherent;
    LeaveCoherent(s, t, Closing(todo, again), s.references + multiset(todo));
  }

  /** Aborting. */
  lemma AbortingCoherent(s: State, e: Event)
    requires e.Gather? || e.AbortLeastRecent? || e.AbortMostRecent? || e.CloseNext? || e.EndClosing?
    requires Coherent(s) && Enabled(s, e)
    ensures Coherent(Next(s, e))
  {
    hide Coherent, Inserted, Removed, TakeToClose;
    match e
    case Gather(t) =>
      LeaveCoherent(s, t, Idle, s.references);
      TakeCoherent(s, t, s.list, s.threads[t].again);
    case AbortLeastRecent(t) =>
      if s.list != [] {
        TakeCoherent(s, t, [s.list[0]], false);
      }
    case AbortMostRecent(t) =>
      if s.list != [] {
        TakeCoherent(s, t, [s.list[|s.list| - 1]], false);
      }
    case CloseNext(t) =>
      var p := s.threads[t];
      LeaveCoherent(s, t, p.(todo := p.todo[1..]), s.references - multiset{p.todo[0]});
    case EndClosing(t) =>
      LeaveCoherent(s, t, Gathering(true), s.references);
      LeaveCoherent(s, t, Idle, s.references);
  }

  lemma OtherEventCoherent(s: State, e: Event)
    requires Coherent(s) && Enabled(s, e) && Actor(e) == None && !e.Create?
    ensures Coherent(Next(s, e))
  {
    hide Coherent;
    AwakenCoherent(s, Next(s, e));
  }

  /** Without overlaps every event keeps the threads apart and the flags as they were tested. */
  lemma EventKeepsCoherent(s: State, e: Event)
    requires Coherent(s) && Invariant(s) && AllListed(s)
    requires Enabled(s, e) && Respects({}, s, e)
    ensures Coherent(Next(s, e)) && Overtaken(s, e) == None
  {
    hide Apart, Next, Invariant, AllListed, Removed, Respects;
    assert e.StoreFlag? || e.ClearFlag? ==> Agrees(s.threads[e.t], s.registered);
    hide Coherent;
    if e.Remove? {
      RemoveCoherent(s, e.t);
      RemoveIs(s, e.t);
    } else if e.Create? {
      CreateCoherent(s, e.c);
    } else if Actor(e) == None {
      OtherEventCoherent(s, e);
    } else if e.BeginRegister? || e.Insert? || e.StoreFlag? || e.TestFlag? || e.ClearFlag? {
      ActivityCoherent(s, e);
    } else if e.BeginWait? || e.CheckWait? || e.WakeUp? || e.BeginAbort? {
      WaitingCoherent(s, e);
    } else {
      AbortingCoherent(s, e);
    }
  }

  lemma {:induction false} TotalOfOne(f: Thread -> nat, threads: seq<Thread>)
    requires forall t :: 0 <= t < |threads| ==> f(threads[t]) <= 1
    requires forall t, u :: 0 <= t < u < |threads| ==> f(threads[t]) == 0 || f(threads[u]) == 0
    ensures Total(f, threads) <= 1
  {
    if threads != [] {
      if f(threads[0]) == 0 {
        TotalOfOne(f, threads[1..]);
      } else {
        TotalOfZeros(f, threads[1..]);
      }
    }
  }

  /** If no thread is active on c the account is exact; otherwise it is still at most one. */
  lemma CoherentCounts(s: State, c: Connection)
    requires Coherent(s) && Listed(s, c)
    ensures multiset(s.list)[c] <= 1
    ensures c in s.registered ==> c in s.list
    ensures (forall u :: 0 <= u < |s.threads| ==> Subject(s.threads[u]) != Some(c)) ==>
      (c in s.registered <==> c in s.list)
  {
    var f := Owes(c);
    forall t | 0 <= t < |s.threads|
      ensures f(s.threads[t]) <= 1
      ensures f(s.threads[t]) == 1 ==> Subject(s.threads[t]) == Some(c) && c !in s.registered
    {
      assert Agrees(s.threads[t], s.registered);
    }
    TotalOfOne(f, s.threads);
    if c in s.registered || forall u :: 0 <= u < |s.threads| ==> Subject(s.threads[u]) != Some(c) {
      TotalOfZeros(f, s.threads);
    }
    assert c in s.list <==> c in multiset(s.list);
  }

  lemma CoherentIsSound(s: State)
    requires Coherent(s) && AllListed(s)
    ensures Sound(s)
  {
    hide Listed;
    forall c: nat
      ensures multiset(s.list)[c] <= 1 && (c in s.registered ==> c in s.list)
    {
      assert Listed(s, c);
      CoherentCounts(s, c);
    }
    forall t | 0 <= t < |s.threads| && (s.threads[t].Clearing? || s.threads[t].Leaving?)
      ensures s.threads[t].c in s.list
    {
      assert Listed(s, s.threads[t].c) && Agrees(s.threads[t], s.registered);
      if s.threads[t].Leaving? {
        DeregistrationFinds(s, t);
      }
    }
  }

  /** Without overlaps the run keeps flags and list together. */
  lemma {:induction false} RunIsSound(s: State, events: seq<Event>)
    requires Coherent(s) && AllListed(s) && Invariant(s)
    requires Possible(s, events) && AlwaysRespects({}, s, events)
    ensures AlwaysSound(s, events)
    ensures Coherent(After(s, events)) && AllListed(After(s, events)) && Invariant(After(s, events))
    decreases events
  {
    hide Coherent, Invariant, Next, Enabled, Sound, Listed;
    CoherentIsSound(s);
    if events != [] {
      var e := events[0];
      EventKeepsCoherent(s, e);
      EventKeepsList(s, e);
      EventKeepsInvariant(s, e);
      if e.TestFlag? {
        assert Listed(s, e.c);
        CoherentCounts(s, e.c);
      }
      RunIsSound(Next(s, e), events[1..]);
    }
  }

  lemma InitialListed(s: State)
    requires Initial(s)
    ensures AllListed(s) && Coherent(s)
  {
    forall c: nat
      ensures Listed(s, c)
    {
      TotalOfZeros(Owes(c), s.threads);
    }
  }

  /** If no activities overlap: when after a stop a thread has begun to wait, or to abort with waiting, and
      has returned, no connection is registered or about to be deregistered from then on until the next
      start. */
  lemma StopThenWaitUnregisters(s: State, events: seq<Event>, i: nat, j: nat, m: nat, t: nat)
    requires Initial(s) && Possible(s, events) && AlwaysRespects({}, s, events)
    requires StoppedFrom(events, i) && i < j < m <= |events| && Begins(events[j], t)
    requires Possible(s, events[..m])
    requires Has(After(s, events[..m]), t) && After(s, events[..m]).threads[t].Idle?
    ensures var r := After(s, events);
      && r.list == [] && r.registered == {}
      && forall u :: 0 <= u < |r.threads| ==> !r.threads[u].Clearing? && !r.threads[u].Leaving?
  {
    InitialInvariant(s);
    InitialListed(s);
    RunIsSound(s, events);
    hide After, Possible, Enabled, Begins, Next, AlwaysRespects, Listed;
    StopThenWaitDrains(s, events, i, j, m, t);
    CoherentIsSound(After(s, events));
  }

  // ---- With overlaps. ----

  /** The run is possible, begins no activity during another unless this overlap is allowed, and
      ends in state r. */
  ghost predicate Leads(allowed: set<Overlap>, s: State, events: seq<Event>, r: State) {
    Possible(s, events) && AlwaysRespects(allowed, s, events) && After(s, events) == r
  }

  lemma {:induction false} OneMore(allowed: set<Overlap>, s: State, events: seq<Event>, r: State, e: Event)
    requires Leads(allowed, s, events, r) && Enabled(r, e) && Respects(allowed, r, e)
    ensures Leads(allowed, s, events + [e], Next(r, e))
    decreases events
  {
    hide Enabled, Next, Respects;
    var all := events + [e];
    if events == [] {
      assert all[0] == e && all[1..] == [];
      LeadsNowhere(allowed, Next(r, e));
    } else {
      assert all[0] == events[0] && all[1..] == events[1..] + [e];
      OneMore(allowed, Next(s, events[0]), events[1..], r, e);
    }
  }

  lemma {:induction false} UnsoundRun(allowed: set<Overlap>, s: State, events: seq<Event>, r: State)
    requires Leads(allowed, s, events, r) && !Sound(r)
    ensures !AlwaysSound(s, events)
    decreases events
  {
    hide Enabled, Next, Respects, Sound;
    if events != [] {
      UnsoundRun(allowed, Next(s, events[0]), events[1..], r);
    }
  }

  lemma {:induction false} UntrueRun(allowed: set<Overlap>, s: State, events: seq<Event>, r: State, e: Event)
    requires Leads(allowed, s, events, r) && Enabled(r, e) && Respects(allowed, r, e) && !AnswersTruly(r, e)
    ensures Leads(allowed, s, events + [e], Next(r, e)) && !AlwaysSound(s, events + [e])
    decreases events
  {
    hide Enabled, Next, Respects, Sound, AnswersTruly;
    OneMore(allowed, s, events, r, e);
    var all := events + [e];
    if events == [] {
      assert all[0] == e;
    } else {
      assert all[0] == events[0] && all[1..] == events[1..] + [e];
      UntrueRun(allowed, Next(s, events[0]), events[1..], r, e);
    }
  }

  lemma LeadsNowhere(allowed: set<Overlap>, s: State)
    ensures Leads(allowed, s, [], s)
  {
  }

  /** A manager that admits two connections and has two threads, in the states of the runs below,
      which are all about connection 1. */
  function Pair(list: seq<Connection>, flag: bool, references: nat, external: nat, p: Thread, q: Thread): State {
    State(list, true, 2, if flag then {1} else {}, multiset{}[1 := references], multiset{}[1 := external], [p, q])
  }

  const START: State := Pair([], false, 0, 0, Idle, Idle)

  lemma Then(allowed: set<Overlap>, events: seq<Event>, r: State, e: Event, r': State)
    requires Leads(allowed, START, events, r)
    requires Enabled(r, e) && Respects(allowed, r, e) && Next(r, e) == r'
    ensures Leads(allowed, START, events + [e], r')
  {
    OneMore(allowed, START, events, r, e);
  }

  /** Thread 0 is asked to register connection 1, which exists and has two owners. */
  const ASKED: seq<Event> := [Create(1)] + [Acquire(1)] + [BeginRegister(0, 1)]

  lemma LeadsToAsked(allowed: set<Overlap>)
    ensures Leads(allowed, START, ASKED, Pair([], false, 2, 1, Registering(1), Idle))
  {
    hide Leads;
    LeadsNowhere(allowed, START);
    Then(allowed, [], START, Create(1), Pair([], false, 1, 1, Idle, Idle));
    assert [] + [Create(1)] == [Create(1)];
    Then(allowed, [Create(1)], Pair([], false, 1, 1, Idle, Idle), Acquire(1), Pair([], false, 2, 2, Idle, Idle));
    Then(allowed, [Create(1)] + [Acquire(1)], Pair([], false, 2, 2, Idle, Idle), BeginRegister(0, 1),
         Pair([], false, 2, 1, Registering(1), Idle));
  }

  const INSERTED: seq<Event> := ASKED + [Insert(0)]
  const REGISTERED: seq<Event> := INSERTED + [StoreFlag(0)]

  lemma LeadsToRegistered(allowed: set<Overlap>)
    ensures Leads(allowed, START, INSERTED, Pair([1], false, 3, 1, Storing(1, true), Idle))
    ensures Leads(allowed, START, REGISTERED, Pair([1], true, 3, 2, Idle, Idle))
  {
    hide Leads;
    LeadsToAsked(allowed);
    Then(allowed, ASKED, Pair([], false, 2, 1, Registering(1), Idle), Insert(0),
         Pair([1], false, 3, 1, Storing(1, true), Idle));
    Then(allowed, INSERTED, Pair([1], false, 3, 1, Storing(1, true), Idle), StoreFlag(0),
         Pair([1], true, 3, 2, Idle, Idle));
  }

  const TWICE_REGISTERED: seq<Event> := ASKED + [BeginRegister(1, 1)] + [Insert(0)] + [Insert(1)]

  /** Two registrations of one connection both find it unregistered and put it on the list twice. */
  lemma RegistrationsOverlap(allowed: set<Overlap>)
    requires Overlap(Registration, Registration) in allowed
    ensures Leads(allowed, START, TWICE_REGISTERED, Pair([1, 1], false, 4, 0, Storing(1, true), Storing(1, true)))
  {
    hide Leads;
    LeadsToAsked(allowed);
    var s0 := Pair([], false, 2, 1, Registering(1), Idle);
    var s1 := Pair([], false, 2, 0, Registering(1), Registering(1));
    var s2 := Pair([1], false, 3, 0, Storing(1, true), Registering(1));
    Then(allowed, ASKED, s0, BeginRegister(1, 1), s1);
    Then(allowed, ASKED + [BeginRegister(1, 1)], s1, Insert(0), s2);
    Then(allowed, ASKED + [BeginRegister(1, 1)] + [Insert(0)], s2, Insert(1),
         Pair([1, 1], false, 4, 0, Storing(1, true), Storing(1, true)));
  }

  /** A deregistration that comes between the insertion and the store of the flag does nothing; the
      connection stays on the list. */
  lemma DeregistrationComesEarly(allowed: set<Overlap>)
    requires Overlap(Registration, Deregistration) in allowed
    ensures var r := Pair([1], false, 3, 1, Storing(1, true), Idle);
            && Leads(allowed, START, INSERTED, r)
            && Enabled(r, TestFlag(1, 1)) && Respects(allowed, r, TestFlag(1, 1))
            && Next(r, TestFlag(1, 1)) == r && !AnswersTruly(r, TestFlag(1, 1))
  {
    LeadsToRegistered(allowed);
  }

  const REGISTERED_AGAIN: seq<Event> :=
    REGISTERED + [TestFlag(0, 1)] + [ClearFlag(0)] + [BeginRegister(1, 1)] + [Insert(1)]

  /** A registration that comes between the clearing of the flag and the removal puts the connection
      on the list a second time. */
  lemma RegistrationComesEarly(allowed: set<Overlap>)
    requires Overlap(Deregistration, Registration) in allowed
    ensures Leads(allowed, START, REGISTERED_AGAIN, Pair([1, 1], false, 4, 1, Leaving(1), Storing(1, true)))
  {
    hide Leads;
    LeadsToRegistered(allowed);
    var s0 := Pair([1], true, 3, 2, Idle, Idle);
    var s1 := Pair([1], true, 3, 2, Clearing(1), Idle);
    var s2 := Pair([1], false, 3, 2, Leaving(1), Idle);
    var s3 := Pair([1], false, 3, 1, Leaving(1), Registering(1));
    Then(allowed, REGISTERED, s0, TestFlag(0, 1), s1);
    Then(allowed, REGISTERED + [TestFlag(0, 1)], s1, ClearFlag(0), s2);
    Then(allowed, REGISTERED + [TestFlag(0, 1)] + [ClearFlag(0)], s2, BeginRegister(1, 1), s3);
    Then(allowed, REGISTERED + [TestFlag(0, 1)] + [ClearFlag(0)] + [BeginRegister(1, 1)], s3, Insert(1),
         Pair([1, 1], false, 4, 1, Leaving(1), Storing(1, true)));
  }

  const ABANDONED: seq<Event> := REGISTERED + [Release(1)] + [Release(1)]
  const TWICE_TESTED: seq<Event> := ABANDONED + [TestFlag(0, 1)] + [TestFlag(1, 1)] + [ClearFlag(0)] + [ClearFlag(1)]
  const TWICE_DEREGISTERED: seq<Event> := TWICE_TESTED + [Remove(0)]

  lemma LeadsToAbandoned(allowed: set<Overlap>)
    ensures Leads(allowed, START, ABANDONED, Pair([1], true, 1, 0, Idle, Idle))
  {
    hide Leads;
    LeadsToRegistered(allowed);
    var s0, s1 := Pair([1], true, 3, 2, Idle, Idle), Pair([1], true, 2, 1, Idle, Idle);
    Then(allowed, REGISTERED, s0, Release(1), s1);
    Then(allowed, REGISTERED + [Release(1)], s1, Release(1), Pair([1], true, 1, 0, Idle, Idle));
  }

  lemma LeadsToTwiceTested(allowed: set<Overlap>)
    requires Overlap(Deregistration, Deregistration) in allowed
    ensures Leads(allowed, START, TWICE_TESTED, Pair([1], false, 1, 0, Leaving(1), Leaving(1)))
  {
    hide Leads;
    LeadsToAbandoned(allowed);
    var s0, s1 := Pair([1], true, 1, 0, Idle, Idle), Pair([1], true, 1, 0, Clearing(1), Idle);
    var s2, s3 := Pair([1], true, 1, 0, Clearing(1), Clearing(1)), Pair([1], false, 1, 0, Leaving(1), Clearing(1));
    Then(allowed, ABANDONED, s0, TestFlag(0, 1), s1);
    Then(allowed, ABANDONED + [TestFlag(0, 1)], s1, TestFlag(1, 1), s2);
    Then(allowed, ABANDONED + [TestFlag(0, 1)] + [TestFlag(1, 1)], s2, ClearFlag(0), s3);
    Then(allowed, ABANDONED + [TestFlag(0, 1)] + [TestFlag(1, 1)] + [ClearFlag(0)], s3, ClearFlag(1),
         Pair([1], false, 1, 0, Leaving(1), Leaving(1)));
  }

  /** Two deregistrations of one connection both find it registered; after the first has removed it,
      the second finds nothing on the list, and the connection is already deleted. */
  lemma DeregistrationsOverlap(allowed: set<Overlap>)
    requires Overlap(Deregistration, Deregistration) in allowed
    ensures var r := Pair([], false, 0, 0, Idle, Leaving(1));
            && Leads(allowed, START, TWICE_DEREGISTERED, r)
            && 1 !in r.list && !Alive(r, 1) && Enabled(r, Remove(1))
  {
    hide Leads;
    LeadsToTwiceTested(allowed);
    RemovesTheLast();
    Then(allowed, TWICE_TESTED, Pair([1], false, 1, 0, Leaving(1), Leaving(1)), Remove(0),
         Pair([], false, 0, 0, Idle, Leaving(1)));
  }

  lemma RemovesTheLast()
    ensures Next(Pair([1], false, 1, 0, Leaving(1), Leaving(1)), Remove(0)) == Pair([], false, 0, 0, Idle, Leaving(1))
  {
    assert Find([1], 1) == 0;
    assert [1][..0] + [1][1..] == [];
  }

  /** Every run that respects the policy is sound, in every manager. */
  ghost predicate Safe(allowed: set<Overlap>) {
    forall s: State, events: seq<Event> ::
      Initial(s) && Possible(s, events) && AlwaysRespects(allowed, s, events) ==> AlwaysSound(s, events)
  }

  lemma Refutes(allowed: set<Overlap>, events: seq<Event>, r: State)
    requires Leads(allowed, START, events, r) && !Sound(r)
    ensures !Safe(allowed)
  {
    UnsoundRun(allowed, START, events, r);
  }

  /** Flags and list are safe in every run if and only if the activities of one connection never
      overlap: each of the four kinds of overlap alone is enough to spoil it. */
  lemma SafeExactly(allowed: set<Overlap>)
    ensures Safe(allowed) <==> allowed == {}
  {
    if allowed == {} {
      forall s: State, events: seq<Event> | Initial(s) && Possible(s, events) && AlwaysRespects(allowed, s, events)
        ensures AlwaysSound(s, events)
      {
        InitialInvariant(s);
        InitialListed(s);
        RunIsSound(s, events);
      }
    } else {
      var o :| o in allowed;
      OverlapRefutes(allowed, o);
    }
  }

  lemma OverlapRefutes(allowed: set<Overlap>, o: Overlap)
    requires o in allowed
    ensures !Safe(allowed)
  {
    hide Leads, Safe;
    match o
    case Overlap(Registration, Registration) =>
      RegistrationsOverlap(allowed);
      ListsTwice(Pair([1, 1], false, 4, 0, Storing(1, true), Storing(1, true)));
      Refutes(allowed, TWICE_REGISTERED, Pair([1, 1], false, 4, 0, Storing(1, true), Storing(1, true)));
    case Overlap(Registration, Deregistration) =>
      EarlyRefutes(allowed);
    case Overlap(Deregistration, Registration) =>
      RegistrationComesEarly(allowed);
      ListsTwice(Pair([1, 1], false, 4, 1, Leaving(1), Storing(1, true)));
      Refutes(allowed, REGISTERED_AGAIN, Pair([1, 1], false, 4, 1, Leaving(1), Storing(1, true)));
    case Overlap(Deregistration, Deregistration) =>
      DeregistrationsOverlap(allowed);
      var r := Pair([], false, 0, 0, Idle, Leaving(1));
      assert r.threads[1].Leaving? && r.threads[1].c !in r.list;
      Refutes(allowed, TWICE_DEREGISTERED, r);
  }

  lemma ListsTwice(r: State)
    requires r.list == [1, 1]
    ensures !Sound(r)
  {
    assert multiset(r.list)[1] == 2;
  }

  lemma EarlyRefutes(allowed: set<Overlap>)
    requires Overlap(Registration, Deregistration) in allowed
    ensures !Safe(allowed)
  {
    DeregistrationComesEarly(allowed);
    hide Leads;
    UntrueRun(allowed, START, INSERTED, Pair([1], false, 3, 1, Storing(1, true), Idle), TestFlag(1, 1));
    UnsafeRun(allowed, INSERTED + [TestFlag(1, 1)]);
  }

  lemma UnsafeRun(allowed: set<Overlap>, events: seq<Event>)
    requires Possible(START, events) && AlwaysRespects(allowed, START, events) && !AlwaysSound(START, events)
    ensures !Safe(allowed)
  {
  }
}

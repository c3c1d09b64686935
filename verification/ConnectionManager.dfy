/** The connection manager shared by all threads: registration with a limit, deregistration that
    wakes the waiting threads, stop and wait, and the aborts that close connections outside the
    lock (src/net_connection_manager.inl, src/net_connection_base.inl). Each event is one stretch of
    code under the lock, or one access to a connection or its flag outside of it. A thread stands
    for one activity: a deregistration that happens while an abort closes the connection is an
    activity of its own. What is proved here holds whatever activities overlap;
    ConnectionRegistration is about the flags, where it matters. */
module ConnectionManager {
  import opened Options

  type Connection = nat

  /** Where a thread is. `Registering`: the connection was asked to register and holds a reference
      of its caller; `Storing`: the manager has answered and the flag is still to be written.
      `Clearing`: the flag was found set and is still to be cleared; `Leaving`: the connection is
      still to be taken off the list. A closing thread holds a reference to each connection it still
      has to close; `again` says that it starts over afterwards. */
  datatype Thread =
    | Idle
    | Registering(c: Connection)
    | Storing(c: Connection, accepted: bool)
    | Clearing(c: Connection)
    | Leaving(c: Connection)
    | Checking
    | Blocked
    | Signalled
    | Gathering(again: bool)
    | Closing(todo: seq<Connection>, again: bool)

  /** The list of connections, whether new ones are accepted and how many at most; the connections
      whose flag says that they are registered; all reference counts; the references held by other
      code; the threads. */
  datatype State = State(
    list: seq<Connection>,
    active: bool,
    max: nat,
    registered: set<Connection>,
    references: multiset<Connection>,
    external: multiset<Connection>,
    threads: seq<Thread>)

  datatype Event =
    | Create(c: Connection)
    | Acquire(c: Connection)
    | Release(c: Connection)
    | BeginRegister(t: nat, c: Connection)
    | Insert(t: nat)
    | StoreFlag(t: nat)
    | TestFlag(t: nat, c: Connection)
    | ClearFlag(t: nat)
    | Remove(t: nat)
    | Start
    | Stop
    | Initialize(max: nat)
    | Get(index: nat)
    | BeginWait(t: nat)
    | CheckWait(t: nat)
    | WakeUp(t: nat)
    | BeginAbort(t: nat, wait: bool)
    | Gather(t: nat)
    | AbortLeastRecent(t: nat)
    | AbortMostRecent(t: nat)
    | CloseNext(t: nat)
    | EndClosing(t: nat)

  /** The position of the first occurrence, or the length. */
  function Find(list: seq<Connection>, c: Connection): (i: nat)
    ensures i <= |list|
    ensures i < |list| ==> list[i] == c
    ensures i == |list| <==> c !in list
  {
    if list == [] then 0 else if list[0] == c then 0 else 1 + Find(list[1..], c)
  }

  /** `broadcast`: every blocked thread is signalled. */
  function Awaken(threads: seq<Thread>): (r: seq<Thread>)
    ensures |r| == |threads|
    ensures forall i :: 0 <= i < |threads| ==> r[i] == if threads[i].Blocked? then Signalled else threads[i]
  {
    seq(|threads|, i requires 0 <= i < |threads| => if threads[i].Blocked? then Signalled else threads[i])
  }

  predicate Has(s: State, t: nat) {
    t < |s.threads|
  }

  /** Whether the event can happen. A thread does one thing at a time. Whoever asks a connection to
      register holds a reference to it, and the connection asserts that it is not registered; a
      connection that is asked to deregister is alive at that moment. */
  predicate Enabled(s: State, e: Event) {
    match e
    case Create(c) => c !in s.references
    case Acquire(c) => c in s.references
    case Release(c) => c in s.external
    case BeginRegister(t, c) => Has(s, t) && s.threads[t].Idle? && c in s.external && c !in s.registered
    case Insert(t) => Has(s, t) && s.threads[t].Registering?
    case StoreFlag(t) => Has(s, t) && s.threads[t].Storing?
    case TestFlag(t, c) => Has(s, t) && s.threads[t].Idle? && c in s.references
    case ClearFlag(t) => Has(s, t) && s.threads[t].Clearing?
    case Remove(t) => Has(s, t) && s.threads[t].Leaving?
    case Start => true
    case Stop => true
    case Initialize(max) => true
    case Get(index) => index < |s.list|
    case BeginWait(t) => Has(s, t) && s.threads[t].Idle?
    case CheckWait(t) => Has(s, t) && s.threads[t].Checking?
    case WakeUp(t) => Has(s, t) && s.threads[t].Signalled?
    case BeginAbort(t, wait) => Has(s, t) && s.threads[t].Idle?
    case Gather(t) => Has(s, t) && s.threads[t].Gathering?
    case AbortLeastRecent(t) => Has(s, t) && s.threads[t].Idle?
    case AbortMostRecent(t) => Has(s, t) && s.threads[t].Idle?
    case CloseNext(t) => Has(s, t) && s.threads[t].Closing? && s.threads[t].todo != []
    case EndClosing(t) => Has(s, t) && s.threads[t].Closing? && s.threads[t].todo == []
  }

  function WithThread(s: State, t: nat, p: Thread): State
    requires Has(s, t)
  {
    s.(threads := s.threads[t := p])
  }

  /** A reference is taken to each connection and the thread goes on to close them. */
  function TakeToClose(s: State, t: nat, todo: seq<Connection>, again: bool): State
    requires Has(s, t)
  {
    WithThread(s, t, Closing(todo, again)).(references := s.references + multiset(todo))
  }

  predicate Accepts(s: State) {
    s.active && |s.list| < s.max
  }

  /** `register_` of the manager. */
  function Inserted(s: State, t: nat, c: Connection): State
    requires Has(s, t)
  {
    if !Accepts(s) then WithThread(s, t, Storing(c, false))
    else WithThread(s, t, Storing(c, true)).(list := s.list + [c], references := s.references + multiset{c})
  }

  /** `deregister` of the manager. */
  function Removed(s: State, t: nat, c: Connection): State
    requires Has(s, t)
  {
    var i := Find(s.list, c);
    if i == |s.list| then WithThread(s, t, Idle)
    else
      var list := s.list[..i] + s.list[i + 1..];
      var threads := s.threads[t := Idle];
      s.(list := list,
         references := s.references - multiset{c},
         threads := if list == [] then Awaken(threads) else threads)
  }

  function Next(s: State, e: Event): State
    requires Enabled(s, e)
  {
    match e
    case Create(c) =>
      s.(references := s.references + multiset{c}, external := s.external + multiset{c},
         registered := s.registered - {c})
    case Acquire(c) => s.(references := s.references + multiset{c}, external := s.external + multiset{c})
    case Release(c) => s.(references := s.references - multiset{c}, external := s.external - multiset{c})
    case BeginRegister(t, c) => WithThread(s, t, Registering(c)).(external := s.external - multiset{c})
    case Insert(t) => Inserted(s, t, s.threads[t].c)
    case StoreFlag(t) =>
      var c := s.threads[t].c;
      WithThread(s, t, Idle).(
        external := s.external + multiset{c},
        registered := if s.threads[t].accepted then s.registered + {c} else s.registered - {c})
    case TestFlag(t, c) => if c in s.registered then WithThread(s, t, Clearing(c)) else s
    case ClearFlag(t) =>
      var c := s.threads[t].c;
      WithThread(s, t, Leaving(c)).(registered := s.registered - {c})
    case Remove(t) => Removed(s, t, s.threads[t].c)
    case Start => s.(active := true)
    case Stop => s.(active := false)
    case Initialize(max) => s.(max := max)
    case Get(index) =>
      s.(references := s.references + multiset{s.list[index]},
         external := s.external + multiset{s.list[index]})
    case BeginWait(t) => WithThread(s, t, Checking)
    case CheckWait(t) => WithThread(s, t, if s.list == [] then Idle else Blocked)
    case WakeUp(t) => WithThread(s, t, Checking)
    case BeginAbort(t, wait) => WithThread(s, t, Gathering(wait))
    case Gather(t) =>
      if s.list == [] then WithThread(s, t, Idle) else TakeToClose(s, t, s.list, s.threads[t].again)
    case AbortLeastRecent(t) => if s.list == [] then s else TakeToClose(s, t, [s.list[0]], false)
    case AbortMostRecent(t) => if s.list == [] then s else TakeToClose(s, t, [s.list[|s.list| - 1]], false)
    case CloseNext(t) =>
      var p := s.threads[t];
      WithThread(s, t, p.(todo := p.todo[1..])).(references := s.references - multiset{p.todo[0]})
    case EndClosing(t) => WithThread(s, t, if s.threads[t].again then Gathering(true) else Idle)
  }

  /** The thread that takes the step, if it is a step of a thread. */
  function Actor(e: Event): Option<nat> {
    match e
    case Create(_) => None
    case Acquire(_) => None
    case Release(_) => None
    case Start => None
    case Stop => None
    case Initialize(_) => None
    case Get(_) => None
    case _ => Some(e.t)
  }

  // ---- Sums over the threads. ----

  function Total(f: Thread -> nat, threads: seq<Thread>): nat {
    if threads == [] then 0 else f(threads[0]) + Total(f, threads[1..])
  }

  lemma {:induction false} TotalUpdate(f: Thread -> nat, threads: seq<Thread>, t: nat, p: Thread)
    requires t < |threads|
    ensures Total(f, threads[t := p]) == Total(f, threads) - f(threads[t]) + f(p)
    ensures f(threads[t]) <= Total(f, threads)
  {
    var r := threads[t := p];
    if t == 0 {
      assert r[1..] == threads[1..];
    } else {
      TotalUpdate(f, threads[1..], t - 1, p);
      assert r[1..] == threads[1..][t - 1 := p];
    }
  }

  lemma {:induction false} TotalAwaken(f: Thread -> nat, threads: seq<Thread>)
    requires f(Blocked) == f(Signalled)
    ensures Total(f, Awaken(threads)) == Total(f, threads)
  {
    if threads != [] {
      TotalAwaken(f, threads[1..]);
      assert Awaken(threads)[1..] == Awaken(threads[1..]);
    }
  }

  /** A sum is 0 if every thread counts 0. */
  lemma {:induction false} TotalOfZeros(f: Thread -> nat, threads: seq<Thread>)
    requires forall t :: 0 <= t < |threads| ==> f(threads[t]) == 0
    ensures Total(f, threads) == 0
  {
    if threads != [] {
      TotalOfZeros(f, threads[1..]);
    }
  }

  /** What a removal does to a sum to which the leaving thread contributes n, an idle one nothing. */
  lemma RemovedTotal(f: Thread -> nat, s: State, t: nat, c: Connection)
    requires Has(s, t) && f(Idle) == 0 && f(Blocked) == f(Signalled)
    ensures Total(f, Removed(s, t, c).threads) == Total(f, s.threads) - f(s.threads[t])
    ensures f(s.threads[t]) <= Total(f, s.threads)
  {
    hide Total, Find, Awaken;
    TotalUpdate(f, s.threads, t, Idle);
    TotalAwaken(f, s.threads[t := Idle]);
  }

  // ---- The invariant. ----

  /** How many references to c a thread holds. */
  function Holds(c: Connection): Thread -> nat {
    (p: Thread) =>
      if p.Closing? then multiset(p.todo)[c]
      else if (p.Registering? || p.Storing?) && p.c == c then 1
      else 0
  }

  /** Every reference is accounted for: by the list, by a thread that is registering or closing
      connections, or by other code. */
  ghost predicate Accounted(s: State, c: Connection) {
    s.references[c] == multiset(s.list)[c] + Total(Holds(c), s.threads) + s.external[c]
  }

  /** A thread that is blocked has something to wait for. */
  ghost predicate NoLostWakeup(s: State) {
    forall t :: 0 <= t < |s.threads| && s.threads[t].Blocked? ==> s.list != []
  }

  ghost predicate Invariant(s: State) {
    && (forall c :: Accounted(s, c))
    && NoLostWakeup(s)
  }

  lemma InvariantParts(s: State, c: Connection)
    requires Invariant(s)
    ensures Accounted(s, c) && NoLostWakeup(s)
  {
  }

  /** Removing one occurrence. */
  lemma RemovalCounts(list: seq<Connection>, i: nat, c: Connection)
    requires i < |list|
    ensures multiset(list[..i] + list[i + 1..])[c] == multiset(list)[c] - (if c == list[i] then 1 else 0)
  {
    assert list == list[..i] + ([list[i]] + list[i + 1..]);
  }

  lemma RemovedFields(s: State, t: nat, d: Connection)
    requires Has(s, t)
    ensures var s' := Removed(s, t, d);
            && s'.registered == s.registered && s'.external == s.external
            && s'.active == s.active && s'.max == s.max
            && s'.references == if d in s.list then s.references - multiset{d} else s.references
  {
    hide Awaken, Find;
  }

  lemma RemovedList(s: State, t: nat, d: Connection, c: Connection)
    requires Has(s, t)
    ensures var list, one := Removed(s, t, d).list, if d in s.list then 1 else 0;
            && multiset(list)[c] == multiset(s.list)[c] - (if c == d then one else 0)
            && |list| == |s.list| - one
  {
    hide Awaken, Find;
    var i := Find(s.list, d);
    if i < |s.list| {
      RemovalCounts(s.list, i, c);
    }
  }

  lemma RemovedThreads(s: State, t: nat, c: Connection)
    requires Has(s, t)
    ensures var r, threads := Removed(s, t, c), s.threads[t := Idle];
            r.registered == s.registered && (r.threads == threads || r.threads == Awaken(threads))
  {
    hide Find, Awaken;
  }

  lemma ListedIsReferenced(s: State, c: Connection)
    requires Accounted(s, c)
    ensures c in s.list ==> s.references[c] >= 1
  {
    assert c in s.list ==> multiset(s.list)[c] >= 1;
  }

  lemma RemoveKeeps(s: State, t: nat, c: Connection)
    requires Enabled(s, Remove(t)) && Accounted(s, c)
    ensures Accounted(Removed(s, t, s.threads[t].c), c)
  {
    hide Total, Removed;
    ListedIsReferenced(s, c);
    RemovedTotal(Holds(c), s, t, s.threads[t].c);
    RemovedFields(s, t, s.threads[t].c);
    RemovedList(s, t, s.threads[t].c, c);
  }

  lemma InsertKeeps(s: State, t: nat, c: Connection)
    requires Enabled(s, Insert(t)) && Accounted(s, c)
    ensures Accounted(Inserted(s, t, s.threads[t].c), c)
  {
    hide Total;
    var d := s.threads[t].c;
    TotalUpdate(Holds(c), s.threads, t, Storing(d, Accepts(s)));
    AppendCounts(s.list, d, c);
  }

  lemma AppendCounts(list: seq<Connection>, d: Connection, c: Connection)
    ensures multiset(list + [d])[c] == multiset(list)[c] + (if c == d then 1 else 0)
  {
  }

  /** A thread moves on without taking or giving back a reference. */
  lemma MoveKeeps(s: State, t: nat, p: Thread, c: Connection)
    requires Has(s, t) && Accounted(s, c) && Holds(c)(p) == Holds(c)(s.threads[t])
    ensures Accounted(WithThread(s, t, p), c)
  {
    hide Total, Holds;
    TotalUpdate(Holds(c), s.threads, t, p);
  }

  /** The flag is not part of the account. */
  lemma FlagIsFree(s: State, registered: set<Connection>, active: bool, c: Connection)
    ensures Accounted(s.(registered := registered, active := active), c) <==> Accounted(s, c)
  {
  }

  /** A reference of the caller passes to the registering thread and back. */
  lemma LendKeeps(s: State, t: nat, p: Thread, c: Connection)
    requires Has(s, t) && Accounted(s, c)
    requires var d := s.threads[t];
      || (p.Registering? && d.Idle? && p.c in s.external)
      || (p.Idle? && d.Storing?)
    ensures var external :=
              if p.Idle? then s.external + multiset{s.threads[t].c} else s.external - multiset{p.c};
            Accounted(WithThread(s, t, p).(external := external), c)
  {
    hide Total;
    TotalUpdate(Holds(c), s.threads, t, p);
  }

  /** A thread takes references for a list of connections it is going to close. */
  lemma TakeKeeps(s: State, t: nat, todo: seq<Connection>, again: bool, c: Connection)
    requires Has(s, t) && Accounted(s, c) && (s.threads[t].Idle? || s.threads[t].Gathering?)
    ensures Accounted(TakeToClose(s, t, todo, again), c)
  {
    hide Total;
    TotalUpdate(Holds(c), s.threads, t, Closing(todo, again));
  }

  lemma HeadCounts(todo: seq<Connection>, c: Connection)
    requires todo != []
    ensures multiset(todo)[c] == (if c == todo[0] then 1 else 0) + multiset(todo[1..])[c]
  {
    assert todo == [todo[0]] + todo[1..];
  }

  lemma CloseNextKeeps(s: State, t: nat, c: Connection)
    requires Enabled(s, CloseNext(t)) && Accounted(s, c)
    ensures Accounted(Next(s, CloseNext(t)), c)
  {
    hide Total;
    var p := s.threads[t];
    HeadCounts(p.todo, c);
    TotalUpdate(Holds(c), s.threads, t, p.(todo := p.todo[1..]));
  }

  lemma ReferencesKeep(s: State, e: Event, c: Connection)
    requires Actor(e) == None
    requires Enabled(s, e) && Accounted(s, c)
    ensures Accounted(Next(s, e), c)
  {
    hide Total;
  }

  /** The steps of registrations and deregistrations. */
  lemma RegistrationKeepsAccount(s: State, e: Event, c: Connection)
    requires e.BeginRegister? || e.Insert? || e.StoreFlag? || e.TestFlag? || e.ClearFlag? || e.Remove?
    requires Enabled(s, e) && Accounted(s, c)
    ensures Accounted(Next(s, e), c)
  {
    hide Accounted, Removed, Inserted;
    match e
    case BeginRegister(t, d) => LendKeeps(s, t, Registering(d), c);
    case Insert(t) => InsertKeeps(s, t, c);
    case StoreFlag(t) =>
      LendKeeps(s, t, Idle, c);
      var d := s.threads[t].c;
      var s' := WithThread(s, t, Idle).(external := s.external + multiset{d});
      FlagIsFree(s', Next(s, e).registered, s.active, c);
    case TestFlag(t, d) => MoveKeeps(s, t, Clearing(d), c);
    case ClearFlag(t) =>
      var d := s.threads[t].c;
      MoveKeeps(s, t, Leaving(d), c);
      FlagIsFree(WithThread(s, t, Leaving(d)), s.registered - {d}, s.active, c);
    case Remove(t) => RemoveKeeps(s, t, c);
  }

  /** The steps of waits and aborts. */
  lemma WaitKeepsAccount(s: State, e: Event, c: Connection)
    requires Actor(e).Some?
    requires !e.BeginRegister? && !e.Insert? && !e.StoreFlag? && !e.TestFlag? && !e.ClearFlag? && !e.Remove?
    requires Enabled(s, e) && Accounted(s, c)
    ensures Accounted(Next(s, e), c)
  {
    hide Accounted, Removed, Inserted, TakeToClose;
    match e
    case BeginWait(t) => MoveKeeps(s, t, Checking, c);
    case CheckWait(t) => MoveKeeps(s, t, if s.list == [] then Idle else Blocked, c);
    case WakeUp(t) => MoveKeeps(s, t, Checking, c);
    case BeginAbort(t, wait) => MoveKeeps(s, t, Gathering(wait), c);
    case Gather(t) =>
      if s.list == [] {
        MoveKeeps(s, t, Idle, c);
      } else {
        TakeKeeps(s, t, s.list, s.threads[t].again, c);
      }
    case AbortLeastRecent(t) =>
      if s.list != [] {
        TakeKeeps(s, t, [s.list[0]], false, c);
      }
    case AbortMostRecent(t) =>
      if s.list != [] {
        TakeKeeps(s, t, [s.list[|s.list| - 1]], false, c);
      }
    case CloseNext(t) => CloseNextKeeps(s, t, c);
    case EndClosing(t) => EndClosingKeeps(s, t, c);
    case _ => assert false;
  }

  lemma EventKeepsAccount(s: State, e: Event, c: Connection)
    requires Enabled(s, e) && Accounted(s, c)
    ensures Accounted(Next(s, e), c)
  {
    hide Accounted, Next, Enabled;
    if e.BeginRegister? || e.Insert? || e.StoreFlag? || e.TestFlag? || e.ClearFlag? || e.Remove? {
      RegistrationKeepsAccount(s, e, c);
    } else if Actor(e).Some? {
      WaitKeepsAccount(s, e, c);
    } else {
      ReferencesKeep(s, e, c);
    }
  }

  lemma EndClosingKeeps(s: State, t: nat, c: Connection)
    requires Enabled(s, EndClosing(t)) && Accounted(s, c)
    ensures Accounted(Next(s, EndClosing(t)), c)
  {
    MoveKeeps(s, t, if s.threads[t].again then Gathering(true) else Idle, c);
  }

  // ---- Waking up. ----

  /** Only thread t moves on, and not to be blocked before an empty list. */
  ghost predicate Advances(s: State, s': State, t: nat) {
    && |s'.threads| == |s.threads|
    && (s.list != [] ==> s'.list != [])
    && forall u :: 0 <= u < |s.threads| ==>
         if u == t then s'.threads[u].Blocked? ==> s'.list != [] else s'.threads[u] == s.threads[u]
  }

  lemma AdvanceKeepsWaiters(s: State, s': State, t: nat)
    requires NoLostWakeup(s) && Advances(s, s', t)
    ensures NoLostWakeup(s')
  {
  }

  lemma RemoveKeepsWaiters(s: State, t: nat, c: Connection)
    requires NoLostWakeup(s) && Has(s, t)
    ensures NoLostWakeup(Removed(s, t, c))
  {
    hide Find;
  }

  lemma InsertAdvances(s: State, t: nat)
    requires Enabled(s, Insert(t))
    ensures Advances(s, Next(s, Insert(t)), t)
  {
  }

  lemma MoveAdvances(s: State, t: nat, p: Thread, registered: set<Connection>,
                     references: multiset<Connection>, external: multiset<Connection>)
    requires Has(s, t) && (p.Blocked? ==> s.list != [])
    ensures var s' := WithThread(s, t, p);
            Advances(s, s'.(registered := registered, references := references, external := external), t)
  {
  }

  /** The steps of a thread that do not change the list. */
  lemma ThreadAdvances(s: State, e: Event)
    requires Enabled(s, e) && Actor(e).Some? && !e.Insert? && !e.Remove?
    ensures Advances(s, Next(s, e), Actor(e).value)
  {
    hide Inserted, Removed, Advances;
    var g, r, x := s.registered, s.references, s.external;
    match e
    case BeginRegister(t, c) => MoveAdvances(s, t, Registering(c), g, r, x - multiset{c});
    case StoreFlag(t) => MoveAdvances(s, t, Idle, Next(s, e).registered, r, x + multiset{s.threads[t].c});
    case TestFlag(t, c) =>
      MoveAdvances(s, t, Clearing(c), g, r, x);
      StayAdvances(s, t);
    case ClearFlag(t) => MoveAdvances(s, t, Leaving(s.threads[t].c), g - {s.threads[t].c}, r, x);
    case BeginWait(t) => MoveAdvances(s, t, Checking, g, r, x);
    case CheckWait(t) => MoveAdvances(s, t, if s.list == [] then Idle else Blocked, g, r, x);
    case WakeUp(t) => MoveAdvances(s, t, Checking, g, r, x);
    case BeginAbort(t, wait) => MoveAdvances(s, t, Gathering(wait), g, r, x);
    case Gather(t) =>
      MoveAdvances(s, t, Idle, g, r, x);
      MoveAdvances(s, t, Closing(s.list, s.threads[t].again), g, r + multiset(s.list), x);
    case AbortLeastRecent(t) =>
      StayAdvances(s, t);
      if s.list != [] {
        MoveAdvances(s, t, Closing([s.list[0]], false), g, r + multiset([s.list[0]]), x);
      }
    case AbortMostRecent(t) =>
      StayAdvances(s, t);
      if s.list != [] {
        var last := [s.list[|s.list| - 1]];
        MoveAdvances(s, t, Closing(last, false), g, r + multiset(last), x);
      }
    case CloseNext(t) =>
      var p := s.threads[t];
      MoveAdvances(s, t, p.(todo := p.todo[1..]), g, r - multiset{p.todo[0]}, x);
    case EndClosing(t) => MoveAdvances(s, t, if s.threads[t].again then Gathering(true) else Idle, g, r, x);
    case _ => assert false;
  }

  lemma StayAdvances(s: State, t: nat)
    requires Has(s, t) && !s.threads[t].Blocked?
    ensures Advances(s, s, t)
  {
  }

  lemma OthersAdvance(s: State, e: Event)
    requires Enabled(s, e) && Actor(e) == None
    ensures Advances(s, Next(s, e), |s.threads|)
  {
  }

  lemma EventKeepsWaiters(s: State, e: Event)
    requires NoLostWakeup(s) && Enabled(s, e)
    ensures NoLostWakeup(Next(s, e))
  {
    hide NoLostWakeup, Next, Removed, Advances;
    if e.Remove? {
      assert Next(s, e) == Removed(s, e.t, s.threads[e.t].c) by { RemoveIs(s, e.t); }
      RemoveKeepsWaiters(s, e.t, s.threads[e.t].c);
    } else if e.Insert? {
      InsertAdvances(s, e.t);
      AdvanceKeepsWaiters(s, Next(s, e), e.t);
    } else if Actor(e).Some? {
      ThreadAdvances(s, e);
      AdvanceKeepsWaiters(s, Next(s, e), Actor(e).value);
    } else {
      OthersAdvance(s, e);
      AdvanceKeepsWaiters(s, Next(s, e), |s.threads|);
    }
  }

  lemma RemoveIs(s: State, t: nat)
    requires Enabled(s, Remove(t))
    ensures Next(s, Remove(t)) == Removed(s, t, s.threads[t].c)
  {
    hide Removed;
  }

  lemma InsertIs(s: State, t: nat)
    requires Enabled(s, Insert(t))
    ensures Next(s, Insert(t)) == Inserted(s, t, s.threads[t].c)
  {
    hide Inserted;
  }

  /** Every event keeps the invariant. */
  lemma EventKeepsInvariant(s: State, e: Event)
    requires Invariant(s) && Enabled(s, e)
    ensures Invariant(Next(s, e))
  {
    hide NoLostWakeup, Accounted, Next, Enabled;
    forall c
      ensures Accounted(Next(s, e), c)
    {
      EventKeepsAccount(s, e, c);
    }
    EventKeepsWaiters(s, e);
  }

  // ---- Runs. ----

  predicate Possible(s: State, events: seq<Event>)
    decreases events
  {
    events == [] || (Enabled(s, events[0]) && Possible(Next(s, events[0]), events[1..]))
  }

  function After(s: State, events: seq<Event>): State
    requires Possible(s, events)
    decreases events
  {
    if events == [] then s else After(Next(s, events[0]), events[1..])
  }

  /** A manager without connections; all threads are idle. */
  predicate Initial(s: State) {
    && s.list == [] && s.registered == {} && s.references == multiset{} && s.external == multiset{}
    && forall t :: 0 <= t < |s.threads| ==> s.threads[t].Idle?
  }

  lemma InitialInvariant(s: State)
    requires Initial(s)
    ensures Invariant(s)
  {
    forall c
      ensures Accounted(s, c)
    {
      TotalOfZeros(Holds(c), s.threads);
    }
  }

  lemma {:induction false} RunKeepsInvariant(s: State, events: seq<Event>)
    requires Invariant(s) && Possible(s, events)
    ensures Invariant(After(s, events))
    decreases events
  {
    hide Invariant, Next, Enabled;
    if events != [] {
      EventKeepsInvariant(s, events[0]);
      RunKeepsInvariant(Next(s, events[0]), events[1..]);
    }
  }

  // ---- The limit. ----

  predicate WithinLimit(s: State) {
    |s.list| <= s.max
  }

  /** A new maximum is not below the length of the list. */
  predicate MaximumFits(s: State, e: Event) {
    e.Initialize? ==> |s.list| <= e.max
  }

  /** An event keeps the limit if and only if it does not set the maximum below the length of the
      list; and beyond the limit no event makes the list longer. */
  lemma EventKeepsLimit(s: State, e: Event)
    requires Enabled(s, e)
    ensures WithinLimit(s) ==> (WithinLimit(Next(s, e)) <==> MaximumFits(s, e))
    ensures !WithinLimit(s) ==> |Next(s, e).list| <= |s.list|
    ensures !e.Initialize? ==> Next(s, e).max == s.max
  {
    hide Next;
    if e.Remove? {
      RemoveIs(s, e.t);
      hide Removed;
      RemovedFields(s, e.t, s.threads[e.t].c);
      RemovedList(s, e.t, s.threads[e.t].c, 0);
    } else if e.Insert? {
      InsertIs(s, e.t);
    } else {
      KeepsList(s, e);
    }
  }

  lemma KeepsList(s: State, e: Event)
    requires Enabled(s, e) && !e.Remove? && !e.Insert?
    ensures Next(s, e).list == s.list
    ensures Next(s, e).max == if e.Initialize? then e.max else s.max
  {
    hide Removed, Inserted;
  }

  /** The limit is kept before, during and after the run. */
  predicate AlwaysWithinLimit(s: State, events: seq<Event>)
    requires Possible(s, events)
    decreases events
  {
    WithinLimit(s) && (events == [] || AlwaysWithinLimit(Next(s, events[0]), events[1..]))
  }

  /** Every maximum that is set during the run fits the list at that moment. */
  predicate MaximaFit(s: State, events: seq<Event>)
    requires Possible(s, events)
    decreases events
  {
    events == [] || (MaximumFits(s, events[0]) && MaximaFit(Next(s, events[0]), events[1..]))
  }

  /** For every single run from a list within the limit: the limit is kept at every moment if and only if every
      maximum that is set fits. */
  lemma {:induction false} RunKeepsLimitExactly(s: State, events: seq<Event>)
    requires WithinLimit(s) && Possible(s, events)
    ensures AlwaysWithinLimit(s, events) <==> MaximaFit(s, events)
    decreases events
  {
    hide Enabled, Next, WithinLimit, MaximumFits;
    if events != [] {
      EventKeepsLimit(s, events[0]);
      if MaximumFits(s, events[0]) {
        RunKeepsLimitExactly(Next(s, events[0]), events[1..]);
      }
    }
  }

  lemma {:induction false} RunKeepsLimit(s: State, events: seq<Event>)
    requires WithinLimit(s) && Possible(s, events) && MaximaFit(s, events)
    ensures WithinLimit(After(s, events))
    decreases events
  {
    hide Enabled, Next, WithinLimit, MaximumFits;
    if events != [] {
      EventKeepsLimit(s, events[0]);
      RunKeepsLimit(Next(s, events[0]), events[1..]);
    }
  }

  /** A maximum that does not fit is enforced for new connections only: until the next change of it
      the list grows to the maximum at most, or not at all if it is longer already. */
  lemma {:induction false} RunApproachesLimit(s: State, events: seq<Event>)
    requires Possible(s, events)
    requires forall k :: 0 <= k < |events| ==> !events[k].Initialize?
    ensures After(s, events).max == s.max
    ensures |After(s, events).list| <= if WithinLimit(s) then s.max else |s.list|
    decreases events
  {
    hide Enabled, Next;
    if events != [] {
      EventKeepsLimit(s, events[0]);
      RunApproachesLimit(Next(s, events[0]), events[1..]);
    }
  }

  /** c is referenced: it has not been deleted. */
  predicate Alive(s: State, c: Connection) {
    s.references[c] > 0
  }

  lemma HeldIsAlive(s: State, t: nat, c: Connection)
    requires Accounted(s, c) && Has(s, t) && Holds(c)(s.threads[t]) > 0
    ensures Alive(s, c)
  {
    hide Total;
    TotalUpdate(Holds(c), s.threads, t, s.threads[t]);
  }

  /** The thread is in the course of registering c or of closing it. */
  predicate Works(p: Thread, c: Connection) {
    ((p.Registering? || p.Storing?) && p.c == c) || (p.Closing? && c in p.todo)
  }

  /** Safety over every run and every interleaving: whatever is on the list, being registered or
      about to be closed by some thread is alive; no thread is left blocked once the list is empty;
      and the limit is respected, unless it was lowered below the length of the list. */
  lemma RunsAreSafe(s: State, events: seq<Event>)
    requires Initial(s) && Possible(s, events)
    ensures var r := After(s, events);
            && (forall c :: c in r.list ==> Alive(r, c))
            && (forall t, c :: 0 <= t < |r.threads| && Works(r.threads[t], c) ==> Alive(r, c))
            && (r.list == [] ==> forall t :: 0 <= t < |r.threads| ==> !r.threads[t].Blocked?)
            && (MaximaFit(s, events) ==> WithinLimit(r))
  {
    InitialInvariant(s);
    RunKeepsInvariant(s, events);
    var r := After(s, events);
    hide Total, Invariant, Accounted;
    if MaximaFit(s, events) {
      RunKeepsLimit(s, events);
    }
    InvariantParts(r, 0);
    hide Possible, After;
    forall c | c in r.list
      ensures Alive(r, c)
    {
      InvariantParts(r, c);
      ListedIsReferenced(r, c);
    }
    forall t, c | 0 <= t < |r.threads| && Works(r.threads[t], c)
      ensures Alive(r, c)
    {
      InvariantParts(r, c);
      HeldIsAlive(r, t, c);
    }
  }

  /** When nothing is listed, being registered or about to be closed, the references are those of
      other code only. */
  lemma NothingLeaks(s: State, c: Connection)
    requires Invariant(s) && s.list == []
    requires forall t :: 0 <= t < |s.threads| ==> !Works(s.threads[t], c)
    ensures s.references[c] == s.external[c]
  {
    InvariantParts(s, c);
    forall t | 0 <= t < |s.threads|
      ensures Holds(c)(s.threads[t]) == 0
    {
      assert !Works(s.threads[t], c);
    }
    TotalOfZeros(Holds(c), s.threads);
  }

  // ---- Stop and wait. ----

  predicate NoStart(events: seq<Event>) {
    forall k :: 0 <= k < |events| ==> !events[k].Start?
  }

  /** While the manager is stopped the list only loses elements. */
  lemma {:induction false} StoppedOnlyShrinks(s: State, events: seq<Event>)
    requires !s.active && Possible(s, events) && NoStart(events)
    ensures !After(s, events).active
    ensures multiset(After(s, events).list) <= multiset(s.list)
    decreases events
  {
    hide Next, Enabled;
    if events != [] {
      StoppedStep(s, events[0]);
      StoppedOnlyShrinks(Next(s, events[0]), events[1..]);
    }
  }

  lemma StoppedStep(s: State, e: Event)
    requires !s.active && Enabled(s, e) && !e.Start?
    ensures !Next(s, e).active && multiset(Next(s, e).list) <= multiset(s.list)
  {
    hide Removed;
    if e.Remove? {
      StoppedRemove(s, e.t, s.threads[e.t].c);
    }
  }

  lemma StoppedRemove(s: State, t: nat, c: Connection)
    requires Has(s, t)
    ensures Removed(s, t, c).active == s.active
    ensures multiset(Removed(s, t, c).list) <= multiset(s.list)
  {
    hide Removed;
    RemovedFields(s, t, c);
    forall d
      ensures multiset(Removed(s, t, c).list)[d] <= multiset(s.list)[d]
    {
      RemovedList(s, t, c, d);
    }
  }

  /** How many steps of thread t the run has. */
  function StepsOf(events: seq<Event>, t: nat): nat {
    if events == [] then 0 else (if Actor(events[0]) == Some(t) then 1 else 0) + StepsOf(events[1..], t)
  }

  /** The list is empty all the time. */
  predicate StaysEmpty(s: State, events: seq<Event>)
    requires Possible(s, events)
    decreases events
  {
    s.list == [] && (events == [] || StaysEmpty(Next(s, events[0]), events[1..]))
  }

  /** How many steps a waiting or aborting thread needs to get out when the list is empty. */
  function StepsToGetOut(p: Thread): nat {
    match p
    case Checking => 1
    case Blocked => 2
    case Signalled => 2
    case Gathering(_) => 1
    case Closing(todo, again) => |todo| + if again then 2 else 1
    case _ => 0
  }

  /** The next step of such a thread. */
  function NextStep(p: Thread, t: nat): Event {
    match p
    case Checking => CheckWait(t)
    case Gathering(_) => Gather(t)
    case Closing(todo, _) => if todo != [] then CloseNext(t) else EndClosing(t)
    case _ => WakeUp(t)
  }

  /** While the list is empty no other event moves a waiting or aborting thread. */
  lemma WaiterIsLeftAlone(s: State, e: Event, t: nat)
    requires s.list == [] && Has(s, t) && Enabled(s, e) && Actor(e) != Some(t)
    ensures Has(Next(s, e), t) && Next(s, e).threads[t] == s.threads[t]
  {
    hide Next, Removed;
    if e.Remove? {
      RemoveIs(s, e.t);
      RemoveMisses(s, e.t, s.threads[e.t].c);
    } else if e.Insert? {
      InsertAdvances(s, e.t);
    } else if Actor(e).Some? {
      ThreadAdvances(s, e);
    } else {
      OthersAdvance(s, e);
    }
  }

  /** One event while the list is empty: a step of its own brings such a thread nearer, and no other
      event holds it back. */
  lemma WaiterStep(s: State, e: Event, t: nat)
    requires NoLostWakeup(s) && s.list == [] && Has(s, t) && StepsToGetOut(s.threads[t]) > 0 && Enabled(s, e)
    ensures Has(Next(s, e), t) && Enabled(s, NextStep(s.threads[t], t))
    ensures StepsToGetOut(Next(s, e).threads[t])
         == StepsToGetOut(s.threads[t]) - (if Actor(e) == Some(t) then 1 else 0)
    ensures StepsToGetOut(Next(s, e).threads[t]) == 0 ==> Next(s, e).threads[t].Idle?
  {
    WaiterCanStep(s, t);
    if Actor(e) == Some(t) {
      hide Inserted, Removed;
      assert !s.threads[t].Blocked?;
      assert e == NextStep(s.threads[t], t);
    } else {
      hide Next, Enabled;
      WaiterIsLeftAlone(s, e, t);
    }
  }

  lemma RemoveMisses(s: State, t: nat, c: Connection)
    requires Has(s, t) && s.list == []
    ensures Removed(s, t, c) == WithThread(s, t, Idle)
  {
  }

  /** No wake-up is lost: in every run during which the list stays empty, every thread that waits or
      aborts has a next step it can take, and is out as soon as it has taken as many as it needs: two to
      wait, or one if it was already checking; one for each connection it still has to close, and then
      one or, if it starts over, two. */
  lemma {:induction false} WaitersGetOut(s: State, events: seq<Event>, t: nat) returns (k: nat)
    requires NoLostWakeup(s) && Has(s, t) && StepsToGetOut(s.threads[t]) > 0
    requires Possible(s, events) && StaysEmpty(s, events)
    ensures k <= |events| && Possible(s, events[..k])
    ensures var p := After(s, events[..k]).threads;
            && t < |p|
            && if StepsOf(events, t) >= StepsToGetOut(s.threads[t])
               then p[t].Idle? && StepsOf(events[..k], t) == StepsToGetOut(s.threads[t])
               else k == |events| && StepsToGetOut(p[t]) == StepsToGetOut(s.threads[t]) - StepsOf(events, t)
                    && Enabled(After(s, events), NextStep(p[t], t))
    decreases events
  {
    hide Enabled, Next, NoLostWakeup;
    if events == [] {
      k := 0;
      assert events[..0] == [];
      WaiterCanStep(s, t);
    } else {
      var e, rest := events[0], events[1..];
      WaiterStep(s, e, t);
      EventKeepsWaiters(s, e);
      if StepsToGetOut(Next(s, e).threads[t]) == 0 {
        k := 1;
        OneEvent(s, events);
        assert StepsOf([], t) == 0;
      } else {
        k := WaitersGetOut(Next(s, e), rest, t);
        PrefixSteps(s, events, k, t);
        k := k + 1;
        assert k == |events| ==> events[..k] == events;
      }
    }
  }

  lemma WaiterCanStep(s: State, t: nat)
    requires NoLostWakeup(s) && s.list == [] && Has(s, t) && StepsToGetOut(s.threads[t]) > 0
    ensures Enabled(s, NextStep(s.threads[t], t))
  {
    assert !s.threads[t].Blocked?;
  }

  lemma OneEvent(s: State, events: seq<Event>)
    requires events != [] && Possible(s, events)
    ensures Possible(s, events[..1]) && After(s, events[..1]) == Next(s, events[0])
    ensures forall t: nat :: StepsOf(events[..1], t) == if Actor(events[0]) == Some(t) then 1 else 0
  {
    hide Enabled, Next;
    var one := events[..1];
    assert one[0] == events[0] && one[1..] == [];
    assert Possible(Next(s, events[0]), one[1..]);
  }

  lemma PrefixSteps(s: State, events: seq<Event>, k: nat, t: nat)
    requires events != [] && k < |events| && Enabled(s, events[0])
    requires Possible(Next(s, events[0]), events[1..][..k])
    ensures Possible(s, events[..k + 1])
    ensures After(s, events[..k + 1]) == After(Next(s, events[0]), events[1..][..k])
    ensures StepsOf(events[..k + 1], t) == (if Actor(events[0]) == Some(t) then 1 else 0) + StepsOf(events[1..][..k], t)
  {
    hide Enabled, Next;
    assert events[..k + 1][1..] == events[1..][..k];
  }
}

/** The end of `isIfUpDownManagingInterface`: logical interface names are replaced by physical ones
    in place, with append, erase and restart, and the result is searched (src/net_os_tools.cpp). */
module InterfaceRewriting {

  /** logical_to_physical_interfaces_m. */
  type Mapping = map<string, string>

  // ---- Chains of names. ----

  /** The name after n replacements; a name that is no key stays. */
  ghost function Follow(m: Mapping, x: string, n: nat): string
    decreases n
  {
    if n == 0 || x !in m then x else Follow(m, m[x], n - 1)
  }

  /** The chain of replacements of the name ends. */
  ghost predicate Terminates(m: Mapping, x: string) {
    exists n: nat :: Follow(m, x, n) !in m
  }

  ghost predicate AllTerminate(m: Mapping, t: seq<string>) {
    forall x :: x in t ==> Terminates(m, x)
  }

  lemma TerminatesNext(m: Mapping, x: string)
    requires x in m
    ensures Terminates(m, x) <==> Terminates(m, m[x])
  {
    if n: nat :| Follow(m, x, n) !in m {
      assert Follow(m, m[x], n - 1) !in m;
    }
    if n: nat :| Follow(m, m[x], n) !in m {
      assert Follow(m, x, n + 1) !in m;
    }
  }

  lemma KeysOnly(m: Mapping, x: string)
    requires x !in m
    ensures Terminates(m, x)
  {
    assert Follow(m, x, 0) !in m;
  }

  ghost function DepthWithin(m: Mapping, x: string, n: nat): nat
    requires Follow(m, x, n) !in m
    decreases n
  {
    if x !in m then 0 else 1 + DepthWithin(m, m[x], n - 1)
  }

  lemma {:induction false} DepthUnique(m: Mapping, x: string, n: nat, k: nat)
    requires Follow(m, x, n) !in m && Follow(m, x, k) !in m
    ensures DepthWithin(m, x, n) == DepthWithin(m, x, k)
    decreases n
  {
    if x in m {
      DepthUnique(m, m[x], n - 1, k - 1);
    }
  }

  /** The number of replacements until the name is physical. */
  ghost function Depth(m: Mapping, x: string): nat
    requires Terminates(m, x)
  {
    var n: nat :| Follow(m, x, n) !in m;
    DepthWithin(m, x, n)
  }

  lemma DepthIs(m: Mapping, x: string, n: nat)
    requires Follow(m, x, n) !in m
    ensures Depth(m, x) == DepthWithin(m, x, n)
  {
    forall k: nat | Follow(m, x, k) !in m
      ensures DepthWithin(m, x, k) == DepthWithin(m, x, n)
    {
      DepthUnique(m, x, k, n);
    }
  }

  lemma DepthNext(m: Mapping, x: string)
    requires x in m && Terminates(m, x)
    ensures Terminates(m, m[x]) && Depth(m, x) == 1 + Depth(m, m[x])
  {
    TerminatesNext(m, x);
    var n: nat :| Follow(m, x, n) !in m;
    DepthIs(m, x, n);
    DepthIs(m, m[x], n - 1);
  }

  /** The physical name at the end of the chain. */
  ghost function Resolve(m: Mapping, x: string): (y: string)
    requires Terminates(m, x)
    ensures y !in m && (x !in m ==> y == x)
    decreases Depth(m, x)
  {
    if x !in m then x else (DepthNext(m, x); Resolve(m, m[x]))
  }

  // ---- The list the loop computes. ----

  /** The names of the list that are no keys, in order. */
  function Physical(m: Mapping, t: seq<string>): seq<string> {
    if t == [] then []
    else if t[0] in m then Physical(m, t[1..])
    else [t[0]] + Physical(m, t[1..])
  }

  /** What the keys of the list are replaced by, in order. */
  function Images(m: Mapping, t: seq<string>): seq<string> {
    if t == [] then []
    else if t[0] in m then [m[t[0]]] + Images(m, t[1..])
    else Images(m, t[1..])
  }

  ghost function TotalDepth(m: Mapping, t: seq<string>): nat
    requires AllTerminate(m, t)
  {
    if t == [] then 0 else Depth(m, t[0]) + TotalDepth(m, t[1..])
  }

  lemma {:induction false} ImagesTerminate(m: Mapping, t: seq<string>)
    requires AllTerminate(m, t)
    ensures AllTerminate(m, Images(m, t))
    ensures TotalDepth(m, Images(m, t)) + |Images(m, t)| <= TotalDepth(m, t)
  {
    if t != [] {
      ImagesTerminate(m, t[1..]);
      var i := Images(m, t);
      if t[0] in m {
        DepthNext(m, t[0]);
        assert i[1..] == Images(m, t[1..]);
      } else {
        assert i == Images(m, t[1..]);
      }
    }
  }

  /** Names sorted by the length of their chains, stably, and resolved: first the physical names,
      then the names one replacement away, and so on. */
  ghost function Settle(m: Mapping, t: seq<string>): seq<string>
    requires AllTerminate(m, t)
    decreases TotalDepth(m, t), |t|
  {
    if t == [] then [] else
      ImagesTerminate(m, t);
      Physical(m, t) + Settle(m, Images(m, t))
  }

  lemma {:induction false} PhysicalConcat(m: Mapping, a: seq<string>, b: seq<string>)
    ensures Physical(m, a + b) == Physical(m, a) + Physical(m, b)
    ensures Images(m, a + b) == Images(m, a) + Images(m, b)
  {
    if a == [] {
      assert a + b == b;
    } else {
      PhysicalConcat(m, a[1..], b);
      assert (a + b)[0] == a[0] && (a + b)[1..] == a[1..] + b;
      if a[0] in m {
        Associative([m[a[0]]], Images(m, a[1..]), Images(m, b));
      } else {
        Associative([a[0]], Physical(m, a[1..]), Physical(m, b));
      }
    }
  }

  lemma Associative(a: seq<string>, b: seq<string>, c: seq<string>)
    ensures a + (b + c) == (a + b) + c
  {
  }

  predicate NoKeys(m: Mapping, t: seq<string>) {
    forall x :: x in t ==> x !in m
  }

  lemma {:induction false} NoKeysPhysical(m: Mapping, t: seq<string>)
    requires NoKeys(m, t)
    ensures Physical(m, t) == t && Images(m, t) == []
  {
    if t != [] {
      NoKeysPhysical(m, t[1..]);
    }
  }

  lemma NoKeysSettled(m: Mapping, t: seq<string>)
    requires NoKeys(m, t)
    ensures AllTerminate(m, t) && Settle(m, t) == t
  {
    forall x | x in t
      ensures Terminates(m, x)
    {
      KeysOnly(m, x);
    }
    NoKeysPhysical(m, t);
  }

  lemma SettleAfterPhysical(m: Mapping, n: seq<string>, t: seq<string>)
    requires NoKeys(m, n) && AllTerminate(m, n + t)
    ensures AllTerminate(m, t) && Settle(m, n + t) == n + Settle(m, t)
  {
    forall x | x in t
      ensures Terminates(m, x)
    {
      assert x in n + t;
    }
    PhysicalConcat(m, n, t);
    NoKeysPhysical(m, n);
    assert Images(m, n + t) == Images(m, t);
    if t == [] {
      assert n + t == n;
      NoKeysSettled(m, n);
    } else {
      ImagesTerminate(m, t);
      Associative(n, Physical(m, t), Settle(m, Images(m, t)));
    }
  }

  /** Replacing a key and queueing its image at the end does not change the settled list. */
  lemma {:induction false} SettleQueued(m: Mapping, k: string, r: seq<string>)
    requires k in m && AllTerminate(m, [k] + r)
    ensures AllTerminate(m, r + [m[k]])
    ensures Settle(m, [k] + r) == Settle(m, r + [m[k]])
    decreases TotalDepth(m, [k] + r)
  {
    assert k in [k] + r;
    TerminatesNext(m, k);
    forall x | x in r + [m[k]]
      ensures Terminates(m, x)
    {
      assert x == m[k] || x in [k] + r;
    }
    var i := Images(m, r);
    PhysicalConcat(m, [k], r);
    PhysicalConcat(m, r, [m[k]]);
    ImagesTerminate(m, [k] + r);
    ImagesTerminate(m, r + [m[k]]);
    assert Physical(m, [k] + r) == Physical(m, r);
    assert Images(m, [k] + r) == [m[k]] + i;
    if m[k] in m {
      assert Physical(m, r + [m[k]]) == Physical(m, r);
      assert Images(m, r + [m[k]]) == i + [m[m[k]]];
      SettleQueued(m, m[k], i);
    } else {
      assert Physical(m, r + [m[k]]) == Physical(m, r) + [m[k]];
      assert Images(m, r + [m[k]]) == i;
      SettleAfterPhysical(m, [m[k]], i);
      Associative(Physical(m, r), [m[k]], Settle(m, i));
    }
  }

  // ---- The loop as a state machine. ----

  /** managed_interface_identifiers_a and the position of the iterator. */
  datatype State = State(names: seq<string>, i: nat)

  predicate Done(s: State) {
    s.i >= |s.names|
  }

  /** One iteration including the increment. After a replacement the iterator is reset to the
      first position and then incremented. */
  function Step(m: Mapping, s: State): State {
    if Done(s) then s
    else if s.names[s.i] !in m then s.(i := s.i + 1)
    else State(s.names[..s.i] + s.names[s.i + 1..] + [m[s.names[s.i]]], 1)
  }

  function Steps(m: Mapping, s: State, n: nat): State
    decreases n
  {
    if n == 0 then s else Steps(m, Step(m, s), n - 1)
  }

  /** The name that ends up at the first position, where the loop never looks again. */
  function Head(m: Mapping, names: seq<string>): string
    requires names != []
  {
    if names[0] !in m then names[0] else if |names| == 1 then m[names[0]] else names[1]
  }

  /** The names the loop does look at. */
  function Examined(m: Mapping, names: seq<string>): seq<string>
    requires names != []
  {
    if names[0] !in m then names[1..] else if |names| == 1 then [] else [names[0]] + names[2..]
  }

  /** After the first iteration the names between the first position and the iterator are no keys. */
  ghost predicate Scanning(m: Mapping, s: State) {
    && 1 <= s.i <= |s.names|
    && NoKeys(m, s.names[1..s.i])
    && AllTerminate(m, s.names[1..])
  }

  lemma FirstStep(m: Mapping, names: seq<string>)
    requires names != [] && AllTerminate(m, Examined(m, names))
    ensures var s := Step(m, State(names, 0));
            && Scanning(m, s) && |s.names| == |names|
            && s.names[0] == Head(m, names)
            && Settle(m, s.names[1..]) == Settle(m, Examined(m, names))
  {
    var s := Step(m, State(names, 0));
    assert s.names[1..1] == [];
    if names[0] in m && |names| > 1 {
      assert s.names == names[1..] + [m[names[0]]];
      assert s.names[1..] == names[2..] + [m[names[0]]];
      SettleQueued(m, names[0], names[2..]);
    }
  }

  lemma SlicesAround(names: seq<string>, i: nat)
    requires 1 <= i < |names|
    ensures names[1..i + 1] == names[1..i] + [names[i]]
    ensures names[1..] == names[1..i] + ([names[i]] + names[i + 1..])
  {
  }

  lemma MovedToTheEnd(names: seq<string>, i: nat, y: string)
    requires 1 <= i < |names|
    ensures (names[..i] + names[i + 1..] + [y])[1..] == names[1..i] + (names[i + 1..] + [y])
  {
  }

  lemma NextStep(m: Mapping, s: State)
    requires Scanning(m, s) && !Done(s)
    ensures var s' := Step(m, s);
            && Scanning(m, s') && |s'.names| == |s.names| && s'.names[0] == s.names[0]
            && Settle(m, s'.names[1..]) == Settle(m, s.names[1..])
            && (TotalDepth(m, s'.names[1..]) < TotalDepth(m, s.names[1..])
                || (s'.names == s.names && s'.i == s.i + 1))
  {
    var s' := Step(m, s);
    var name := s.names[s.i];
    SlicesAround(s.names, s.i);
    if name in m {
      var n, r := s.names[1..s.i], s.names[s.i + 1..];
      MovedToTheEnd(s.names, s.i, m[name]);
      assert s'.names[1..1] == [];
      SettleAfterPhysical(m, n, [name] + r);
      SettleQueued(m, name, r);
      QueuedDepth(m, n, name, r);
      SettleAfterPhysical(m, n, r + [m[name]]);
    }
  }

  lemma {:induction false} TotalDepthConcat(m: Mapping, a: seq<string>, b: seq<string>)
    requires AllTerminate(m, a) && AllTerminate(m, b)
    ensures AllTerminate(m, a + b) && TotalDepth(m, a + b) == TotalDepth(m, a) + TotalDepth(m, b)
  {
    if a == [] {
      assert a + b == b;
    } else {
      TotalDepthConcat(m, a[1..], b);
      assert (a + b)[0] == a[0] && (a + b)[1..] == a[1..] + b;
    }
  }

  lemma QueuedDepth(m: Mapping, n: seq<string>, k: string, r: seq<string>)
    requires k in m && NoKeys(m, n) && AllTerminate(m, [k] + r)
    ensures AllTerminate(m, n + ([k] + r)) && AllTerminate(m, n + (r + [m[k]]))
    ensures TotalDepth(m, n + (r + [m[k]])) < TotalDepth(m, n + ([k] + r))
  {
    NoKeysSettled(m, n);
    assert k in [k] + r;
    DepthNext(m, k);
    assert AllTerminate(m, r) by {
      forall x | x in r
        ensures Terminates(m, x)
      {
        assert x in [k] + r;
      }
    }
    TotalDepthConcat(m, [k], r);
    TotalDepthConcat(m, r, [m[k]]);
    TotalDepthConcat(m, n, [k] + r);
    TotalDepthConcat(m, n, r + [m[k]]);
  }

  /** The list at the end of the loop. */
  ghost function Rewritten(m: Mapping, names: seq<string>): seq<string>
    requires names != [] ==> AllTerminate(m, Examined(m, names))
  {
    if names == [] then [] else [Head(m, names)] + Settle(m, Examined(m, names))
  }

  /** The loop invariant: what the settled list of the examined names is does not change, and the
      first position is decided by the first iteration. */
  ghost predicate Invariant(m: Mapping, managed: seq<string>, s: State)
    requires managed != [] ==> AllTerminate(m, Examined(m, managed))
  {
    && s.i <= |s.names| == |managed|
    && (s.i == 0 ==> s.names == managed)
    && (s.i > 0 ==> Scanning(m, s))
    && (s.i > 0 ==> s.names[0] == Head(m, managed))
    && (s.i > 0 ==> Settle(m, s.names[1..]) == Settle(m, Examined(m, managed)))
  }

  ghost function Work(m: Mapping, managed: seq<string>, s: State): nat
    requires managed != [] ==> AllTerminate(m, Examined(m, managed))
    requires Invariant(m, managed, s)
  {
    if s.i > 0 then TotalDepth(m, s.names[1..]) else 0
  }

  /** Every iteration keeps the invariant and makes progress: the first one leaves position 0, the
      others shorten a chain or move on. */
  lemma StepKeepsInvariant(m: Mapping, managed: seq<string>, s: State)
    requires managed != [] ==> AllTerminate(m, Examined(m, managed))
    requires Invariant(m, managed, s) && !Done(s)
    ensures var s' := Step(m, s);
            && Invariant(m, managed, s') && s'.i > 0
            && (s.i == 0 || Work(m, managed, s') < Work(m, managed, s)
                || (s'.names == s.names && s'.i == s.i + 1))
  {
    if s.i == 0 {
      FirstStep(m, managed);
    } else {
      NextStep(m, s);
    }
  }

  lemma InvariantAtEnd(m: Mapping, managed: seq<string>, s: State)
    requires managed != [] ==> AllTerminate(m, Examined(m, managed))
    requires Invariant(m, managed, s) && Done(s)
    ensures s.names == Rewritten(m, managed)
  {
    if managed != [] {
      hide Examined, Head, Settle, NoKeys, AllTerminate;
      ScannedToTheEnd(m, s);
      NoKeysSettled(m, s.names[1..]);
      assert s.names == [s.names[0]] + s.names[1..];
    }
  }

  lemma ScannedToTheEnd(m: Mapping, s: State)
    requires Scanning(m, s) && Done(s)
    ensures s.names != [] && NoKeys(m, s.names[1..])
  {
    hide NoKeys, AllTerminate;
    assert s.names[1..s.i] == s.names[1..];
  }

  lemma EraseAfterAppend(names: seq<string>, i: nat, y: string)
    requires i < |names|
    ensures (names + [y])[..i] + (names + [y])[i + 1..] == names[..i] + names[i + 1..] + [y]
  {
  }

  /** The replacement loop. It ends with exactly the list `Rewritten` describes. */
  method Rewrite(m: Mapping, managed: seq<string>) returns (names: seq<string>)
    requires managed != [] ==> AllTerminate(m, Examined(m, managed))
    ensures names == Rewritten(m, managed)
  {
    hide Settle, TotalDepth, Examined, Scanning, Head;
    names := managed;
    var i: nat := 0;
    while i != |names|
      invariant Invariant(m, managed, State(names, i))
      decreases i == 0, Work(m, managed, State(names, i)), |names| - i
    {
      StepKeepsInvariant(m, managed, State(names, i));
      if names[i] !in m {
        i := i + 1;
        continue;
      }
      EraseAfterAppend(names, i, m[names[i]]);
      names := names + [m[names[i]]];
      names := names[..i] + names[i + 1..];
      i := 0;
      i := i + 1;
    }
    InvariantAtEnd(m, managed, State(names, i));
  }

  /** The replacement loop and the search for the asked interface. */
  method IsManaged(m: Mapping, managed: seq<string>, asked: string) returns (answer: bool)
    requires managed != [] ==> AllTerminate(m, Examined(m, managed))
    ensures answer <==> asked in Rewritten(m, managed)
  {
    var names := Rewrite(m, managed);
    for i := 0 to |names|
      invariant asked !in names[..i]
    {
      if names[i] == asked {
        return true;
      }
    }
    return false;
  }

  // ---- What the list means. ----

  /** The fully resolved names, with their multiplicities. */
  ghost function Resolved(m: Mapping, t: seq<string>): (r: multiset<string>)
    requires AllTerminate(m, t)
    ensures |r| == |t|
  {
    if t == [] then multiset{} else multiset{Resolve(m, t[0])} + Resolved(m, t[1..])
  }

  ghost predicate ResolvesTo(m: Mapping, t: seq<string>, y: string)
    requires AllTerminate(m, t)
  {
    exists x :: x in t && Resolve(m, x) == y
  }

  lemma {:induction false} InResolved(m: Mapping, t: seq<string>, y: string)
    requires AllTerminate(m, t)
    ensures y in Resolved(m, t) <==> ResolvesTo(m, t, y)
  {
    if t != [] {
      InResolved(m, t[1..], y);
      assert t == [t[0]] + t[1..];
    }
  }

  lemma BagAssociative(a: multiset<string>, b: multiset<string>, c: multiset<string>)
    ensures a + (b + c) == (a + b) + c
  {
  }

  lemma BagSwap(a: multiset<string>, b: multiset<string>, c: multiset<string>)
    ensures a + (b + c) == b + (a + c)
  {
  }

  lemma {:induction false} ResolvedSplit(m: Mapping, t: seq<string>)
    requires AllTerminate(m, t)
    ensures AllTerminate(m, Images(m, t))
    ensures Resolved(m, t) == multiset(Physical(m, t)) + Resolved(m, Images(m, t))
  {
    ImagesTerminate(m, t);
    if t != [] {
      ResolvedSplit(m, t[1..]);
      var x, p, r := Resolve(m, t[0]), Physical(m, t[1..]), Resolved(m, Images(m, t[1..]));
      if t[0] in m {
        TerminatesNext(m, t[0]);
        assert Images(m, t)[0] == m[t[0]] && Images(m, t)[1..] == Images(m, t[1..]);
        BagSwap(multiset{x}, multiset(p), r);
      } else {
        assert multiset([x] + p) == multiset{x} + multiset(p);
        BagAssociative(multiset{x}, multiset(p), r);
      }
    }
  }

  lemma {:induction false} PhysicalNoKeys(m: Mapping, t: seq<string>)
    ensures NoKeys(m, Physical(m, t))
  {
    if t != [] {
      PhysicalNoKeys(m, t[1..]);
    }
  }

  /** Settling keeps the multiset of resolved names and leaves no key. */
  lemma {:induction false} SettleResolves(m: Mapping, t: seq<string>)
    requires AllTerminate(m, t)
    ensures multiset(Settle(m, t)) == Resolved(m, t)
    ensures |Settle(m, t)| == |t|
    ensures NoKeys(m, Settle(m, t))
    decreases TotalDepth(m, t), |t|
  {
    if t != [] {
      ImagesTerminate(m, t);
      ResolvedSplit(m, t);
      SettleResolves(m, Images(m, t));
      PhysicalNoKeys(m, t);
      assert |multiset(Settle(m, t))| == |Settle(m, t)|;
    }
  }

  lemma InSettled(m: Mapping, t: seq<string>, y: string)
    requires AllTerminate(m, t)
    ensures y in Settle(m, t) <==> ResolvesTo(m, t, y)
  {
    SettleResolves(m, t);
    InResolved(m, t, y);
    assert y in Settle(m, t) <==> y in multiset(Settle(m, t));
  }

  lemma AllTerminateParts(m: Mapping, a: seq<string>, b: seq<string>)
    requires AllTerminate(m, a + b)
    ensures AllTerminate(m, a) && AllTerminate(m, b)
  {
    forall x | x in a || x in b
      ensures Terminates(m, x)
    {
      assert x in a + b;
    }
  }

  lemma {:induction false} ResolvedConcat(m: Mapping, a: seq<string>, b: seq<string>)
    requires AllTerminate(m, a + b)
    ensures AllTerminate(m, a) && AllTerminate(m, b)
    ensures Resolved(m, a + b) == Resolved(m, a) + Resolved(m, b)
  {
    AllTerminateParts(m, a, b);
    if a == [] {
      assert a + b == b;
    } else {
      var x, r := a[0], a[1..];
      assert a == [x] + r && a + b == [x] + (r + b);
      AllTerminateParts(m, [x], r);
      AllTerminateParts(m, [x], r + b);
      hide AllTerminate, Resolve;
      ResolvedConcat(m, r, b);
      assert Resolved(m, a + b) == multiset{Resolve(m, x)} + Resolved(m, r + b);
      assert Resolved(m, a) == multiset{Resolve(m, x)} + Resolved(m, r);
      BagAssociative(multiset{Resolve(m, x)}, Resolved(m, r), Resolved(m, b));
    }
  }

  /** One name is taken out of the list and its image is put at the end. */
  lemma ReplacementConserves(m: Mapping, a: seq<string>, k: string, b: seq<string>)
    requires k in m && AllTerminate(m, a + ([k] + b))
    ensures AllTerminate(m, (a + b) + [m[k]])
    ensures Resolved(m, (a + b) + [m[k]]) == Resolved(m, a + ([k] + b))
  {
    ResolvedConcat(m, a, [k] + b);
    ResolvedConcat(m, [k], b);
    ImageResolves(m, k);
    AllTerminateJoin(m, a, b);
    AllTerminateJoin(m, a + b, [m[k]]);
    hide AllTerminate, Resolve, Resolved;
    ResolvedConcat(m, a + b, [m[k]]);
    ResolvedConcat(m, a, b);
    BagSwap(Resolved(m, a), Resolved(m, [k]), Resolved(m, b));
  }

  lemma ImageResolves(m: Mapping, k: string)
    requires k in m && AllTerminate(m, [k])
    ensures AllTerminate(m, [m[k]]) && Resolved(m, [m[k]]) == Resolved(m, [k])
  {
    assert k in [k];
    TerminatesNext(m, k);
    assert Resolved(m, [k]) == multiset{Resolve(m, k)} == Resolved(m, [m[k]]);
  }

  lemma AllTerminateJoin(m: Mapping, a: seq<string>, b: seq<string>)
    requires AllTerminate(m, a) && AllTerminate(m, b)
    ensures AllTerminate(m, a + b)
  {
  }

  /** A replacement keeps the length of the list and the multiset of resolved names. */
  lemma StepConserves(m: Mapping, s: State)
    requires AllTerminate(m, s.names)
    ensures AllTerminate(m, Step(m, s).names)
    ensures |Step(m, s).names| == |s.names|
    ensures Resolved(m, Step(m, s).names) == Resolved(m, s.names)
  {
    hide AllTerminate, Resolved;
    if !Done(s) && s.names[s.i] in m {
      var a, k, b := s.names[..s.i], s.names[s.i], s.names[s.i + 1..];
      assert s.names == a + ([k] + b);
      assert Step(m, s).names == (a + b) + [m[k]];
      ReplacementConserves(m, a, k, b);
    }
  }

  /** The search answers, for every interface, whether some originally listed name resolves to it,
      if and only if the name left at the first position is physical. */
  lemma AnswersExactly(m: Mapping, managed: seq<string>)
    requires AllTerminate(m, managed)
    ensures managed != [] ==> AllTerminate(m, Examined(m, managed))
    ensures (forall asked :: asked in Rewritten(m, managed) <==> ResolvesTo(m, managed, asked))
       <==> (managed == [] || Head(m, managed) !in m)
  {
    if managed != [] {
      var head := Head(m, managed);
      assert Rewritten(m, managed)[0] == head;
      if head in m {
        assert head in Rewritten(m, managed);
      } else {
        forall asked
          ensures asked in Rewritten(m, managed) <==> ResolvesTo(m, managed, asked)
        {
          InSettled(m, Examined(m, managed), asked);
          HeadAndExamined(m, managed, asked);
        }
      }
    }
  }

  /** Two logical names at the front are enough for a wrong answer: the second of them stays where it
      is, and the interface it stands for is not found. */
  lemma SecondNameIsMissed()
    ensures var m, managed: seq<string> := map["l1" := "p1", "l2" := "p2"], ["l1", "l2"];
            && AllTerminate(m, managed) && AllTerminate(m, Examined(m, managed))
            && ResolvesTo(m, managed, "p2") && "p2" !in Rewritten(m, managed)
  {
    var m: Mapping, managed := map["l1" := "p1", "l2" := "p2"], ["l1", "l2"];
    OneStepResolves(m, "l1");
    OneStepResolves(m, "l2");
    assert "l2" in managed;
    assert Examined(m, managed) == ["l1"];
    InSettled(m, ["l1"], "p2");
  }

  lemma OneStepResolves(m: Mapping, x: string)
    requires x in m && m[x] !in m
    ensures Terminates(m, x) && Resolve(m, x) == m[x]
  {
    KeysOnly(m, m[x]);
    TerminatesNext(m, x);
  }

  /** When the first position holds a physical name, it stands for the one name not examined. */
  lemma HeadAndExamined(m: Mapping, managed: seq<string>, y: string)
    requires managed != [] && AllTerminate(m, managed) && Head(m, managed) !in m
    ensures AllTerminate(m, Examined(m, managed))
    ensures ResolvesTo(m, managed, y) <==> y == Head(m, managed) || ResolvesTo(m, Examined(m, managed), y)
  {
    var examined := Examined(m, managed);
    var other := if managed[0] !in m || |managed| == 1 then managed[0] else managed[1];
    assert Resolve(m, other) == Head(m, managed) && other in managed;
    forall x
      ensures x in managed <==> x == other || x in examined || (|managed| == 1 && x == managed[0])
    {
      if managed[0] !in m {
        assert managed == [managed[0]] + examined;
      } else if |managed| > 1 {
        assert managed == [managed[0]] + [managed[1]] + managed[2..];
      }
    }
    if x :| x in managed && Resolve(m, x) == y {
      assert x in examined || y == Head(m, managed);
    }
  }

  // ---- When the loop ends at all. ----

  /** Some name the loop has yet to come to has no end to its chain. */
  ghost predicate Doomed(m: Mapping, s: State) {
    && 1 <= s.i
    && exists k :: s.i <= k < |s.names| && !Terminates(m, s.names[k])
  }

  /** A name at position k has no end to its chain. */
  lemma DoomedAt(m: Mapping, s: State, k: nat)
    requires 1 <= s.i <= k < |s.names| && !Terminates(m, s.names[k])
    ensures Doomed(m, s)
  {
    hide Terminates;
  }

  lemma PositionFrom(names: seq<string>, d: nat, x: string) returns (k: nat)
    requires d <= |names| && x in names[d..]
    ensures d <= k < |names| && names[k] == x
  {
    var j :| 0 <= j < |names| - d && names[d..][j] == x;
    k := d + j;
  }

  lemma StepAtStart(m: Mapping, names: seq<string>)
    requires names != []
    ensures Step(m, State(names, 0)) == if names[0] in m then State(names[1..] + [m[names[0]]], 1) else State(names, 1)
  {
    assert names[..0] + names[1..] == names[1..];
  }

  lemma DoomedFirst(m: Mapping, names: seq<string>)
    requires names != [] && !AllTerminate(m, Examined(m, names))
    ensures Doomed(m, Step(m, State(names, 0)))
  {
    var x :| x in Examined(m, names) && !Terminates(m, x);
    StepAtStart(m, names);
    hide Terminates, Doomed, Step, AllTerminate;
    var s := Step(m, State(names, 0));
    if names[0] !in m {
      var k := PositionFrom(names, 1, x);
      DoomedAt(m, s, k);
    } else if x == names[0] {
      TerminatesNext(m, x);
      DoomedAt(m, s, |names| - 1);
    } else {
      assert x in names[2..];
      var k := PositionFrom(names, 2, x);
      DoomedAt(m, s, k - 1);
    }
  }

  lemma DoomedNext(m: Mapping, s: State)
    requires Doomed(m, s)
    ensures !Done(s) && Doomed(m, Step(m, s))
  {
    var k :| s.i <= k < |s.names| && !Terminates(m, s.names[k]);
    var s' := Step(m, s);
    var name := s.names[s.i];
    if name !in m {
      KeysOnly(m, name);
      assert s'.names[k] == s.names[k];
    } else if k == s.i {
      TerminatesNext(m, name);
      assert s'.names[|s.names| - 1] == m[name];
    } else {
      assert s'.names[k - 1] == s.names[k];
    }
  }

  lemma {:induction false} DoomedForever(m: Mapping, s: State, n: nat)
    requires Doomed(m, s)
    ensures !Done(Steps(m, s, n))
    decreases n
  {
    DoomedNext(m, s);
    if n > 0 {
      DoomedForever(m, Step(m, s), n - 1);
    }
  }

  lemma {:induction false} StepsToEnd(m: Mapping, managed: seq<string>, s: State) returns (n: nat)
    requires managed != [] ==> AllTerminate(m, Examined(m, managed))
    requires Invariant(m, managed, s)
    ensures Done(Steps(m, s, n)) && Steps(m, s, n).names == Rewritten(m, managed)
    decreases s.i == 0, Work(m, managed, s), |s.names| - s.i
  {
    hide Settle, Scanning, Step, Steps, Examined, Head, Rewritten, TotalDepth, AllTerminate;
    if Done(s) {
      InvariantAtEnd(m, managed, s);
      n := 0;
      StepsNone(m, s);
    } else {
      StepKeepsInvariant(m, managed, s);
      n := StepsToEnd(m, managed, Step(m, s));
      StepsMore(m, s, n);
      n := n + 1;
    }
  }

  lemma StepsNone(m: Mapping, s: State)
    ensures Steps(m, s, 0) == s
  {
  }

  lemma StepsMore(m: Mapping, s: State, n: nat)
    ensures Steps(m, s, n + 1) == Steps(m, Step(m, s), n)
  {
  }

  /** The loop ends if and only if the chain of every examined name does, and then with the list
      `Rewritten` describes. */
  lemma EndsExactly(m: Mapping, managed: seq<string>)
    ensures (exists n: nat :: Done(Steps(m, State(managed, 0), n)))
       <==> (managed == [] || AllTerminate(m, Examined(m, managed)))
    ensures managed == [] || AllTerminate(m, Examined(m, managed)) ==>
      exists n: nat :: Done(Steps(m, State(managed, 0), n))
        && Steps(m, State(managed, 0), n).names == Rewritten(m, managed)
  {
    var s := State(managed, 0);
    if managed == [] || AllTerminate(m, Examined(m, managed)) {
      var n := StepsToEnd(m, managed, s);
    } else {
      DoomedFirst(m, managed);
      forall n: nat
        ensures !Done(Steps(m, s, n))
      {
        if n > 0 {
          DoomedForever(m, Step(m, s), n - 1);
        }
      }
    }
  }

  /** A name that is mapped to itself, anywhere but at the first position, keeps the loop going
      forever. */
  lemma SelfMappedNeverEnds(n: nat)
    ensures !Done(Steps(map["l" := "l"], State(["p", "l"], 0), n))
  {
    var m: Mapping := map["l" := "l"];
    forall k: nat
      ensures Follow(m, "l", k) in m
    {
      SelfMapped(m, "l", k);
    }
    assert Examined(m, ["p", "l"]) == ["l"];
    assert "l" in ["l"];
    EndsExactly(m, ["p", "l"]);
  }

  lemma {:induction false} SelfMapped(m: Mapping, x: string, k: nat)
    requires x in m && m[x] == x
    ensures Follow(m, x, k) == x
    decreases k
  {
    if k > 0 {
      SelfMapped(m, x, k - 1);
    }
  }
}

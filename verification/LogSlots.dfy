/** What one rotation does to the numbered slots, stated without files, names or a walk.
    Element k of a row is the content of slot k + 1, if that slot is occupied. */
module LogSlots {
  import opened Options

  type Row = seq<Option<string>>

  /** The position of the free slot with the highest number, or -1. */
  function LastFree(s: Row): (g: int)
    ensures -1 <= g < |s|
    ensures g >= 0 ==> s[g] == None
    ensures forall k :: g < k < |s| ==> s[k].Some?
  {
    if s == [] then -1
    else if s[|s| - 1] == None then |s| - 1
    else LastFree(s[..|s| - 1])
  }

  /** Everything below position g moves up by one; what was at g is gone. */
  function CloseGap(s: Row, g: nat): (r: Row)
    requires g < |s|
    ensures |r| == |s| && r[0] == None
    ensures forall k :: 0 < k < |s| ==> r[k] == if k <= g then s[k - 1] else s[k]
  {
    [None] + (s[..g] + s[g + 1..])
  }

  /** One rotation of the numbered logs. In a crowded directory everything moves up by one and
      the last slot is dropped; otherwise the logs below the highest gap move up into it. */
  function Rotate(s: Row, crowded: bool): (r: Row)
    ensures |r| == |s|
  {
    var g := if crowded then |s| - 1 else LastFree(s);
    if g < 0 then s else CloseGap(s, g)
  }

  /** The contents in slot order, newest first. */
  function Contents(s: Row): (c: seq<string>)
    ensures |c| <= |s|
  {
    if s == [] then [] else Content(s[0]) + Contents(s[1..])
  }

  function Content(slot: Option<string>): (c: seq<string>)
    ensures |c| <= 1
  {
    if slot.Some? then [slot.value] else []
  }

  lemma {:induction false} ContentsConcat(a: Row, b: Row)
    ensures Contents(a + b) == Contents(a) + Contents(b)
  {
    if a == [] {
      assert a + b == b;
    } else {
      calc {
        Contents(a + b);
        { assert (a + b)[0] == a[0] && (a + b)[1..] == a[1..] + b; }
        Content(a[0]) + Contents(a[1..] + b);
        { ContentsConcat(a[1..], b); }
        Content(a[0]) + (Contents(a[1..]) + Contents(b));
        Content(a[0]) + Contents(a[1..]) + Contents(b);
      }
    }
  }

  lemma ContentsAround(s: Row, g: nat)
    requires g < |s|
    ensures Contents(s) == Contents(s[..g]) + (Content(s[g]) + Contents(s[g + 1..]))
  {
    assert s == s[..g] + s[g..];
    ContentsConcat(s[..g], s[g..]);
    assert s[g..][0] == s[g] && s[g..][1..] == s[g + 1..];
  }

  lemma ContentsAfterFree(s: Row)
    ensures Contents([None] + s) == Contents(s)
  {
    assert ([None] + s)[1..] == s;
  }

  lemma CloseGapContents(s: Row, g: nat)
    requires g < |s|
    ensures Contents(CloseGap(s, g)) == Contents(s[..g]) + Contents(s[g + 1..])
    ensures Contents(s) == Contents(s[..g]) + (Content(s[g]) + Contents(s[g + 1..]))
  {
    ContentsAround(s, g);
    ContentsConcat(s[..g], s[g + 1..]);
    ContentsAfterFree(s[..g] + s[g + 1..]);
  }

  /** Outside a crowded directory no content is lost and the age order is kept; in a crowded one
      only the content of the last slot goes. */
  lemma RotateKeepsContents(s: Row, crowded: bool)
    ensures !crowded ==> Contents(Rotate(s, crowded)) == Contents(s)
    ensures s != [] && crowded ==> Contents(s) == Contents(Rotate(s, crowded)) + Content(s[|s| - 1])
  {
    var g := if crowded then |s| - 1 else LastFree(s);
    if g >= 0 {
      CloseGapContents(s, g);
      var below, above := Contents(s[..g]), Contents(s[g + 1..]);
      if crowded {
        assert above == [] && below + above == below;
        assert Content(s[g]) + above == Content(s[g]);
      } else {
        assert Content(s[g]) + above == above;
      }
    }
  }

  /** Every occupied slot keeps its content or hands it to the next slot; the only exception is
      the last slot of a crowded directory. */
  lemma RotateMovesByAtMostOne(s: Row, crowded: bool, k: nat)
    requires k < |s| && s[k].Some?
    ensures (crowded && k == |s| - 1)
         || Rotate(s, crowded)[k] == s[k]
         || (k + 1 < |s| && Rotate(s, crowded)[k + 1] == s[k])
  {
    hide LastFree;
  }

  /** n rotations in a directory that is not crowded. */
  function RotateMany(s: Row, n: nat): (r: Row)
    ensures |r| == |s|
    decreases n
  {
    if n == 0 then s else RotateMany(Rotate(s, false), n - 1)
  }

  /** The first j slots are free. */
  predicate FreeFront(s: Row, j: nat) {
    j <= |s| && forall k :: 0 <= k < j ==> s[k] == None
  }

  /** The free slots are exactly the first j: there is nothing left to close. */
  predicate PackedFrom(s: Row, j: nat) {
    FreeFront(s, j) && forall k :: j <= k < |s| ==> s[k].Some?
  }

  lemma {:induction false} PackedCount(s: Row, j: nat)
    requires PackedFrom(s, j)
    ensures |Contents(s)| == |s| - j
  {
    if s != [] {
      PackedCount(s[1..], if j > 0 then j - 1 else 0);
    }
  }

  lemma PackedIsFixed(s: Row, j: nat)
    requires PackedFrom(s, j)
    ensures Rotate(s, false) == s
  {
    assert j > 0 ==> s[j - 1] == None;
    assert LastFree(s) == j - 1;
  }

  lemma RotateExtendsFreeFront(s: Row, j: nat)
    requires FreeFront(s, j) && !PackedFrom(s, j)
    ensures FreeFront(Rotate(s, false), j + 1)
  {
    assert LastFree(s) >= j;
  }

  /** Repeated rotation without a current log only packs the logs towards the last slot, in
      their order. The packed row is reached after as many rotations as there are slots at the
      latest, and from then on nothing changes. */
  lemma RepeatedRotationPacks(s: Row, n: nat)
    requires n >= |s|
    ensures PackedFrom(RotateMany(s, n), |s| - |Contents(s)|)
    ensures Contents(RotateMany(s, n)) == Contents(s)
    ensures Rotate(RotateMany(s, n), false) == RotateMany(s, n)
  {
    var j := PackFrom(s, 0, n);
    RotateManyKeepsContents(s, n);
    PackedCount(RotateMany(s, n), j);
    PackedIsFixed(RotateMany(s, n), j);
  }

  lemma {:induction false} PackFrom(s: Row, j: nat, n: nat) returns (packed: nat)
    requires FreeFront(s, j) && n + j >= |s|
    ensures PackedFrom(RotateMany(s, n), packed)
    decreases n
  {
    if PackedFrom(s, j) {
      PackedIsFixed(s, j);
      RotateFixpoint(s, n);
      packed := j;
    } else {
      RotateExtendsFreeFront(s, j);
      packed := PackFrom(Rotate(s, false), j + 1, n - 1);
    }
  }

  lemma {:induction false} RotateManyKeepsContents(s: Row, n: nat)
    ensures Contents(RotateMany(s, n)) == Contents(s)
    decreases n
  {
    if n > 0 {
      RotateKeepsContents(s, false);
      RotateManyKeepsContents(Rotate(s, false), n - 1);
    }
  }

  lemma {:induction false} RotateFixpoint(s: Row, n: nat)
    requires Rotate(s, false) == s
    ensures RotateMany(s, n) == s
  {
    if n > 0 {
      RotateFixpoint(s, n - 1);
    }
  }
}

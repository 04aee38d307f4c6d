/**
  `removeChild` of app/model/node.ts: `findIndex` for the id, then
  `splice(index, 1)`. With the id absent `findIndex` gives -1, and
  `splice(-1, 1)` removes the LAST child.
 */
module ChildList {
  import opened NodeRecords

  /** `Array.prototype.findIndex` for an equal id: the first position, or -1. */
  function FirstIndex(s: seq<Id>, x: Id): (k: int)
    ensures -1 <= k < |s|
    ensures k == -1 <==> x !in s
    ensures 0 <= k ==> s[k] == x && x !in s[..k]
  {
    if s == [] then -1
    else if s[0] == x then 0
    else
      var k := FirstIndex(s[1..], x);
      assert s[1..][..if k < 0 then 0 else k] == s[1..if k < 0 then 1 else k + 1];
      if k < 0 then -1 else k + 1
  }

  /**
    `Array.prototype.splice(start, 1)`: a negative start counts from the end
    (clamped at 0), a start past the end removes nothing.
   */
  function SpliceOne<T>(s: seq<T>, start: int): (r: seq<T>)
    ensures 0 <= start < |s| ==> r == s[..start] + s[start + 1..]
    ensures -|s| <= start < 0 ==> r == s[..|s| + start] + s[|s| + start + 1..]
    ensures start < -|s| && s != [] ==> r == s[1..]
    ensures start >= |s| ==> r == s
    ensures s == [] ==> r == []
  {
    var from :=
      if start < 0 then (if |s| + start < 0 then 0 else |s| + start)
      else if start > |s| then |s| else start;
    if from < |s| then s[..from] + s[from + 1..] else s
  }

  /** The child list after `removeChild(x)`. */
  function Removed(s: seq<Id>, x: Id): (r: seq<Id>)
    ensures |r| == if s == [] then 0 else |s| - 1
  {
    SpliceOne(s, FirstIndex(s, x))
  }

  /** The linear scan behind `findIndex`. */
  method FindIndex(s: seq<Id>, x: Id) returns (k: int)
    ensures k == FirstIndex(s, x)
    ensures k == -1 <==> x !in s
    ensures 0 <= k ==> k < |s| && s[k] == x && x !in s[..k]
  {
    k := 0;
    while k < |s| && s[k] != x
      invariant 0 <= k <= |s|
      invariant x !in s[..k]
    {
      assert s[..k + 1] == s[..k] + [s[k]];
      k := k + 1;
    }
    if k == |s| {
      assert s[..k] == s;
      k := -1;
    }
  }

  /**
    With x present, exactly its first occurrence goes and every other child
    keeps its place.
   */
  lemma RemovedPresent(s: seq<Id>, x: Id)
    requires x in s
    ensures var k := FirstIndex(s, x);
      && 0 <= k < |s| && s[k] == x && x !in s[..k]
      && Removed(s, x) == s[..k] + s[k + 1..]
    ensures |Removed(s, x)| == |s| - 1
    ensures multiset(Removed(s, x)) == multiset(s) - multiset{x}
  {
    var k := FirstIndex(s, x);
    var r := s[..k] + s[k + 1..];
    assert Removed(s, x) == r;
    var a, b := s[..k], s[k + 1..];
    assert s == a + [x] + b;
    assert multiset(s) == multiset(a) + multiset{x} + multiset(b);
    assert multiset(r) == multiset(a) + multiset(b);
  }

  /** With x absent, the last child goes (and an empty list stays empty). */
  lemma RemovedAbsent(s: seq<Id>, x: Id)
    requires x !in s
    ensures Removed(s, x) == if s == [] then [] else s[..|s| - 1]
  {
  }

  /** Nothing new ever enters a list by removal. */
  lemma RemovedSubset(s: seq<Id>, x: Id)
    ensures forall y :: y in Removed(s, x) ==> y in s
    ensures NoDup(s) ==> NoDup(Removed(s, x))
  {
    var from := if x in s then FirstIndex(s, x) else |s| - 1;
    if s != [] {
      assert Removed(s, x) == s[..from] + s[from + 1..];
      forall y | y in Removed(s, x) ensures y in s {
        var i :| 0 <= i < |Removed(s, x)| && Removed(s, x)[i] == y;
        if i < from { assert s[i] == y; } else { assert s[i + 1] == y; }
      }
      if NoDup(s) {
        var r := Removed(s, x);
        forall i, j | 0 <= i < j < |r| ensures r[i] != r[j] {
          var i' := if i < from then i else i + 1;
          var j' := if j < from then j else j + 1;
          assert r[i] == s[i'] && r[j] == s[j'] && i' < j';
        }
      }
    }
  }

  /**
    In a duplicate-free list holding x, removal takes out x and nothing else.
   */
  lemma RemovedExactly(s: seq<Id>, x: Id)
    requires NoDup(s) && x in s
    ensures forall y :: y in Removed(s, x) <==> y in s && y != x
  {
    RemovedPresent(s, x);
    var k := FirstIndex(s, x);
    var a, b := s[..k], s[k + 1..];
    assert s == a + [x] + b;
    assert x !in b by {
      forall j | 0 <= j < |b| ensures b[j] != x {
        assert b[j] == s[k + 1 + j];
      }
    }
    assert Removed(s, x) == a + b;
  }

  /**
    An ObjectId as the source holds it: an object, whose `===` compares
    `instance` (which object it is), while `toString` gives `value`.
   */
  datatype IdObject = IdObject(instance: nat, value: Id)

  /** The values behind a list of ObjectId objects. */
  function Values(s: seq<IdObject>): (r: seq<Id>)
    ensures |r| == |s|
    ensures forall i :: 0 <= i < |s| ==> r[i] == s[i].value
  {
    if s == [] then [] else [s[0].value] + Values(s[1..])
  }

  /** `findIndex(childid => childid === id)` as written: the first entry that is the same object. */
  function FirstSameObject(s: seq<IdObject>, x: IdObject): (k: int)
    ensures -1 <= k < |s|
    ensures k == -1 <==> forall i :: 0 <= i < |s| ==> s[i].instance != x.instance
    ensures 0 <= k ==> s[k].instance == x.instance
    ensures 0 <= k ==> forall i :: 0 <= i < k ==> s[i].instance != x.instance
  {
    if s == [] then -1
    else if s[0].instance == x.instance then 0
    else
      var k := FirstSameObject(s[1..], x);
      assert forall i :: 1 <= i < |s| ==> s[i] == s[1..][i - 1];
      if k < 0 then -1 else k + 1
  }

  /** `removeChild` as written, on ObjectId objects compared by identity. */
  function RemovedAsWritten(s: seq<IdObject>, x: IdObject): (r: seq<IdObject>)
    ensures |r| == if s == [] then 0 else |s| - 1
  {
    SpliceOne(s, FirstSameObject(s, x))
  }

  /**
    The list of a freshly loaded document holds no object the caller has,
    so the id given never matches by identity and the LAST child goes,
    whatever the values are.
   */
  lemma RemovedAsWrittenDropsLast(s: seq<IdObject>, x: IdObject)
    requires forall i :: 0 <= i < |s| ==> s[i].instance != x.instance
    ensures Values(RemovedAsWritten(s, x)) == if s == [] then [] else Values(s)[..|s| - 1]
  {
    if s != [] {
      var r := RemovedAsWritten(s, x);
      assert FirstSameObject(s, x) == -1;
      assert r == s[..|s| - 1] + s[|s|..];
      var v, w := Values(r), Values(s)[..|s| - 1];
      assert |v| == |w|;
      forall i | 0 <= i < |v| ensures v[i] == w[i] {
        assert r[i] == s[i];
      }
    }
  }

  /**
    A parent listing [A, B], loaded afresh, asked to remove A: the code as
    written keeps A and drops B, where removal by value drops A.
   */
  lemma RemoveByIdentityKeepsWrongChild(a: Id, b: Id)
    requires a != b
    ensures var s, x := [IdObject(0, a), IdObject(1, b)], IdObject(2, a);
      && Values(RemovedAsWritten(s, x)) == [a]
      && Removed(Values(s), x.value) == [b]
  {
    var s, x := [IdObject(0, a), IdObject(1, b)], IdObject(2, a);
    RemovedAsWrittenDropsLast(s, x);
    RemovedPresent(Values(s), a);
  }
}

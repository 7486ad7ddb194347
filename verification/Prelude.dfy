/** Values shared by every component: optional values, real-number helpers and ordered lists. */
module Prelude {

  datatype Option<+T> = None | Some(value: T) {
    function GetOr(default: T): T {
      if Some? then value else default
    }
  }

  function Max(x: real, y: real): real { if x >= y then x else y }

  function Min(x: real, y: real): real { if x <= y then x else y }

  function Abs(x: real): real { if x >= 0.0 then x else -x }

  ghost predicate Increasing(s: seq<real>) {
    forall i, j :: 0 <= i < j < |s| ==> s[i] < s[j]
  }

  ghost predicate Nondecreasing(s: seq<real>) {
    forall i, j :: 0 <= i < j < |s| ==> s[i] <= s[j]
  }

  ghost predicate NoDuplicates<T>(s: seq<T>) {
    forall i, j :: 0 <= i < j < |s| ==> s[i] != s[j]
  }

  /** First occurrences only, in their original order. */
  function Distinct(s: seq<real>): (r: seq<real>)
    ensures NoDuplicates(r)
    ensures forall x :: x in r <==> x in s
    ensures s != [] ==> r != []
  {
    if s == [] then [] else
      var front := Distinct(s[..|s| - 1]);
      var last := s[|s| - 1];
      assert forall x :: x in s <==> x in s[..|s| - 1] || x == last;
      if last in front then front else front + [last]
  }

  function Insert(x: real, s: seq<real>): (r: seq<real>)
    ensures |r| == |s| + 1
    ensures multiset(r) == multiset(s) + multiset{x}
  {
    if s == [] || x <= s[0] then [x] + s
    else
      assert s == [s[0]] + s[1..];
      [s[0]] + Insert(x, s[1..])
  }

  lemma InsertMembers(x: real, s: seq<real>)
    ensures forall i :: 0 <= i < |Insert(x, s)| ==> Insert(x, s)[i] == x || Insert(x, s)[i] in s
  {
    forall i | 0 <= i < |Insert(x, s)| ensures Insert(x, s)[i] == x || Insert(x, s)[i] in s {
      assert Insert(x, s)[i] in multiset(Insert(x, s));
    }
  }

  lemma {:induction false} InsertOrdered(x: real, s: seq<real>)
    requires Nondecreasing(s)
    ensures Nondecreasing(Insert(x, s))
  {
    if s != [] && s[0] < x {
      InsertOrdered(x, s[1..]);
      InsertMembers(x, s[1..]);
    }
  }

  lemma {:induction false} InsertIncreasing(x: real, s: seq<real>)
    requires Increasing(s) && x !in s
    ensures Increasing(Insert(x, s))
  {
    if s != [] && s[0] < x {
      InsertIncreasing(x, s[1..]);
      InsertMembers(x, s[1..]);
    }
  }

  lemma SameMembers(r: seq<real>, s: seq<real>)
    requires multiset(r) == multiset(s)
    ensures forall x :: x in r <==> x in s
  {
    assert forall x :: x in r <==> x in multiset(r);
    assert forall x :: x in s <==> x in multiset(s);
  }

  lemma InsertSorts(s: seq<real>, rest: seq<real>)
    requires s != [] && Nondecreasing(rest) && multiset(rest) == multiset(s[1..]) && |rest| == |s| - 1
    requires NoDuplicates(s[1..]) ==> Increasing(rest)
    ensures Nondecreasing(Insert(s[0], rest)) && |Insert(s[0], rest)| == |s|
    ensures multiset(Insert(s[0], rest)) == multiset(s)
    ensures forall x :: x in Insert(s[0], rest) <==> x in s
    ensures NoDuplicates(s) ==> Increasing(Insert(s[0], rest))
  {
    hide Insert;
    var r := Insert(s[0], rest);
    InsertOrdered(s[0], rest);
    assert s == [s[0]] + s[1..];
    assert multiset(r) == multiset(s);
    hide Nondecreasing;
    SameMembers(r, s);
    SameMembers(rest, s[1..]);
    if NoDuplicates(s) {
      FirstIsNew(s);
      InsertIncreasing(s[0], rest);
    }
  }

  lemma FirstIsNew(s: seq<real>)
    requires s != [] && NoDuplicates(s)
    ensures NoDuplicates(s[1..]) && s[0] !in s[1..]
  {
    assert forall i :: 0 <= i < |s[1..]| ==> s[1..][i] == s[i + 1];
  }

  /** Ascending order, keeping duplicates. */
  function Sort(s: seq<real>): (r: seq<real>)
    ensures Nondecreasing(r) && |r| == |s|
    ensures multiset(r) == multiset(s)
    ensures forall x :: x in r <==> x in s
    ensures NoDuplicates(s) ==> Increasing(r)
  {
    if s == [] then [] else
      var rest := Sort(s[1..]);
      InsertSorts(s, rest);
      Insert(s[0], rest)
  }

  lemma MulLe(a: nat, b: nat, c: nat)
    requires a <= b
    ensures a * c <= b * c
  {
    assert (b - a) * c >= 0;
  }
}

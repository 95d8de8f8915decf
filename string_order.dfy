/**
  Go's ordering of strings (`<` on `string`, which `slices.Sort` uses) and the
  sorted key lists that fsm/graphviz.go builds from map keys.

  Go compares strings byte by byte in their UTF-8 encoding. UTF-8 preserves the
  order of code points, so comparing the characters of a Dafny `string` (Unicode
  scalar values) one by one gives the same order.
*/
module StringOrder {

  /** Strict lexicographic order: a proper prefix comes first. */
  predicate Less(a: string, b: string)
    decreases |a|
  {
    if |b| == 0 then false
    else if |a| == 0 then true
    else if a[0] != b[0] then a[0] < b[0]
    else Less(a[1..], b[1..])
  }

  predicate LessEq(a: string, b: string)
  {
    a == b || Less(a, b)
  }

  lemma {:induction false} LessIrreflexive(a: string)
    ensures !Less(a, a)
  {
    if |a| > 0 {
      LessIrreflexive(a[1..]);
    }
  }

  lemma {:induction false} LessTransitive(a: string, b: string, c: string)
    requires Less(a, b) && Less(b, c)
    ensures Less(a, c)
  {
    if |a| > 0 && a[0] == b[0] && b[0] == c[0] {
      LessTransitive(a[1..], b[1..], c[1..]);
    }
  }

  lemma {:induction false} LessTotal(a: string, b: string)
    requires a != b
    ensures Less(a, b) || Less(b, a)
  {
    if |a| > 0 && |b| > 0 && a[0] == b[0] {
      assert a == [a[0]] + a[1..] && b == [b[0]] + b[1..];
      LessTotal(a[1..], b[1..]);
    }
  }

  lemma LessAsymmetric(a: string, b: string)
    requires Less(a, b)
    ensures !Less(b, a)
  {
    if Less(b, a) {
      LessTransitive(a, b, a);
      LessIrreflexive(a);
    }
  }

  lemma LessEqAntisymmetric(a: string, b: string)
    requires LessEq(a, b) && LessEq(b, a)
    ensures a == b
  {
    if Less(a, b) {
      LessAsymmetric(a, b);
    }
  }

  lemma LessEqTransitive(a: string, b: string, c: string)
    requires LessEq(a, b) && LessEq(b, c)
    ensures LessEq(a, c)
  {
    if Less(a, b) && Less(b, c) {
      LessTransitive(a, b, c);
    }
  }

  /** The order `slices.Sort` establishes. */
  ghost predicate Sorted(s: seq<string>)
  {
    forall i, j :: 0 <= i < j < |s| ==> LessEq(s[i], s[j])
  }

  /** Sorted without repetitions, as the keys of a map come out once sorted. */
  ghost predicate StrictlySorted(s: seq<string>)
  {
    forall i, j :: 0 <= i < j < |s| ==> Less(s[i], s[j])
  }

  /** `m` is below or equal to every element of `s`. */
  ghost predicate IsLeast(m: string, s: set<string>)
  {
    m in s && forall x :: x in s ==> LessEq(m, x)
  }

  /** Adding `y` to a set with least element `m`: the smaller of the two is least. */
  lemma LeastStep(s: set<string>, y: string, m: string)
    requires y in s && IsLeast(m, s - {y})
    ensures IsLeast(if Less(y, m) then y else m, s)
  {
    if Less(y, m) {
      forall x | x in s
        ensures LessEq(y, x)
      {
        if x != y && x != m {
          assert x in s - {y};
          LessTransitive(y, m, x);
        }
      }
    } else {
      LessTotal(y, m);
    }
  }

  /** The least element of a finite non-empty set. */
  ghost function Minimum(s: set<string>): (m: string)
    requires s != {}
    ensures IsLeast(m, s)
    decreases |s|
  {
    var y :| y in s;
    if s == {y} then y
    else
      var m := Minimum(s - {y});
      LeastStep(s, y, m);
      if Less(y, m) then y else m
  }

  /** Putting a least element in front keeps a sequence strictly sorted. */
  lemma ConsStrictlySorted(m: string, rest: seq<string>)
    requires StrictlySorted(rest)
    requires forall x :: x in rest ==> Less(m, x)
    ensures StrictlySorted([m] + rest)
  {
    var r := [m] + rest;
    forall i, j | 0 <= i < j < |r|
      ensures Less(r[i], r[j])
    {
      assert r[j] == rest[j - 1];
      if i > 0 {
        assert r[i] == rest[i - 1];
      }
    }
  }

  lemma LeastBeforeRest(s: set<string>, m: string, rest: seq<string>)
    requires IsLeast(m, s) && StrictlySorted(rest)
    requires multiset(rest) == multiset(s - {m})
    ensures StrictlySorted([m] + rest)
    ensures multiset([m] + rest) == multiset(s)
  {
    forall x | x in rest
      ensures Less(m, x)
    {
      assert x in multiset(rest);
    }
    ConsStrictlySorted(m, rest);
    assert multiset(s) == multiset{m} + multiset(s - {m});
  }

  /** The keys of a map as `getSortedStateKeys`/`getSortedEventKeys` return them. */
  ghost function SortedSeq(s: set<string>): (r: seq<string>)
    ensures StrictlySorted(r)
    ensures |r| == |s|
    ensures multiset(r) == multiset(s)
    ensures forall x :: x in r <==> x in s
    decreases |s|
  {
    if s == {} then []
    else
      var m := Minimum(s);
      var rest := SortedSeq(s - {m});
      LeastBeforeRest(s, m, rest);
      [m] + rest
  }

  lemma HeadIsLeast(s: seq<string>)
    requires Sorted(s) && s != []
    ensures forall x :: x in multiset(s) ==> LessEq(s[0], x)
  {
    forall x | x in multiset(s)
      ensures LessEq(s[0], x)
    {
      var i :| 0 <= i < |s| && s[i] == x;
      if i > 0 {
        assert LessEq(s[0], s[i]);
      }
    }
  }

  lemma SortedTail(s: seq<string>)
    requires Sorted(s) && s != []
    ensures Sorted(s[1..])
  {
    forall i, j | 0 <= i < j < |s| - 1
      ensures LessEq(s[1..][i], s[1..][j])
    {
      assert s[1..][i] == s[i + 1] && s[1..][j] == s[j + 1];
    }
  }

  lemma MultisetTail(a: seq<string>, b: seq<string>)
    requires a != [] && b != [] && a[0] == b[0] && multiset(a) == multiset(b)
    ensures multiset(a[1..]) == multiset(b[1..])
  {
    assert a == [a[0]] + a[1..] && b == [b[0]] + b[1..];
    assert multiset(a[1..]) == multiset(a) - multiset{a[0]};
  }

  lemma SameHead(a: seq<string>, b: seq<string>)
    requires Sorted(a) && Sorted(b) && multiset(a) == multiset(b) && a != [] && b != []
    ensures a[0] == b[0]
  {
    HeadIsLeast(a);
    HeadIsLeast(b);
    assert a[0] in multiset(b) && b[0] in multiset(a);
    LessEqAntisymmetric(a[0], b[0]);
  }

  lemma EmptyAlike(a: seq<string>, b: seq<string>)
    requires multiset(a) == multiset(b) && (a == [] || b == [])
    ensures a == b
  {
    assert |multiset(a)| == |a| && |multiset(b)| == |b|;
  }

  /** Two sorted sequences with the same elements are the same sequence. */
  lemma {:induction false} SortedUnique(a: seq<string>, b: seq<string>)
    requires Sorted(a) && Sorted(b) && multiset(a) == multiset(b)
    ensures a == b
    decreases |a|
  {
    if a == [] || b == [] {
      EmptyAlike(a, b);
    } else {
      SameHead(a, b);
      MultisetTail(a, b);
      SortedTail(a);
      SortedTail(b);
      SortedUnique(a[1..], b[1..]);
      assert a == [a[0]] + a[1..] && b == [b[0]] + b[1..];
    }
  }

  /** An array, sorted in place, is the sorted list of the set it holds. */
  lemma SortedIsSortedSeq(a: seq<string>, s: set<string>)
    requires Sorted(a) && multiset(a) == multiset(s)
    ensures a == SortedSeq(s)
  {
    var r := SortedSeq(s);
    assert Sorted(r);
    SortedUnique(a, r);
  }

  /** Sorts `a` in place in ascending order, as `slices.Sort` does. */
  method SortInPlace(a: array<string>)
    modifies a
    ensures Sorted(a[..])
    ensures multiset(a[..]) == old(multiset(a[..]))
  {
    var i := 0;
    while i < a.Length
      invariant 0 <= i <= a.Length
      invariant Sorted(a[..i])
      invariant multiset(a[..]) == old(multiset(a[..]))
    {
      InsertLast(a, i);
      i := i + 1;
    }
  }

  /**
    The state of one insertion step on `s`: apart from position `j`, the prefix
    `s[..i + 1]` is in order, and `s[j]` is below everything to its right.
  */
  ghost predicate Inserting(s: seq<string>, i: nat, j: nat)
  {
    && j <= i < |s|
    && (forall p, q :: 0 <= p < q <= i && p != j && q != j ==> LessEq(s[p], s[q]))
    && (forall q :: j < q <= i ==> Less(s[j], s[q]))
  }

  lemma InsertingStart(s: seq<string>, i: nat)
    requires i < |s| && Sorted(s[..i])
    ensures Inserting(s, i, i)
  {
    forall p, q | 0 <= p < q <= i && p != i && q != i
      ensures LessEq(s[p], s[q])
    {
      assert s[p] == s[..i][p] && s[q] == s[..i][q];
    }
  }

  lemma InsertingSwap(s: seq<string>, i: nat, j: nat)
    requires Inserting(s, i, j) && 0 < j && Less(s[j], s[j - 1])
    ensures Inserting(s[j - 1 := s[j]][j := s[j - 1]], i, j - 1)
  {
  }

  lemma InsertingDone(s: seq<string>, i: nat, j: nat)
    requires Inserting(s, i, j) && (j == 0 || !Less(s[j], s[j - 1]))
    ensures Sorted(s[..i + 1])
  {
    if j > 0 && s[j - 1] != s[j] {
      LessTotal(s[j - 1], s[j]);
    }
    forall p, q | 0 <= p < q <= i
      ensures LessEq(s[p], s[q])
    {
      if q == j && p < j - 1 {
        LessEqTransitive(s[p], s[j - 1], s[j]);
      }
    }
  }

  /** Moves `a[i]` left into the sorted prefix `a[..i]`. */
  method InsertLast(a: array<string>, i: nat)
    requires i < a.Length && Sorted(a[..i])
    modifies a
    ensures Sorted(a[..i + 1])
    ensures multiset(a[..]) == old(multiset(a[..]))
  {
    InsertingStart(a[..], i);
    var j := i;
    while j > 0 && Less(a[j], a[j - 1])
      invariant 0 <= j && Inserting(a[..], i, j)
      invariant multiset(a[..]) == old(multiset(a[..]))
    {
      InsertingSwap(a[..], i, j);
      a[j - 1], a[j] := a[j], a[j - 1];
      j := j - 1;
    }
    InsertingDone(a[..], i, j);
  }
}

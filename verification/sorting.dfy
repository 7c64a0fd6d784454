/** Python's ordering of strings (by code point, a prefix first) and `list.sort()` on strings. */
module Sorting {

  /** `a <= b` on Python strings. */
  predicate Below(a: string, b: string)
    decreases |a|
  {
    |a| == 0 || (|b| > 0 && (a[0] < b[0] || (a[0] == b[0] && Below(a[1..], b[1..]))))
  }

  lemma {:induction false} BelowTotal(a: string, b: string)
    ensures Below(a, b) || Below(b, a)
    decreases |a|
  {
    if |a| > 0 && |b| > 0 && a[0] == b[0] {
      BelowTotal(a[1..], b[1..]);
    }
  }

  lemma {:induction false} BelowReflexive(a: string)
    ensures Below(a, a)
    decreases |a|
  {
    if |a| > 0 {
      BelowReflexive(a[1..]);
    }
  }

  lemma {:induction false} BelowAntisymmetric(a: string, b: string)
    requires Below(a, b) && Below(b, a)
    ensures a == b
    decreases |a|
  {
    if |a| > 0 {
      BelowAntisymmetric(a[1..], b[1..]);
      assert a == [a[0]] + a[1..];
      assert b == [b[0]] + b[1..];
    }
  }

  lemma {:induction false} BelowTransitive(a: string, b: string, c: string)
    requires Below(a, b) && Below(b, c)
    ensures Below(a, c)
    decreases |a|
  {
    if |a| > 0 && a[0] == b[0] && b[0] == c[0] {
      BelowTransitive(a[1..], b[1..], c[1..]);
    }
  }

  /** Every element is at most every later one. */
  predicate Sorted(s: seq<string>)
  {
    forall i, j :: 0 <= i < j < |s| ==> Below(s[i], s[j])
  }

  /** A sorted list stays sorted with an element in front that is below all of its elements. */
  lemma ConsSorted(a: string, s: seq<string>)
    requires Sorted(s)
    requires forall y :: y in multiset(s) ==> Below(a, y)
    ensures Sorted([a] + s)
  {
    forall i, j | 0 <= i < j < |[a] + s| ensures Below(([a] + s)[i], ([a] + s)[j]) {
      if i == 0 {
        assert s[j - 1] in multiset(s);
      }
    }
  }

  /** Inserts `x` into a sorted list in front of the first element it is below. */
  function Insert(x: string, s: seq<string>): (r: seq<string>)
    requires Sorted(s)
    ensures Sorted(r)
    ensures multiset(r) == multiset(s) + multiset{x}
  {
    if |s| == 0 then [x]
    else if Below(x, s[0]) then
      assert forall y :: y in multiset(s) ==> Below(x, y) by {
        forall y | y in multiset(s) ensures Below(x, y) {
          var j :| 0 <= j < |s| && s[j] == y;
          if j > 0 { BelowTransitive(x, s[0], s[j]); }
        }
      }
      ConsSorted(x, s);
      [x] + s
    else
      var rest := Insert(x, s[1..]);
      assert s == [s[0]] + s[1..];
      BelowTotal(x, s[0]);
      assert forall y :: y in multiset(rest) ==> Below(s[0], y) by {
        forall y | y in multiset(rest) ensures Below(s[0], y) {
          if y != x {
            assert y in multiset(s[1..]);
            var j :| 0 <= j < |s[1..]| && s[1..][j] == y;
            assert s[j + 1] == y;
          }
        }
      }
      ConsSorted(s[0], rest);
      [s[0]] + rest
  }

  /** Sorting a list of names in place: insertion sort under Python's string order. */
  function SortStrings(s: seq<string>): (r: seq<string>)
    ensures Sorted(r)
    ensures multiset(r) == multiset(s)
  {
    if |s| == 0 then []
    else
      assert s == [s[0]] + s[1..];
      Insert(s[0], SortStrings(s[1..]))
  }

  /** Two sorted arrangements of one multiset start with the same element. */
  lemma SameHead(a: seq<string>, b: seq<string>)
    requires Sorted(a) && Sorted(b)
    requires multiset(a) == multiset(b) && |a| > 0
    ensures |b| > 0 && a[0] == b[0]
  {
    assert a[0] in multiset(b);
    var k :| 0 <= k < |b| && b[k] == a[0];
    assert b[0] in multiset(a);
    var l :| 0 <= l < |a| && a[l] == b[0];
    assert Below(b[0], a[0]) by {
      if k > 0 { assert Below(b[0], b[k]); } else { BelowReflexive(a[0]); }
    }
    assert Below(a[0], b[0]) by {
      if l > 0 { assert Below(a[0], a[l]); } else { BelowReflexive(a[0]); }
    }
    BelowAntisymmetric(a[0], b[0]);
  }

  /** Removing the head of a non-empty list removes one copy of it from the multiset. */
  lemma TailMultiset(a: seq<string>)
    requires |a| > 0
    ensures multiset(a[1..]) == multiset(a) - multiset{a[0]}
  {
    assert a == [a[0]] + a[1..];
    assert multiset(a) == multiset{a[0]} + multiset(a[1..]);
  }

  /** A multiset of strings has one sorted arrangement, so any correct sort of the names agrees with this one. */
  lemma {:induction false} SortedUnique(a: seq<string>, b: seq<string>)
    requires Sorted(a) && Sorted(b)
    requires multiset(a) == multiset(b)
    ensures a == b
    decreases |a|
  {
    assert |a| == |multiset(a)| == |multiset(b)| == |b|;
    if |a| > 0 {
      SameHead(a, b);
      TailMultiset(a);
      TailMultiset(b);
      assert Sorted(a[1..]) && Sorted(b[1..]);
      SortedUnique(a[1..], b[1..]);
      assert a == [a[0]] + a[1..];
      assert b == [b[0]] + b[1..];
    }
  }
}

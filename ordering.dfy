/** Python's ordering of `str` values and its builtin `sorted` applied to a set
    of names: code points compared one by one, a proper prefix coming first. */
module Ordering {

  /** `a < b` on Python strings. */
  predicate LexLess(a: string, b: string) {
    if |a| == 0 then |b| > 0
    else |b| > 0 && (a[0] < b[0] || (a[0] == b[0] && LexLess(a[1..], b[1..])))
  }

  /** The textbook definition of the same order: after the longest common
      prefix, either `a` has ended while `b` goes on, or `a` has the smaller
      code point. */
  ghost predicate LexLessAt(a: string, b: string, k: nat) {
    k <= |a| && k <= |b| && a[..k] == b[..k] &&
    (k == |a| < |b| || (k < |a| && k < |b| && a[k] < b[k]))
  }

  lemma {:induction false} LexLessMeansFirstDifference(a: string, b: string)
    ensures LexLess(a, b) <==> exists k: nat :: LexLessAt(a, b, k)
  {
    if |a| > 0 && |b| > 0 && a[0] == b[0] {
      LexLessMeansFirstDifference(a[1..], b[1..]);
      if LexLess(a, b) {
        var k: nat :| LexLessAt(a[1..], b[1..], k);
        assert a[..k + 1] == [a[0]] + a[1..][..k];
        assert b[..k + 1] == [b[0]] + b[1..][..k];
        assert LexLessAt(a, b, k + 1);
      } else {
        forall k: nat | LexLessAt(a, b, k) ensures false {
          if k != 0 {
            assert a[1..][..k - 1] == a[..k][1..];
            assert b[1..][..k - 1] == b[..k][1..];
            assert LexLessAt(a[1..], b[1..], k - 1);
          }
        }
      }
    } else if LexLess(a, b) {
      assert LexLessAt(a, b, 0);
    } else {
      forall k: nat | LexLessAt(a, b, k) ensures false {
      }
    }
  }

  lemma {:induction false} LexLessIrreflexive(a: string)
    ensures !LexLess(a, a)
  {
    if |a| > 0 {
      LexLessIrreflexive(a[1..]);
    }
  }

  lemma {:induction false} LexLessTransitive(a: string, b: string, c: string)
    requires LexLess(a, b) && LexLess(b, c)
    ensures LexLess(a, c)
  {
    if |a| > 0 && a[0] == b[0] && b[0] == c[0] {
      LexLessTransitive(a[1..], b[1..], c[1..]);
    }
  }

  lemma {:induction false} LexLessTotal(a: string, b: string)
    ensures a == b || LexLess(a, b) || LexLess(b, a)
  {
    if |a| > 0 && |b| > 0 && a[0] == b[0] {
      LexLessTotal(a[1..], b[1..]);
      if a[1..] == b[1..] {
        assert a == [a[0]] + a[1..] && b == [b[0]] + b[1..];
      }
    }
  }

  lemma LexLessAsymmetric(a: string, b: string)
    requires LexLess(a, b)
    ensures !LexLess(b, a)
  {
    if LexLess(b, a) {
      LexLessTransitive(a, b, a);
      LexLessIrreflexive(a);
    }
  }

  /** Strictly increasing in Python's order, hence free of duplicates. */
  predicate Ascending(s: seq<string>) {
    forall i, j :: 0 <= i < j < |s| ==> LexLess(s[i], s[j])
  }

  /** Puts `x` into its place in an ascending sequence that lacks it. */
  function Insert(x: string, s: seq<string>): (r: seq<string>)
    requires Ascending(s) && x !in s
    ensures Ascending(r)
    ensures forall y :: y in r <==> y == x || y in s
    ensures |r| == |s| + 1
  {
    if s == [] then [x]
    else if LexLess(x, s[0]) then
      assert forall j :: 0 <= j < |s| ==> LexLess(x, s[j]) by {
        forall j | 0 <= j < |s| ensures LexLess(x, s[j]) {
          if j > 0 { LexLessTransitive(x, s[0], s[j]); }
        }
      }
      [x] + s
    else
      LexLessTotal(x, s[0]);
      var rest := Insert(x, s[1..]);
      assert forall y :: y in rest ==> LexLess(s[0], y);
      [s[0]] + rest
  }

  /** What `sorted(names)` returns for a set of names. */
  method SortedNames(names: set<string>) returns (r: seq<string>)
    ensures Ascending(r)
    ensures forall y :: y in r <==> y in names
    ensures |r| == |names|
  {
    r := [];
    var rest := names;
    while rest != {}
      invariant rest <= names
      invariant Ascending(r)
      invariant forall y :: y in r <==> y in names - rest
      invariant |r| + |rest| == |names|
      decreases rest
    {
      var x :| x in rest;
      r := Insert(x, r);
      rest := rest - {x};
    }
  }

  lemma {:induction false} SortedExists(names: set<string>)
    ensures exists r :: Ascending(r) && (forall y :: y in r <==> y in names) && |r| == |names|
    decreases names
  {
    if names != {} {
      var x :| x in names;
      SortedExists(names - {x});
      var r :| Ascending(r) && (forall y :: y in r <==> y in names - {x}) && |r| == |names - {x}|;
      var r' := Insert(x, r);
      assert forall y :: y in r' <==> y in names;
    }
  }

  /** The sequence `sorted(names)` denotes. */
  ghost function SortedList(names: set<string>): (r: seq<string>)
    ensures Ascending(r)
    ensures forall y :: y in r <==> y in names
    ensures |r| == |names|
  {
    SortedExists(names);
    var r :| Ascending(r) && (forall y :: y in r <==> y in names) && |r| == |names|;
    r
  }

  /** There is only one ascending arrangement of a set of names. */
  lemma {:induction false} AscendingUnique(a: seq<string>, b: seq<string>)
    requires Ascending(a) && Ascending(b)
    requires forall y :: y in a <==> y in b
    ensures a == b
    decreases |a|
  {
    assert a == [] <==> b == [] by {
      if a != [] { assert a[0] in b; }
      if b != [] { assert b[0] in a; }
    }
    if a != [] {
      if a[0] != b[0] {
        assert a[0] in b && b[0] in a;
        var i :| 0 <= i < |b| && b[i] == a[0];
        var j :| 0 <= j < |a| && a[j] == b[0];
        assert LexLess(b[0], a[0]) && LexLess(a[0], b[0]);
        LexLessAsymmetric(a[0], b[0]);
      }
      forall y ensures y in a[1..] <==> y in b[1..] {
        if y in a[1..] {
          var j :| 1 <= j < |a| && a[j] == y;
          LexLessIrreflexive(y);
          assert y != b[0];
          assert y in b;
          var i :| 0 <= i < |b| && b[i] == y;
          assert b[1..][i - 1] == y;
        }
        if y in b[1..] {
          var j :| 1 <= j < |b| && b[j] == y;
          LexLessIrreflexive(y);
          assert y != a[0];
          assert y in a;
          var i :| 0 <= i < |a| && a[i] == y;
          assert a[1..][i - 1] == y;
        }
      }
      AscendingUnique(a[1..], b[1..]);
      assert a == [a[0]] + a[1..] && b == [b[0]] + b[1..];
    }
  }

  /** `SortedNames` computes exactly the list `sorted` denotes. */
  method SortSet(names: set<string>) returns (r: seq<string>)
    ensures r == SortedList(names)
  {
    r := SortedNames(names);
    AscendingUnique(r, SortedList(names));
  }

}

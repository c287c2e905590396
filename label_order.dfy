/** Python's ordering of strings, code point by code point, and `sorted()` of a set of
    activity labels, which is how the miner fixes the order of its activity list. */
module LabelOrder {

  /** `a < b` on Python strings: `a` is a proper prefix of `b`, or at the first position
      where they differ `a` has the smaller code point. */
  predicate Below(a: string, b: string)
    decreases |a|
  {
    if a == [] then b != []
    else b != [] && (a[0] < b[0] || (a[0] == b[0] && Below(a[1..], b[1..])))
  }

  lemma {:induction false} BelowIrreflexive(a: string)
    ensures !Below(a, a)
    decreases |a|
  {
    if a != [] {
      BelowIrreflexive(a[1..]);
    }
  }

  lemma {:induction false} BelowTransitive(a: string, b: string, c: string)
    requires Below(a, b) && Below(b, c)
    ensures Below(a, c)
    decreases |a|
  {
    if a != [] && a[0] == b[0] && b[0] == c[0] {
      BelowTransitive(a[1..], b[1..], c[1..]);
    }
  }

  lemma {:induction false} BelowTotal(a: string, b: string)
    ensures a == b || Below(a, b) || Below(b, a)
    decreases |a|
  {
    if a != [] && b != [] && a[0] == b[0] {
      BelowTotal(a[1..], b[1..]);
      if a[1..] == b[1..] {
        assert a == [a[0]] + a[1..] && b == [b[0]] + b[1..];
      }
    }
  }

  lemma BelowAsymmetric(a: string, b: string)
    requires Below(a, b)
    ensures !Below(b, a)
  {
    if Below(b, a) {
      BelowTransitive(a, b, a);
      BelowIrreflexive(a);
    }
  }

  /** Every element of a sorted list is below every later one, so no label repeats. */
  predicate StrictlySorted(s: seq<string>) {
    forall i, j :: 0 <= i < j < |s| ==> Below(s[i], s[j])
  }

  /** The elements of a list, as a set. */
  function Elements(s: seq<string>): (r: set<string>)
    ensures forall a :: a in r <==> a in s
  {
    set a | a in s
  }

  /** The label of a non-empty set that is below all the others. */
  predicate IsLeast(m: string, labels: set<string>) {
    m in labels && forall a :: a in labels && a != m ==> Below(m, a)
  }

  lemma {:induction false} LeastExists(labels: set<string>)
    requires labels != {}
    ensures exists m :: IsLeast(m, labels)
    decreases |labels|
  {
    var a :| a in labels;
    if labels == {a} {
      assert IsLeast(a, labels);
    } else {
      var rest := labels - {a};
      LeastExists(rest);
      var m :| IsLeast(m, rest);
      BelowTotal(a, m);
      if Below(a, m) {
        forall x | x in labels && x != a ensures Below(a, x) {
          if x != m {
            BelowTransitive(a, m, x);
          }
        }
        assert IsLeast(a, labels);
      } else {
        assert IsLeast(m, labels);
      }
    }
  }

  lemma LeastUnique(m: string, n: string, labels: set<string>)
    requires IsLeast(m, labels) && IsLeast(n, labels)
    ensures m == n
  {
    if m != n {
      BelowAsymmetric(m, n);
    }
  }

  function Least(labels: set<string>): (m: string)
    requires labels != {}
    ensures IsLeast(m, labels)
  {
    LeastExists(labels);
    var m :| IsLeast(m, labels);
    forall n | IsLeast(n, labels) ensures n == m {
      LeastUnique(m, n, labels);
    }
    m
  }

  /** `sorted(labels)`: the labels of the set in increasing order. */
  function SortedLabels(labels: set<string>): (s: seq<string>)
    ensures StrictlySorted(s)
    ensures Elements(s) == labels
    decreases |labels|
  {
    if labels == {} then []
    else
      var m := Least(labels);
      var rest := SortedLabels(labels - {m});
      assert forall j :: 0 <= j < |rest| ==> rest[j] in labels - {m};
      [m] + rest
  }

  /** A strictly sorted list is determined by its elements. */
  lemma {:induction false} SortedUnique(s: seq<string>, t: seq<string>)
    requires StrictlySorted(s) && StrictlySorted(t)
    requires Elements(s) == Elements(t)
    ensures s == t
    decreases |s|
  {
    if s != [] {
      assert s[0] in Elements(t);
    }
    if t != [] {
      assert t[0] in Elements(s);
    }
    if s != [] && t != [] {
      if s[0] != t[0] {
        assert s[0] in Elements(t) && t[0] in Elements(s);
        var i :| 0 <= i < |t| && t[i] == s[0];
        var j :| 0 <= j < |s| && s[j] == t[0];
        assert i > 0 && j > 0;
        BelowAsymmetric(t[0], s[0]);
      }
      assert Elements(s[1..]) == Elements(t[1..]) by {
        forall a ensures a in s[1..] <==> a in t[1..] {
          if a in s[1..] {
            var k :| 1 <= k < |s| && s[k] == a;
            BelowIrreflexive(a);
            assert a != s[0];
            assert a in t;
          }
          if a in t[1..] {
            var k :| 1 <= k < |t| && t[k] == a;
            BelowIrreflexive(a);
            assert a != t[0];
            assert a in s;
          }
        }
      }
      SortedUnique(s[1..], t[1..]);
    }
  }

  /** A strictly sorted list holds no label twice. */
  lemma SortedDistinct(s: seq<string>)
    requires StrictlySorted(s)
    ensures forall i, j :: 0 <= i < |s| && 0 <= j < |s| && i != j ==> s[i] != s[j]
  {
    forall i, j | 0 <= i < |s| && 0 <= j < |s| && i != j ensures s[i] != s[j] {
      if i < j {
        BelowIrreflexive(s[i]);
      } else {
        BelowIrreflexive(s[j]);
      }
    }
  }
}

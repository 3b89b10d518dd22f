/** Sequences viewed as the Python lists the analyzer passes around, and the
    sets `set(...)` turns them into. */
module Seqs {

  /** The elements of a list, as Python's `set(xs)` collects them. */
  function Elems<T(!new)>(xs: seq<T>): (e: set<T>)
    ensures forall x :: x in e <==> x in xs
  {
    set x | x in xs
  }

  /** No element occurs twice. */
  predicate Distinct<T(==)>(xs: seq<T>)
  {
    forall i, j :: 0 <= i < j < |xs| ==> xs[i] != xs[j]
  }

  /** A list has at least as many entries as distinct elements, and exactly
      as many precisely when no element is repeated. */
  lemma {:induction false} ElemsCardinality<T(!new)>(xs: seq<T>)
    ensures |Elems(xs)| <= |xs|
    ensures |Elems(xs)| == |xs| <==> Distinct(xs)
  {
    if xs == [] {
      assert Elems(xs) == {};
    } else {
      var rest := xs[1..];
      ElemsCardinality(rest);
      assert Elems(xs) == {xs[0]} + Elems(rest) by {
        forall x | x in Elems(xs) ensures x in {xs[0]} + Elems(rest) {
          var k :| 0 <= k < |xs| && xs[k] == x;
          if k > 0 { assert rest[k - 1] == x; }
        }
      }
      if xs[0] in rest {
        assert Elems(xs) == Elems(rest);
        var k :| 0 <= k < |rest| && rest[k] == xs[0];
        assert xs[0] == xs[k + 1];
        assert !Distinct(xs);
      } else {
        assert xs[0] !in Elems(rest);
        assert |Elems(xs)| == |Elems(rest)| + 1;
        if Distinct(rest) {
          forall i, j | 0 <= i < j < |xs| ensures xs[i] != xs[j] {
            if i == 0 {
              assert xs[j] == rest[j - 1];
            } else {
              assert xs[i] == rest[i - 1] && xs[j] == rest[j - 1];
            }
          }
        } else {
          var i, j :| 0 <= i < j < |rest| && rest[i] == rest[j];
          assert xs[i + 1] == xs[j + 1];
        }
      }
    }
  }

  /** A subset is no larger than its superset, and a proper subset is
      strictly smaller. */
  lemma SubsetCardinality<T>(small: set<T>, big: set<T>)
    requires small <= big
    ensures |small| <= |big|
    ensures small < big ==> |small| < |big|
  {
    assert big == small + (big - small);
    assert small !! (big - small);
    if small < big {
      var x :| x in big && x !in small;
      assert x in big - small;
    }
  }
}

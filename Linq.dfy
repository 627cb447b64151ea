/** Facts about sequences without duplicates, and the LINQ operator `Distinct`, which keeps the
    first occurrence of each value. */
module Linq {

  predicate NoDuplicates<X(==)>(s: seq<X>)
  {
    forall i, j :: 0 <= i < j < |s| ==> s[i] != s[j]
  }

  function Elems<T>(s: seq<T>): set<T>
  {
    set x | x in s
  }

  /** `order` names every element of `elements` exactly once. */
  ghost predicate IsEnumeration<T>(order: seq<T>, elements: set<T>)
  {
    NoDuplicates(order) && Elems(order) == elements
  }

  lemma {:induction false} EnumerationLength<T>(order: seq<T>, elements: set<T>)
    requires IsEnumeration(order, elements)
    ensures |order| == |elements|
  {
    if order != [] {
      var rest := order[1..];
      assert Elems(rest) == elements - {order[0]} by {
        forall x ensures x in Elems(rest) <==> x in elements - {order[0]} {
          if x in rest {
            var k :| 0 <= k < |rest| && rest[k] == x;
            assert order[k + 1] == x;
          }
          if x in elements - {order[0]} {
            var k :| 0 <= k < |order| && order[k] == x;
            assert k != 0;
            assert rest[k - 1] == x;
          }
        }
      }
      EnumerationLength(rest, elements - {order[0]});
    }
  }

  lemma AppendOne<T>(s: seq<T>, x: T)
    requires NoDuplicates(s) && x !in Elems(s)
    ensures NoDuplicates(s + [x]) && Elems(s + [x]) == Elems(s) + {x}
  {
    assert forall i :: 0 <= i < |s| ==> (s + [x])[i] == s[i];
  }

  lemma ConcatDisjoint<T>(a: seq<T>, b: seq<T>)
    requires NoDuplicates(a) && NoDuplicates(b) && Elems(a) !! Elems(b)
    ensures NoDuplicates(a + b) && Elems(a + b) == Elems(a) + Elems(b)
  {
    forall i, j | 0 <= i < j < |a + b| ensures (a + b)[i] != (a + b)[j] {
      if j < |a| {
      } else if i >= |a| {
        assert (a + b)[i] == b[i - |a|] && (a + b)[j] == b[j - |a|];
      } else {
        assert (a + b)[i] in Elems(a) && (a + b)[j] == b[j - |a|] && b[j - |a|] in Elems(b);
      }
    }
  }

  /** The position of the first occurrence of `x` in `s`. */
  function IndexOf<X(==)>(s: seq<X>, x: X): (k: nat)
    requires x in s
    ensures k < |s| && s[k] == x
    ensures forall m :: 0 <= m < k ==> s[m] != x
  {
    IndexFrom(s, x, 0)
  }

  /** The position of the first occurrence of `x` in `s` at or after `from`. */
  function IndexFrom<X(==)>(s: seq<X>, x: X, from: nat): (k: nat)
    requires from <= |s| && x in s[from..]
    ensures from <= k < |s| && s[k] == x
    ensures forall m :: from <= m < k ==> s[m] != x
    decreases |s| - from
  {
    if s[from] == x then from
    else
      assert s[from..] == [s[from]] + s[from + 1..];
      IndexFrom(s, x, from + 1)
  }

  /** `Enumerable.Distinct`: walks `s` in order and yields each value not yielded before. */
  function Distinct<X(==)>(s: seq<X>): (r: seq<X>)
    ensures NoDuplicates(r)
    ensures forall i :: 0 <= i < |r| ==> r[i] in s
    ensures forall i :: 0 <= i < |s| ==> s[i] in r
    ensures |r| <= |s|
  {
    if s == [] then []
    else
      var prefix := Distinct(s[..|s| - 1]);
      var last := s[|s| - 1];
      assert forall i :: 0 <= i < |s| - 1 ==> s[i] == s[..|s| - 1][i];
      if last in prefix then prefix else prefix + [last]
  }

  /** `IndexOf` is the one position holding `x` with no `x` before it. */
  lemma IndexOfUnique<X>(s: seq<X>, x: X, k: nat)
    requires k < |s| && s[k] == x
    requires forall m :: 0 <= m < k ==> s[m] != x
    ensures IndexOf(s, x) == k
  {
  }

  lemma IndexOfLast<X>(s: seq<X>)
    requires s != [] && s[|s| - 1] !in s[..|s| - 1]
    ensures IndexOf(s, s[|s| - 1]) == |s| - 1
  {
    assert forall m :: 0 <= m < |s| - 1 ==> s[..|s| - 1][m] == s[m];
    IndexOfUnique(s, s[|s| - 1], |s| - 1);
  }

  lemma IndexOfInPrefix<X>(s: seq<X>, n: nat, x: X)
    requires n <= |s| && x in s[..n]
    ensures IndexOf(s, x) == IndexOf(s[..n], x)
  {
    var k := IndexOf(s[..n], x);
    assert forall m :: 0 <= m <= k ==> s[m] == s[..n][m];
    IndexOfUnique(s, x, k);
  }

  /** The result lists the values in the order of their first occurrences in `s`. */
  lemma {:induction false} DistinctKeepsFirstOccurrenceOrder<X>(s: seq<X>)
    ensures var r := Distinct(s);
            forall i, j :: 0 <= i < j < |r| ==> IndexOf(s, r[i]) < IndexOf(s, r[j])
  {
    if s != [] {
      var init := s[..|s| - 1];
      DistinctKeepsFirstOccurrenceOrder(init);
      forall i, j | 0 <= i < j < |Distinct(s)| ensures IndexOf(s, Distinct(s)[i]) < IndexOf(s, Distinct(s)[j]) {
        DistinctStep(s, i, j);
      }
    }
  }

  /** The pointwise form of DistinctKeepsFirstOccurrenceOrder. */
  lemma DistinctOrderAt<X>(s: seq<X>, i: nat, j: nat)
    requires i < j < |Distinct(s)|
    ensures IndexOf(s, Distinct(s)[i]) < IndexOf(s, Distinct(s)[j])
  {
    DistinctKeepsFirstOccurrenceOrder(s);
  }

  lemma DistinctStep<X>(s: seq<X>, i: nat, j: nat)
    requires s != []
    requires i < j < |Distinct(s)|
    requires var init := s[..|s| - 1]; var p := Distinct(init);
             j < |p| ==> IndexOf(init, p[i]) < IndexOf(init, p[j])
    ensures IndexOf(s, Distinct(s)[i]) < IndexOf(s, Distinct(s)[j])
  {
    var init := s[..|s| - 1];
    var prefix := Distinct(init);
    var last := s[|s| - 1];
    var r := Distinct(s);
    assert r == (if last in prefix then prefix else prefix + [last]);
    assert r[i] == prefix[i] && prefix[i] in init;
    if j < |prefix| {
      assert r[j] == prefix[j] && prefix[j] in init;
      OrderInPrefix(s, prefix[i], prefix[j]);
    } else {
      // r[j] is the last value, which does not occur earlier in s
      assert r[j] == last && last !in init;
      OrderBeforeLast(s, prefix[i]);
    }
  }

  lemma OrderInPrefix<X>(s: seq<X>, x: X, y: X)
    requires s != [] && x in s[..|s| - 1] && y in s[..|s| - 1]
    requires IndexOf(s[..|s| - 1], x) < IndexOf(s[..|s| - 1], y)
    ensures IndexOf(s, x) < IndexOf(s, y)
  {
    IndexOfInPrefix(s, |s| - 1, x);
    IndexOfInPrefix(s, |s| - 1, y);
  }

  lemma OrderBeforeLast<X>(s: seq<X>, x: X)
    requires s != [] && x in s[..|s| - 1] && s[|s| - 1] !in s[..|s| - 1]
    ensures IndexOf(s, x) < IndexOf(s, s[|s| - 1])
  {
    IndexOfInPrefix(s, |s| - 1, x);
    IndexOfLast(s);
  }
}

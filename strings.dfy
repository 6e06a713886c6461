/**
 * Identities are strings. Python compares strings code point by code point
 * (lexicographically), and `sorted([a, b])` puts the smaller one first; the
 * vote history stores pairs in that canonical order.
 */
module Strings {

  /** A canonical pair of identities: `(smaller, larger)` in string order. */
  type Pair = (string, string)

  /** Python's `a < b` on strings: lexicographic, a proper prefix is smaller. */
  predicate Lt(a: string, b: string)
  {
    if a == [] then b != []
    else if b == [] then false
    else if a[0] != b[0] then a[0] < b[0]
    else Lt(a[1..], b[1..])
  }

  lemma {:induction false} LtIrreflexive(a: string)
    ensures !Lt(a, a)
  {
    if a != [] {
      LtIrreflexive(a[1..]);
    }
  }

  lemma {:induction false} LtAsymmetric(a: string, b: string)
    ensures Lt(a, b) ==> !Lt(b, a)
  {
    if a != [] && b != [] && a[0] == b[0] {
      LtAsymmetric(a[1..], b[1..]);
    }
  }

  lemma {:induction false} LtConnected(a: string, b: string)
    ensures a == b || Lt(a, b) || Lt(b, a)
  {
    if a != [] && b != [] && a[0] == b[0] {
      assert a == [a[0]] + a[1..] && b == [b[0]] + b[1..];
      LtConnected(a[1..], b[1..]);
    }
  }

  /**
   * `sorted([a, b])`: the two identities with the smaller first. For two
   * distinct identities the result is strictly ordered and does not depend
   * on the order in which they were given.
   */
  function SortPair(a: string, b: string): (p: Pair)
    ensures p == (a, b) || p == (b, a)
    ensures a != b ==> Lt(p.0, p.1)
  {
    LtAsymmetric(a, b);
    LtConnected(a, b);
    if Lt(b, a) then (b, a) else (a, b)
  }

  lemma SortPairSymmetric(a: string, b: string)
    requires a != b
    ensures SortPair(a, b) == SortPair(b, a)
  {
    LtAsymmetric(a, b);
  }

  /** Python's `s.endswith(suffix)`. */
  predicate EndsWith(s: string, suffix: string)
  {
    |suffix| <= |s| && s[|s| - |suffix|..] == suffix
  }

  /** No element occurs twice. */
  predicate NoDup<T(==)>(s: seq<T>)
  {
    forall i, j :: 0 <= i < j < |s| ==> s[i] != s[j]
  }

  lemma NoDupConcat<T>(a: seq<T>, b: seq<T>)
    requires NoDup(a) && NoDup(b)
    requires forall x :: x in a ==> x !in b
    ensures NoDup(a + b)
  {
    forall i, j | 0 <= i < j < |a + b|
      ensures (a + b)[i] != (a + b)[j]
    {
      if i < |a| && j >= |a| {
        assert (a + b)[i] in a && (a + b)[j] in b;
      }
    }
  }

  /** Position of the first occurrence of `x` in `s`. */
  function IndexOf<T(==)>(s: seq<T>, x: T): (i: nat)
    requires x in s
    ensures i < |s| && s[i] == x
    ensures forall k :: 0 <= k < i ==> s[k] != x
  {
    if s[0] == x then 0 else 1 + IndexOf(s[1..], x)
  }

  lemma IndexOfDistinct<T>(s: seq<T>, k: nat)
    requires NoDup(s) && k < |s|
    ensures IndexOf(s, s[k]) == k
  {
  }
}

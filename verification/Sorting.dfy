/** Python's `sorted` with a key: a stable sort driven by a strict comparison of
    the keys. When no two elements share a key the result is fixed by the
    elements alone, so the algorithm does not matter. */
module Sorting {

  /** `before` compares keys of a total order (several elements may share a key). */
  ghost predicate KeyOrder<T(!new)>(before: (T, T) -> bool)
  {
    && (forall a, b :: !(before(a, b) && before(b, a)))
    && (forall a, b, c :: before(a, b) && before(b, c) ==> before(a, c))
    && (forall a, b, c :: before(a, c) ==> before(a, b) || before(b, c))
  }

  ghost predicate Ordered<T>(s: seq<T>, before: (T, T) -> bool)
  {
    forall i, j | 0 <= i < j < |s| :: !before(s[j], s[i])
  }

  ghost predicate StrictlyOrdered<T>(s: seq<T>, before: (T, T) -> bool)
  {
    forall i, j | 0 <= i < j < |s| :: before(s[i], s[j])
  }

  /** No two elements of the multiset share a key. */
  ghost predicate KeysDiffer<T>(s: seq<T>, before: (T, T) -> bool)
  {
    forall i, j | 0 <= i < |s| && 0 <= j < |s| && i != j :: before(s[i], s[j]) || before(s[j], s[i])
  }

  function Insert<T>(x: T, s: seq<T>, before: (T, T) -> bool): (r: seq<T>)
    ensures multiset(r) == multiset(s)[x := multiset(s)[x] + 1]
  {
    if s == [] then [x]
    else if before(s[0], x) then
      var r := Insert(x, s[1..], before);
      assert s == [s[0]] + s[1..];
      [s[0]] + r
    else [x] + s
  }

  function Sort<T>(s: seq<T>, before: (T, T) -> bool): (r: seq<T>)
    ensures multiset(r) == multiset(s)
    ensures |r| == |s|
    ensures forall x | x in r :: x in s
    ensures forall x | x in s :: x in r
  {
    if s == [] then []
    else
      var r := Insert(s[0], Sort(s[1..], before), before);
      assert s == [s[0]] + s[1..];
      assert |multiset(r)| == |multiset(s)|;
      assert forall x | x in r :: x in multiset(r);
      assert forall x | x in s :: x in multiset(s);
      r
  }

  lemma {:induction false} InsertOrdered<T(!new)>(x: T, s: seq<T>, before: (T, T) -> bool)
    requires KeyOrder(before) && Ordered(s, before)
    ensures Ordered(Insert(x, s, before), before)
  {
    if s != [] && before(s[0], x) {
      InsertOrdered(x, s[1..], before);
      var r := Insert(x, s[1..], before);
      forall j | 0 <= j < |r| ensures !before(r[j], s[0]) {
        assert r[j] in multiset(r);
        assert r[j] == x || r[j] in multiset(s[1..]);
      }
    }
  }

  lemma {:induction false} SortOrdered<T(!new)>(s: seq<T>, before: (T, T) -> bool)
    requires KeyOrder(before)
    ensures Ordered(Sort(s, before), before)
  {
    if s != [] {
      SortOrdered(s[1..], before);
      InsertOrdered(s[0], Sort(s[1..], before), before);
    }
  }

  /** Key distinctness only depends on the multiset. */
  lemma KeysDifferAfterPermutation<T(!new)>(a: seq<T>, b: seq<T>, before: (T, T) -> bool)
    requires KeyOrder(before) && KeysDiffer(a, before) && multiset(a) == multiset(b)
    ensures KeysDiffer(b, before)
  {
    forall i, j | 0 <= i < |b| && 0 <= j < |b| && i != j
      ensures before(b[i], b[j]) || before(b[j], b[i])
    {
      NoRepeats(a, before);
      assert b[i] in multiset(b) && b[j] in multiset(b);
      if b[i] == b[j] {
        TwiceInMultiset(b, i, j);
        assert false;
      } else {
        assert b[i] in a && b[j] in a;
      }
    }
  }

  lemma {:induction false} NoRepeats<T(!new)>(s: seq<T>, before: (T, T) -> bool)
    requires KeyOrder(before) && KeysDiffer(s, before)
    ensures forall x :: multiset(s)[x] <= 1
  {
    if s != [] {
      assert s == [s[0]] + s[1..];
      NoRepeats(s[1..], before);
      forall k | 0 <= k < |s[1..]| ensures s[1..][k] != s[0] {
        assert before(s[0], s[k + 1]) || before(s[k + 1], s[0]);
      }
    }
  }

  lemma TwiceInMultiset<T>(s: seq<T>, i: nat, j: nat)
    requires i < |s| && j < |s| && i != j && s[i] == s[j]
    ensures multiset(s)[s[i]] >= 2
  {
    var lo, hi := if i < j then i else j, if i < j then j else i;
    assert s == s[..lo] + [s[lo]] + s[lo + 1..hi] + [s[hi]] + s[hi + 1..];
  }

  /** Strictly ordered sequences with the same elements are the same sequence. */
  lemma {:induction false} SameElementsSameSequence<T(!new)>(a: seq<T>, b: seq<T>, before: (T, T) -> bool)
    requires KeyOrder(before)
    requires StrictlyOrdered(a, before) && StrictlyOrdered(b, before)
    requires forall x :: x in a <==> x in b
    ensures a == b
  {
    if a != [] { assert a[0] in a; }
    if b != [] { assert b[0] in b; }
    if a != [] && b != [] {
      assert a[0] in b && b[0] in a;
      assert a[0] == b[0];
      forall x ensures x in a[1..] <==> x in b[1..] {
        assert x in a <==> x == a[0] || x in a[1..];
        assert x in b <==> x == b[0] || x in b[1..];
        assert a[0] !in a[1..] && b[0] !in b[1..];
      }
      SameElementsSameSequence(a[1..], b[1..], before);
      assert a == [a[0]] + a[1..] && b == [b[0]] + b[1..];
    }
  }

  /** Sorting elements with distinct keys gives strictly increasing keys. */
  lemma SortStrict<T(!new)>(s: seq<T>, before: (T, T) -> bool)
    requires KeyOrder(before) && KeysDiffer(s, before)
    ensures StrictlyOrdered(Sort(s, before), before)
  {
    SortOrdered(s, before);
    KeysDifferAfterPermutation(s, Sort(s, before), before);
  }

  /** The result of a sort with distinct keys does not depend on the input order. */
  lemma SortCanonical<T(!new)>(a: seq<T>, b: seq<T>, before: (T, T) -> bool)
    requires KeyOrder(before) && KeysDiffer(a, before)
    requires multiset(a) == multiset(b)
    ensures Sort(a, before) == Sort(b, before)
  {
    KeysDifferAfterPermutation(a, b, before);
    SortStrict(a, before);
    SortStrict(b, before);
    forall x ensures x in Sort(a, before) <==> x in Sort(b, before) {
      assert x in a <==> x in multiset(a);
      assert x in b <==> x in multiset(b);
    }
    SameElementsSameSequence(Sort(a, before), Sort(b, before), before);
  }

  /** An element counted twice stands at two positions. */
  lemma {:induction false} TwoPositions<T>(s: seq<T>, x: T) returns (i: nat, j: nat)
    requires multiset(s)[x] >= 2
    ensures i < j < |s| && s[i] == x && s[j] == x
  {
    assert s == [s[0]] + s[1..];
    if s[0] == x {
      i := 0;
      assert x in multiset(s[1..]);
      j :| 0 <= j < |s[1..]| && s[1..][j] == x;
      j := j + 1;
    } else {
      i, j := TwoPositions(s[1..], x);
      i, j := i + 1, j + 1;
    }
  }

  lemma Locate<T>(x: T, a: seq<T>, b: seq<T>) returns (k: nat)
    requires x in a && multiset(a) == multiset(b)
    ensures k < |b| && b[k] == x
  {
    assert x in multiset(a);
    k :| 0 <= k < |b| && b[k] == x;
  }
}

/**
 * `Array.prototype.sort` with a comparator.  Since ES2019 the sort is
 * stable: it reorders two elements only when the comparator says the later
 * one must come first.  `before(a, b)` stands for `compare(a, b) <= 0`, so an
 * element is inserted after every element that may precede it, which is the
 * stable insertion sort; for a consistent comparator every stable sort gives
 * this same sequence.
 */
module JsSort {

  /** The comparator is a total preorder: reflexive, transitive and any two elements are related. */
  ghost predicate TotalPreorder<T(!new)>(before: (T, T) -> bool) {
    && (forall x, y :: before(x, y) || before(y, x))
    && (forall x, y, z :: before(x, y) && before(y, z) ==> before(x, z))
  }

  ghost predicate SortedBy<T>(s: seq<T>, before: (T, T) -> bool) {
    forall i, j :: 0 <= i < j < |s| ==> before(s[i], s[j])
  }

  /** Insert `x` after the longest prefix of `s` whose elements may precede it. */
  function Insert<T>(x: T, s: seq<T>, before: (T, T) -> bool): seq<T> {
    if s == [] then [x]
    else if before(s[0], x) then [s[0]] + Insert(x, s[1..], before)
    else [x] + s
  }

  /** The stable sort of `s`: the last element is inserted into the sorted rest. */
  function Sort<T>(s: seq<T>, before: (T, T) -> bool): seq<T> {
    if s == [] then []
    else Insert(s[|s| - 1], Sort(s[..|s| - 1], before), before)
  }

  lemma {:induction false} InsertPermutes<T>(x: T, s: seq<T>, before: (T, T) -> bool)
    ensures multiset(Insert(x, s, before)) == multiset(s) + multiset{x}
  {
    if s != [] && before(s[0], x) {
      InsertPermutes(x, s[1..], before);
      assert s == [s[0]] + s[1..];
    }
  }

  lemma {:induction false} InsertSorted<T(!new)>(x: T, s: seq<T>, before: (T, T) -> bool)
    requires TotalPreorder(before)
    requires SortedBy(s, before)
    ensures SortedBy(Insert(x, s, before), before)
  {
    if s != [] && before(s[0], x) {
      InsertSorted(x, s[1..], before);
      InsertPermutes(x, s[1..], before);
      var r := Insert(x, s[1..], before);
      forall y | y in multiset(r) ensures before(s[0], y) {
        assert y == x || y in s[1..];
      }
      forall i, j | 0 <= i < j < |[s[0]] + r| ensures before(([s[0]] + r)[i], ([s[0]] + r)[j]) {
        if i == 0 {
          assert r[j - 1] in multiset(r);
        }
      }
    }
  }

  /** Sorting reorders its input and keeps every element, duplicates included. */
  lemma {:induction false} SortPermutes<T>(s: seq<T>, before: (T, T) -> bool)
    ensures multiset(Sort(s, before)) == multiset(s)
  {
    if s != [] {
      SortPermutes(s[..|s| - 1], before);
      InsertPermutes(s[|s| - 1], Sort(s[..|s| - 1], before), before);
      assert s == s[..|s| - 1] + [s[|s| - 1]];
    }
  }

  /** Under a consistent comparator the result is in comparator order. */
  lemma {:induction false} SortSorted<T(!new)>(s: seq<T>, before: (T, T) -> bool)
    requires TotalPreorder(before)
    ensures SortedBy(Sort(s, before), before)
  {
    if s != [] {
      SortSorted(s[..|s| - 1], before);
      InsertSorted(s[|s| - 1], Sort(s[..|s| - 1], before), before);
    }
  }
}

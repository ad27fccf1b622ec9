/** Stable insertion sort under a strict weak order. It stands for Go's
    sort.SliceStable, and it yields one of the orders sort.Slice may yield. */
module Sorting {

  /** `less` is irreflexive, transitive, and incomparability is transitive
      (stated as: less(a, c) forces less(a, b) or less(b, c)). */
  ghost predicate StrictWeakOrder<T(!new)>(less: (T, T) -> bool) {
    && (forall a :: !less(a, a))
    && (forall a, b, c :: less(a, b) && less(b, c) ==> less(a, c))
    && (forall a, b, c :: less(a, c) ==> less(a, b) || less(b, c))
  }

  predicate Equivalent<T>(less: (T, T) -> bool, a: T, b: T) {
    !less(a, b) && !less(b, a)
  }

  /** No element is less than one placed before it. */
  ghost predicate Sorted<T>(less: (T, T) -> bool, s: seq<T>) {
    forall i, j :: 0 <= i < j < |s| ==> !less(s[j], s[i])
  }

  /** The elements of `s` equivalent to `y`, in their order in `s`. */
  function EquivalentTo<T>(less: (T, T) -> bool, s: seq<T>, y: T): (r: seq<T>)
    ensures |r| <= |s|
  {
    if |s| == 0 then []
    else (if Equivalent(less, s[0], y) then [s[0]] else []) + EquivalentTo(less, s[1..], y)
  }

  /** `b` keeps the relative order that `a` gives to equivalent elements. */
  ghost predicate StableFrom<T(!new)>(less: (T, T) -> bool, a: seq<T>, b: seq<T>) {
    forall y :: EquivalentTo(less, b, y) == EquivalentTo(less, a, y)
  }

  /** Inserts `x` after every element it is not less than. */
  function Insert<T>(less: (T, T) -> bool, x: T, s: seq<T>): (r: seq<T>)
    ensures multiset(r) == multiset(s) + multiset{x}
    ensures |r| == |s| + 1
  {
    if |s| == 0 then [x]
    else if less(x, s[0]) then [x] + s
    else
      assert s == [s[0]] + s[1..];
      [s[0]] + Insert(less, x, s[1..])
  }

  /** Sorts `s` by inserting its elements one at a time, first to last. */
  function Sort<T>(less: (T, T) -> bool, s: seq<T>): (r: seq<T>)
    ensures multiset(r) == multiset(s)
    ensures |r| == |s|
  {
    if |s| == 0 then []
    else
      assert s == s[..|s| - 1] + [s[|s| - 1]];
      Insert(less, s[|s| - 1], Sort(less, s[..|s| - 1]))
  }

  lemma {:induction false} InsertSorted<T(!new)>(less: (T, T) -> bool, x: T, s: seq<T>)
    requires StrictWeakOrder(less) && Sorted(less, s)
    ensures Sorted(less, Insert(less, x, s))
  {
    if |s| == 0 {
    } else if less(x, s[0]) {
      var r := [x] + s;
      forall i, j | 0 <= i < j < |r| ensures !less(r[j], r[i]) {
        if i == 0 && j > 1 {
          assert r[j] == s[j - 1];
          assert !less(s[j - 1], s[0]);
        }
      }
    } else {
      var t := Insert(less, x, s[1..]);
      InsertSorted(less, x, s[1..]);
      var r := [s[0]] + t;
      forall i, j | 0 <= i < j < |r| ensures !less(r[j], r[i]) {
        if i == 0 {
          assert r[j] in multiset(t);
          assert r[j] == x || r[j] in s[1..];
        } else {
          assert r[i] == t[i - 1] && r[j] == t[j - 1];
        }
      }
    }
  }

  lemma SortedTail<T>(less: (T, T) -> bool, s: seq<T>)
    requires Sorted(less, s) && |s| > 0
    ensures Sorted(less, s[1..])
  {
    forall i, j | 0 <= i < j < |s[1..]| ensures !less(s[1..][j], s[1..][i]) {
      assert s[1..][j] == s[j + 1] && s[1..][i] == s[i + 1];
    }
  }

  /** Every element of a sorted list is above anything below its head. */
  lemma AboveHead<T(!new)>(less: (T, T) -> bool, x: T, s: seq<T>)
    requires StrictWeakOrder(less) && Sorted(less, s)
    requires |s| > 0 && less(x, s[0])
    ensures forall e :: e in s ==> less(x, e)
  {
    forall e | e in s ensures less(x, e) {
      var j :| 0 <= j < |s| && s[j] == e;
      if j > 0 {
        assert !less(s[j], s[0]);
      }
    }
  }

  /** Nothing in `s` is equivalent to `y` when every element is above `y`'s equal `x`. */
  lemma {:induction false} NoneEquivalent<T(!new)>(less: (T, T) -> bool, x: T, y: T, s: seq<T>)
    requires StrictWeakOrder(less) && Equivalent(less, x, y)
    requires forall e :: e in s ==> less(x, e)
    ensures EquivalentTo(less, s, y) == []
  {
    if |s| > 0 {
      assert less(x, s[0]);
      assert less(y, s[0]);
      NoneEquivalent(less, x, y, s[1..]);
    }
  }

  lemma {:induction false} EquivalentToAppend<T>(less: (T, T) -> bool, a: seq<T>, b: seq<T>, y: T)
    ensures EquivalentTo(less, a + b, y) == EquivalentTo(less, a, y) + EquivalentTo(less, b, y)
  {
    if |a| == 0 {
      assert a + b == b;
    } else {
      assert (a + b)[0] == a[0];
      assert (a + b)[1..] == a[1..] + b;
      EquivalentToAppend(less, a[1..], b, y);
      var head := if Equivalent(less, a[0], y) then [a[0]] else [];
      assert EquivalentTo(less, a + b, y) == head + EquivalentTo(less, a[1..] + b, y);
      assert EquivalentTo(less, a, y) == head + EquivalentTo(less, a[1..], y);
    }
  }

  /** Inserting `x` puts it after every element of `s` equivalent to it. */
  lemma {:induction false} InsertStable<T(!new)>(less: (T, T) -> bool, x: T, s: seq<T>, y: T)
    requires StrictWeakOrder(less) && Sorted(less, s)
    ensures EquivalentTo(less, Insert(less, x, s), y)
         == EquivalentTo(less, s, y) + EquivalentTo(less, [x], y)
  {
    var single := EquivalentTo(less, [x], y);
    assert [x][1..] == [];
    assert single == if Equivalent(less, x, y) then [x] else [];
    if |s| == 0 {
    } else if less(x, s[0]) {
      EquivalentToAppend(less, [x], s, y);
      if Equivalent(less, x, y) {
        AboveHead(less, x, s);
        NoneEquivalent(less, x, y, s);
      }
    } else {
      SortedTail(less, s);
      InsertStable(less, x, s[1..], y);
      var head := if Equivalent(less, s[0], y) then [s[0]] else [];
      var t := Insert(less, x, s[1..]);
      assert Insert(less, x, s) == [s[0]] + t;
      assert ([s[0]] + t)[1..] == t;
      assert EquivalentTo(less, Insert(less, x, s), y) == head + EquivalentTo(less, t, y);
      assert EquivalentTo(less, s, y) == head + EquivalentTo(less, s[1..], y);
    }
  }

  lemma {:induction false} SortSortedStable<T(!new)>(less: (T, T) -> bool, s: seq<T>)
    requires StrictWeakOrder(less)
    ensures Sorted(less, Sort(less, s))
    ensures StableFrom(less, s, Sort(less, s))
  {
    if |s| > 0 {
      var init := s[..|s| - 1];
      var last := s[|s| - 1];
      SortSortedStable(less, init);
      assert Sort(less, s) == Insert(less, last, Sort(less, init));
      InsertSorted(less, last, Sort(less, init));
      forall y ensures EquivalentTo(less, Sort(less, s), y) == EquivalentTo(less, s, y) {
        InsertLastStable(less, s, Sort(less, init), y);
      }
    }
  }

  /** Inserting the last element of `s` into a sorted list that keeps the
      order of the other elements equivalent to `y` keeps their order in `s`. */
  lemma InsertLastStable<T(!new)>(less: (T, T) -> bool, s: seq<T>, sorted: seq<T>, y: T)
    requires StrictWeakOrder(less) && Sorted(less, sorted) && |s| > 0
    requires EquivalentTo(less, sorted, y) == EquivalentTo(less, s[..|s| - 1], y)
    ensures EquivalentTo(less, Insert(less, s[|s| - 1], sorted), y) == EquivalentTo(less, s, y)
  {
    InsertStable(less, s[|s| - 1], sorted, y);
    assert s == s[..|s| - 1] + [s[|s| - 1]];
    EquivalentToAppend(less, s[..|s| - 1], [s[|s| - 1]], y);
  }

  /** Two sorted permutations of each other that agree on equivalent elements start alike. */
  lemma HeadsAgree<T(!new)>(less: (T, T) -> bool, a: seq<T>, b: seq<T>)
    requires StrictWeakOrder(less)
    requires Sorted(less, a) && Sorted(less, b)
    requires multiset(a) == multiset(b) && |a| > 0
    requires StableFrom(less, a, b)
    ensures |b| > 0 && a[0] == b[0]
  {
    assert |b| == |multiset(b)| == |a|;
    assert b[0] in multiset(a);
    assert a[0] in multiset(b);
    var i :| 0 <= i < |a| && a[i] == b[0];
    var j :| 0 <= j < |b| && b[j] == a[0];
    if i > 0 { assert !less(a[i], a[0]); }
    if j > 0 { assert !less(b[j], b[0]); }
    assert Equivalent(less, a[0], b[0]);
    assert EquivalentTo(less, a, a[0])[0] == a[0];
    assert EquivalentTo(less, b, a[0])[0] == b[0];
    assert EquivalentTo(less, b, a[0]) == EquivalentTo(less, a, a[0]);
  }

  /** Dropping a common head keeps the agreement on equivalent elements. */
  lemma TailsStable<T(!new)>(less: (T, T) -> bool, a: seq<T>, b: seq<T>)
    requires |a| > 0 && |b| > 0 && a[0] == b[0]
    requires StableFrom(less, a, b)
    ensures StableFrom(less, a[1..], b[1..])
  {
    forall y ensures EquivalentTo(less, b[1..], y) == EquivalentTo(less, a[1..], y) {
      var head := if Equivalent(less, a[0], y) then [a[0]] else [];
      var ta, tb := EquivalentTo(less, a[1..], y), EquivalentTo(less, b[1..], y);
      assert EquivalentTo(less, a, y) == head + ta;
      assert EquivalentTo(less, b, y) == head + tb;
      assert (head + ta)[|head|..] == ta;
      assert (head + tb)[|head|..] == tb;
    }
  }

  /** A sorted, stable permutation is unique: any correct stable sort agrees with Sort. */
  lemma {:induction false} StableSortUnique<T(!new)>(less: (T, T) -> bool, a: seq<T>, b: seq<T>)
    requires StrictWeakOrder(less)
    requires Sorted(less, a) && Sorted(less, b)
    requires multiset(a) == multiset(b)
    requires StableFrom(less, a, b)
    ensures a == b
  {
    if |a| == 0 {
      assert |b| == |multiset(b)| == 0;
    } else {
      HeadsAgree(less, a, b);
      MultisetTail(a);
      MultisetTail(b);
      TailsStable(less, a, b);
      SortedTail(less, a);
      SortedTail(less, b);
      StableSortUnique(less, a[1..], b[1..]);
    }
  }

  lemma MultisetTail<T>(s: seq<T>)
    requires |s| > 0
    ensures s == [s[0]] + s[1..]
    ensures multiset(s[1..]) == multiset(s) - multiset{s[0]}
  {
    assert s == [s[0]] + s[1..];
  }
}

/** The stable sort behind java.util.Collections.sort with a comparator,
    written as insertion sort. `le(a, b)` stands for `compare(a, b) <= 0`.
    For a comparator that is a total preorder on the elements (what
    java.util.Comparator demands), the result is sorted, a permutation of
    the input, and keeps equivalent elements in their original order;
    those three facts determine the result, so any stable sort agrees. */
module Sorting {

  /** le is total and transitive on the values in dom. */
  ghost predicate TotalPreorderOn<T>(le: (T, T) -> bool, dom: set<T>) {
    && (forall a, b | a in dom && b in dom :: le(a, b) || le(b, a))
    && (forall a, b, c {:trigger le(a, b), le(b, c)} | a in dom && b in dom && c in dom ::
          le(a, b) && le(b, c) ==> le(a, c))
  }

  ghost function Elements<T>(s: seq<T>): set<T> {
    set x | x in s
  }

  predicate Equivalent<T>(le: (T, T) -> bool, a: T, b: T) {
    le(a, b) && le(b, a)
  }

  /** Non-decreasing under le. */
  ghost predicate SortedBy<T>(t: seq<T>, le: (T, T) -> bool) {
    forall i, j :: 0 <= i < j < |t| ==> le(t[i], t[j])
  }

  /** The elements of t equivalent to c, in the order of t. */
  function ClassOf<T>(t: seq<T>, c: T, le: (T, T) -> bool): seq<T> {
    if t == [] then []
    else (if Equivalent(le, t[0], c) then [t[0]] else []) + ClassOf(t[1..], c, le)
  }

  /** Every class of equivalent elements appears in t in the same order as in s. */
  ghost predicate StableFor<T>(t: seq<T>, s: seq<T>, le: (T, T) -> bool) {
    forall c | c in s :: ClassOf(t, c, le) == ClassOf(s, c, le)
  }

  /** Places x after every element of t that is not greater than it. */
  function Insert<T>(x: T, t: seq<T>, le: (T, T) -> bool): (r: seq<T>)
    ensures multiset(r) == multiset(t) + multiset{x}
  {
    if t == [] then [x]
    else if le(t[0], x) then
      assert t == [t[0]] + t[1..];
      [t[0]] + Insert(x, t[1..], le)
    else [x] + t
  }

  function InsertionSort<T>(s: seq<T>, le: (T, T) -> bool): (r: seq<T>)
    ensures multiset(r) == multiset(s)
  {
    if s == [] then []
    else
      assert s == s[..|s| - 1] + [s[|s| - 1]];
      Insert(s[|s| - 1], InsertionSort(s[..|s| - 1], le), le)
  }

  ghost predicate Within<T>(t: seq<T>, dom: set<T>) {
    forall y | y in t :: y in dom
  }

  lemma WithinPermutation<T>(a: seq<T>, b: seq<T>, dom: set<T>)
    requires multiset(a) == multiset(b) && Within(b, dom)
    ensures Within(a, dom)
  {
    forall y | y in a ensures y in dom {
      assert y in multiset(a);
    }
  }

  lemma InPermutation<T>(a: seq<T>, b: seq<T>, y: T)
    requires multiset(a) == multiset(b) && y in a
    ensures y in b
  {
    assert y in multiset(a);
  }

  lemma {:induction false} InsertSorted<T>(x: T, t: seq<T>, le: (T, T) -> bool, dom: set<T>)
    requires TotalPreorderOn(le, dom)
    requires x in dom && Within(t, dom)
    requires SortedBy(t, le)
    ensures SortedBy(Insert(x, t, le), le)
  {
    if t != [] {
      var r := Insert(x, t, le);
      if le(t[0], x) {
        var tail := t[1..];
        assert forall y | y in tail :: y in t;
        InsertSorted(x, tail, le, dom);
        var rest := Insert(x, tail, le);
        forall k | 0 <= k < |rest| ensures le(t[0], rest[k]) {
          if rest[k] != x {
            InPermutation(rest, tail + [x], rest[k]);
            assert rest[k] in tail;
            var j :| 0 <= j < |tail| && tail[j] == rest[k];
            assert t[j + 1] == rest[k];
          }
        }
        assert r == [t[0]] + rest;
      } else {
        assert le(x, t[0]);
        forall k | 0 <= k < |t| ensures le(x, t[k]) {
          if k > 0 {
            assert le(t[0], t[k]);
            assert t[k] in t && t[0] in t;
          }
        }
        assert r == [x] + t;
      }
    }
  }

  /** The insertion sort is sorted whenever le is a total preorder on its input. */
  lemma {:induction false} InsertionSortSorted<T>(s: seq<T>, le: (T, T) -> bool, dom: set<T>)
    requires TotalPreorderOn(le, dom)
    requires Within(s, dom)
    ensures SortedBy(InsertionSort(s, le), le)
    decreases |s|
  {
    if s != [] {
      var p := s[..|s| - 1];
      WithinPrefix(s, dom);
      InsertionSortSorted(p, le, dom);
      WithinPermutation(InsertionSort(p, le), p, dom);
      InsertSorted(s[|s| - 1], InsertionSort(p, le), le, dom);
    }
  }

  lemma {:induction false} ClassOfAppend<T>(a: seq<T>, b: seq<T>, c: T, le: (T, T) -> bool)
    ensures ClassOf(a + b, c, le) == ClassOf(a, c, le) + ClassOf(b, c, le)
  {
    if a != [] {
      assert (a + b)[0] == a[0];
      assert (a + b)[1..] == a[1..] + b;
      ClassOfAppend(a[1..], b, c, le);
    } else {
      assert a + b == b;
    }
  }

  lemma {:induction false} ClassOfNone<T>(t: seq<T>, c: T, le: (T, T) -> bool)
    requires forall k :: 0 <= k < |t| ==> !Equivalent(le, t[k], c)
    ensures ClassOf(t, c, le) == []
  {
    if t != [] {
      ClassOfNone(t[1..], c, le);
    }
  }

  /** Inserting x into a sorted sequence puts it after every element equivalent to it. */
  lemma {:induction false} InsertClassOf<T>(x: T, t: seq<T>, c: T, le: (T, T) -> bool, dom: set<T>)
    requires TotalPreorderOn(le, dom)
    requires x in dom && c in dom && Within(t, dom)
    requires SortedBy(t, le)
    ensures ClassOf(Insert(x, t, le), c, le)
         == ClassOf(t, c, le) + (if Equivalent(le, x, c) then [x] else [])
    decreases |t|, 1
  {
    if t == [] {
      ClassOfSingleton(x, c, le);
    } else if le(t[0], x) {
      InsertBehindClassOf(x, t, c, le, dom);
    } else {
      var r := Insert(x, t, le);
      assert r == [x] + t;
      assert r[0] == x && r[1..] == t;
      assert ClassOf(r, c, le) == (if Equivalent(le, x, c) then [x] else []) + ClassOf(t, c, le);
      if Equivalent(le, x, c) {
        InsertFrontClassOf(x, t, c, le, dom);
      }
    }
  }

  /** The case of InsertClassOf where x goes behind the first element. */
  lemma {:induction false} InsertBehindClassOf<T>(x: T, t: seq<T>, c: T, le: (T, T) -> bool, dom: set<T>)
    requires TotalPreorderOn(le, dom)
    requires x in dom && c in dom && Within(t, dom)
    requires SortedBy(t, le) && t != [] && le(t[0], x)
    ensures ClassOf(Insert(x, t, le), c, le)
         == ClassOf(t, c, le) + (if Equivalent(le, x, c) then [x] else [])
    decreases |t|, 0
  {
    var tail := t[1..];
    assert forall y | y in tail :: y in t;
    InsertClassOf(x, tail, c, le, dom);
    var r := Insert(x, t, le);
    assert r[0] == t[0] && r[1..] == Insert(x, tail, le);
    var head := if Equivalent(le, t[0], c) then [t[0]] else [];
    assert ClassOf(r, c, le) == head + ClassOf(Insert(x, tail, le), c, le);
    assert ClassOf(t, c, le) == head + ClassOf(tail, c, le);
    var rest, xs := ClassOf(tail, c, le), if Equivalent(le, x, c) then [x] else [];
    AppendAssoc(head, rest, xs);
  }

  lemma SplitLast<T>(s: seq<T>)
    requires s != []
    ensures s == s[..|s| - 1] + [s[|s| - 1]]
  {
  }

  lemma AppendAssoc<T>(a: seq<T>, b: seq<T>, c: seq<T>)
    ensures a + (b + c) == (a + b) + c
  {
  }

  /** When x goes in front of a sorted t, no element of t is equivalent to x. */
  lemma InsertFrontClassOf<T>(x: T, t: seq<T>, c: T, le: (T, T) -> bool, dom: set<T>)
    requires TotalPreorderOn(le, dom)
    requires x in dom && c in dom && Within(t, dom)
    requires SortedBy(t, le) && t != [] && !le(t[0], x) && Equivalent(le, x, c)
    ensures ClassOf(t, c, le) == []
  {
    forall k | 0 <= k < |t| ensures !Equivalent(le, t[k], c) {
      assert t[k] in t && t[0] in t;
      if k > 0 { assert le(t[0], t[k]); }
    }
    ClassOfNone(t, c, le);
  }

  lemma WithinPrefix<T>(s: seq<T>, dom: set<T>)
    requires s != [] && Within(s, dom)
    ensures Within(s[..|s| - 1], dom) && s[|s| - 1] in dom
  {
    assert forall y | y in s[..|s| - 1] :: y in s;
  }

  lemma ClassOfSingleton<T>(x: T, c: T, le: (T, T) -> bool)
    ensures ClassOf([x], c, le) == if Equivalent(le, x, c) then [x] else []
  {
    assert [x][1..] == [];
  }

  /** Every class of equivalent elements keeps its order (stability). */
  lemma {:induction false} InsertionSortStable<T>(s: seq<T>, c: T, le: (T, T) -> bool, dom: set<T>)
    requires TotalPreorderOn(le, dom)
    requires c in dom && Within(s, dom)
    ensures ClassOf(InsertionSort(s, le), c, le) == ClassOf(s, c, le)
    decreases |s|
  {
    if s != [] {
      var p, last := s[..|s| - 1], s[|s| - 1];
      WithinPrefix(s, dom);
      var q := InsertionSort(p, le);
      InsertionSortStable(p, c, le, dom);
      InsertionSortSorted(p, le, dom);
      WithinPermutation(q, p, dom);
      InsertClassOf(last, q, c, le, dom);
      ClassOfAppend(p, [last], c, le);
      ClassOfSingleton(last, c, le);
      SplitLast(s);
      assert InsertionSort(s, le) == Insert(last, q, le);
    }
  }

  /** The three properties Collections.sort promises, for the insertion sort. */
  lemma InsertionSortCorrect<T>(s: seq<T>, le: (T, T) -> bool)
    requires TotalPreorderOn(le, Elements(s))
    ensures multiset(InsertionSort(s, le)) == multiset(s)
    ensures SortedBy(InsertionSort(s, le), le)
    ensures StableFor(InsertionSort(s, le), s, le)
  {
    InsertionSortSorted(s, le, Elements(s));
    forall c | c in s ensures ClassOf(InsertionSort(s, le), c, le) == ClassOf(s, c, le) {
      InsertionSortStable(s, c, le, Elements(s));
    }
  }
}

/** The sorted list of the library (xmlListInsert, xmlListSearch), and why its
    contents do not depend on insertion order when the comparator is a total order. */
module SortedList {

  /** The two comparisons of `a` and `b` agree, and 0 means equal. */
  predicate Consistent<T(==)>(cmp: (T, T) -> int, a: T, b: T) {
    (cmp(a, b) < 0 <==> cmp(b, a) > 0) && (cmp(a, b) == 0 <==> a == b)
  }

  predicate Transitive<T>(cmp: (T, T) -> int, a: T, b: T, c: T) {
    cmp(a, b) < 0 && cmp(b, c) < 0 ==> cmp(a, c) < 0
  }

  /** `cmp` is a total order on the elements of `s`. */
  ghost predicate TotalOn<T(!new)>(cmp: (T, T) -> int, s: set<T>) {
    && (forall a, b {:trigger Consistent(cmp, a, b)} | a in s && b in s :: Consistent(cmp, a, b))
    && (forall a, b, c {:trigger Transitive(cmp, a, b, c)} | a in s && b in s && c in s :: Transitive(cmp, a, b, c))
  }

  /** xmlListInsert: before the first element that is not below `x`. */
  function Insert<T>(l: seq<T>, x: T, cmp: (T, T) -> int): seq<T> {
    if l == [] || cmp(l[0], x) >= 0 then [x] + l else [l[0]] + Insert(l[1..], x, cmp)
  }

  /** xmlListSearch, as a yes or no: looks at the first element not below `x`. */
  predicate Contains<T>(l: seq<T>, x: T, cmp: (T, T) -> int) {
    l != [] && (if cmp(l[0], x) >= 0 then cmp(l[0], x) == 0 else Contains(l[1..], x, cmp))
  }

  /** Inserting the elements of `xs` one after the other. */
  function InsertAll<T>(l: seq<T>, xs: seq<T>, cmp: (T, T) -> int): seq<T>
    decreases |xs|
  {
    if xs == [] then l else InsertAll(Insert(l, xs[0], cmp), xs[1..], cmp)
  }

  ghost predicate Ascending<T>(l: seq<T>, cmp: (T, T) -> int) {
    l != [] ==> (forall y | y in l[1..] :: cmp(l[0], y) < 0) && Ascending(l[1..], cmp)
  }

  predicate Distinct<T(==)>(l: seq<T>) {
    forall i, j | 0 <= i < j < |l| :: l[i] != l[j]
  }

  ghost function Elements<T>(l: seq<T>): set<T> {
    set x | x in l
  }

  lemma {:induction false} InsertKeeps<T>(l: seq<T>, x: T, cmp: (T, T) -> int)
    ensures multiset(Insert(l, x, cmp)) == multiset(l) + multiset{x}
  {
    if l != [] {
      InsertKeeps(l[1..], x, cmp);
      assert l == [l[0]] + l[1..];
    }
  }

  lemma InsertElements<T>(l: seq<T>, x: T, cmp: (T, T) -> int)
    ensures Elements(Insert(l, x, cmp)) == Elements(l) + {x}
  {
    InsertKeeps(l, x, cmp);
    SameElements(Insert(l, x, cmp), l + [x]);
  }

  lemma SameElements<T>(a: seq<T>, b: seq<T>)
    requires multiset(a) == multiset(b)
    ensures Elements(a) == Elements(b) && |a| == |b|
  {
    assert forall x | x in a :: x in multiset(a) && x in multiset(b);
    assert forall x | x in b :: x in multiset(b) && x in multiset(a);
    assert |a| == |multiset(a)| == |multiset(b)| == |b|;
  }

  lemma {:induction false} InsertAscends<T(!new)>(l: seq<T>, x: T, cmp: (T, T) -> int)
    requires TotalOn(cmp, Elements(l) + {x}) && Ascending(l, cmp) && x !in l
    ensures Ascending(Insert(l, x, cmp), cmp)
  {
    if l != [] {
      var r := Insert(l, x, cmp);
      assert l[0] in l;
      assert Consistent(cmp, l[0], x) && Consistent(cmp, x, l[0]);
      assert forall y | y in l[1..] :: y in l;
      if cmp(l[0], x) >= 0 {
        assert r[1..] == l;
        forall y | y in l
          ensures cmp(x, y) < 0
        {
          assert y == l[0] || y in l[1..];
          assert Transitive(cmp, x, l[0], y);
        }
      } else {
        InsertAscends(l[1..], x, cmp);
        InsertElements(l[1..], x, cmp);
        assert r[1..] == Insert(l[1..], x, cmp);
        assert forall y | y in r[1..] :: y in Elements(r[1..]);
      }
    }
  }

  lemma {:induction false} InsertAllKeeps<T>(l: seq<T>, xs: seq<T>, cmp: (T, T) -> int)
    ensures multiset(InsertAll(l, xs, cmp)) == multiset(l) + multiset(xs)
    decreases |xs|
  {
    if xs != [] {
      InsertAllKeeps(Insert(l, xs[0], cmp), xs[1..], cmp);
      InsertKeeps(l, xs[0], cmp);
      assert xs == [xs[0]] + xs[1..];
    }
  }

  lemma {:induction false} InsertAllAscends<T(!new)>(l: seq<T>, xs: seq<T>, cmp: (T, T) -> int, s: set<T>)
    requires TotalOn(cmp, s) && Elements(l) <= s && Elements(xs) <= s && Ascending(l, cmp)
    requires Distinct(xs) && Elements(l) !! Elements(xs)
    ensures Ascending(InsertAll(l, xs, cmp), cmp)
    decreases |xs|
  {
    if xs != [] {
      var x, r := xs[0], Insert(l, xs[0], cmp);
      assert x in Elements(xs);
      assert x !in Elements(l);
      InsertAscends(l, x, cmp);
      InsertElements(l, x, cmp);
      assert Elements(xs[1..]) <= Elements(xs);
      assert x !in Elements(xs[1..]);
      InsertAllAscends(r, xs[1..], cmp, s);
    }
  }

  lemma HeadLeast<T>(l: seq<T>, x: T, cmp: (T, T) -> int)
    requires Ascending(l, cmp) && x in l
    ensures x == l[0] || cmp(l[0], x) < 0
  {
    assert l == [l[0]] + l[1..];
  }

  lemma SameHead<T(!new)>(a: seq<T>, b: seq<T>, cmp: (T, T) -> int, s: set<T>)
    requires a != [] && b != [] && a[0] in b && b[0] in a
    requires a[0] in s && b[0] in s && TotalOn(cmp, s)
    requires Ascending(a, cmp) && Ascending(b, cmp)
    ensures a[0] == b[0]
  {
    HeadLeast(a, b[0], cmp);
    HeadLeast(b, a[0], cmp);
    assert Consistent(cmp, a[0], b[0]);
  }

  lemma TailMultiset<T>(a: seq<T>)
    requires a != []
    ensures multiset(a[1..]) == multiset(a) - multiset{a[0]}
    ensures Elements(a[1..]) <= Elements(a)
  {
    assert a == [a[0]] + a[1..];
  }

  /** An ascending list is determined by its elements. */
  lemma {:induction false} AscendingUnique<T(!new)>(a: seq<T>, b: seq<T>, cmp: (T, T) -> int, s: set<T>)
    requires multiset(a) == multiset(b) && TotalOn(cmp, s) && Elements(a) <= s
    requires Ascending(a, cmp) && Ascending(b, cmp)
    ensures a == b
    decreases |a|
  {
    SameElements(a, b);
    if a != [] {
      assert a[0] in Elements(a) && b[0] in Elements(b);
      SameHead(a, b, cmp, s);
      TailMultiset(a);
      TailMultiset(b);
      AscendingUnique(a[1..], b[1..], cmp, s);
      assert a == [a[0]] + a[1..] && b == [b[0]] + b[1..];
    }
  }

  lemma {:induction false} DistinctMultiset<T(!new)>(a: seq<T>)
    ensures Distinct(a) <==> forall x :: multiset(a)[x] <= 1
  {
    if a != [] {
      DistinctMultiset(a[1..]);
      assert a == [a[0]] + a[1..];
      assert multiset(a)[a[0]] == 1 + multiset(a[1..])[a[0]];
      if Distinct(a) {
        assert a[0] !in a[1..];
      } else if Distinct(a[1..]) {
        assert a[0] in a[1..];
      } else {
        var x :| multiset(a[1..])[x] > 1;
        assert multiset(a)[x] > 1;
      }
    }
  }

  /** Sorting by insertion forgets the order of arrival. */
  lemma InsertAllCanonical<T(!new)>(xs: seq<T>, ys: seq<T>, cmp: (T, T) -> int)
    requires multiset(xs) == multiset(ys) && Distinct(xs) && TotalOn(cmp, Elements(xs))
    ensures InsertAll([], xs, cmp) == InsertAll([], ys, cmp)
  {
    DistinctMultiset(xs);
    DistinctMultiset(ys);
    SameElements(xs, ys);
    InsertAllAscends([], xs, cmp, Elements(xs));
    InsertAllAscends([], ys, cmp, Elements(xs));
    InsertAllKeeps([], xs, cmp);
    InsertAllKeeps([], ys, cmp);
    SameElements(InsertAll([], xs, cmp), xs);
    AscendingUnique(InsertAll([], xs, cmp), InsertAll([], ys, cmp), cmp, Elements(xs));
  }
}

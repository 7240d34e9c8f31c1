/** The sorts and the search of Go's slices package, over any lawful comparator. */
module StableSort {
  import opened Ordering

  /** What a comparator owes for one choice of arguments. */
  ghost predicate Lawful<T>(cmp: (T, T) -> int, a: T, b: T, c: T) {
    && cmp(a, a) == 0
    && Sign(cmp(a, b)) == -Sign(cmp(b, a))
    && Coherent(cmp(a, b), cmp(b, c), cmp(a, c))
  }

  ghost predicate TotalPreorder<T(!new)>(cmp: (T, T) -> int) {
    forall a, b, c :: Lawful(cmp, a, b, c)
  }

  ghost predicate Sorted<T>(s: seq<T>, cmp: (T, T) -> int) {
    forall i, j :: 0 <= i < j < |s| ==> cmp(s[i], s[j]) <= 0
  }

  /** Puts x behind every element that does not come strictly after it. */
  function Insert<T>(s: seq<T>, x: T, cmp: (T, T) -> int): seq<T> {
    if s == [] || cmp(s[|s| - 1], x) <= 0 then s + [x]
    else Insert(s[..|s| - 1], x, cmp) + [s[|s| - 1]]
  }

  function Sort<T>(s: seq<T>, cmp: (T, T) -> int): seq<T> {
    if s == [] then [] else Insert(Sort(s[..|s| - 1], cmp), s[|s| - 1], cmp)
  }

  /** The elements tied with x, in the order they occur. */
  ghost function Tied<T>(s: seq<T>, x: T, cmp: (T, T) -> int): seq<T> {
    if s == [] then []
    else Tied(s[..|s| - 1], x, cmp) + if cmp(s[|s| - 1], x) == 0 then [s[|s| - 1]] else []
  }

  lemma {:induction false} InsertMultiset<T>(s: seq<T>, x: T, cmp: (T, T) -> int)
    ensures multiset(Insert(s, x, cmp)) == multiset(s) + multiset{x}
  {
    if s != [] {
      InsertMultiset(s[..|s| - 1], x, cmp);
      assert s == s[..|s| - 1] + [s[|s| - 1]];
    }
  }

  lemma {:induction false} InsertSorted<T(!new)>(s: seq<T>, x: T, cmp: (T, T) -> int)
    requires TotalPreorder(cmp) && Sorted(s, cmp)
    ensures Sorted(Insert(s, x, cmp), cmp)
  {
    if s != [] {
      var init, last := s[..|s| - 1], s[|s| - 1];
      assert Lawful(cmp, last, x, x);
      if cmp(last, x) <= 0 {
        forall i | 0 <= i < |s| ensures cmp(s[i], x) <= 0 {
          assert Lawful(cmp, s[i], last, x);
        }
      } else {
        InsertSorted(init, x, cmp);
        InsertMultiset(init, x, cmp);
        var r := Insert(init, x, cmp);
        forall i | 0 <= i < |r| ensures cmp(r[i], last) <= 0 {
          assert r[i] in multiset(r);
        }
      }
    }
  }

  lemma MultisetSnoc<T>(s: seq<T>, x: T)
    ensures multiset(s + [x]) == multiset(s) + multiset{x}
  {
  }

  ghost predicate IsSortOf<T>(r: seq<T>, s: seq<T>, cmp: (T, T) -> int) {
    Sorted(r, cmp) && multiset(r) == multiset(s)
  }

  lemma InsertIsSortOf<T(!new)>(r: seq<T>, s: seq<T>, x: T, cmp: (T, T) -> int)
    requires TotalPreorder(cmp) && IsSortOf(r, s, cmp)
    ensures IsSortOf(Insert(r, x, cmp), s + [x], cmp)
  {
    hide Sorted, Insert, TotalPreorder;
    InsertSorted(r, x, cmp);
    InsertMultiset(r, x, cmp);
    MultisetSnoc(s, x);
  }

  lemma {:induction false} SortIsSortOf<T(!new)>(s: seq<T>, cmp: (T, T) -> int)
    requires TotalPreorder(cmp)
    ensures IsSortOf(Sort(s, cmp), s, cmp)
  {
    if s != [] {
      hide IsSortOf, Insert, TotalPreorder;
      var init, last := s[..|s| - 1], s[|s| - 1];
      SortIsSortOf(init, cmp);
      InsertIsSortOf(Sort(init, cmp), init, last, cmp);
      assert s == init + [last];
    }
  }

  lemma SortIsSortedPermutation<T(!new)>(s: seq<T>, cmp: (T, T) -> int)
    requires TotalPreorder(cmp)
    ensures Sorted(Sort(s, cmp), cmp)
    ensures multiset(Sort(s, cmp)) == multiset(s)
  {
    hide Sorted, Sort, TotalPreorder;
    SortIsSortOf(s, cmp);
  }

  lemma TiedAppend<T>(s: seq<T>, y: T, x: T, cmp: (T, T) -> int)
    ensures Tied(s + [y], x, cmp) == Tied(s, x, cmp) + if cmp(y, x) == 0 then [y] else []
  {
    assert (s + [y])[..|s|] == s;
  }

  lemma {:induction false} InsertTied<T(!new)>(s: seq<T>, y: T, x: T, cmp: (T, T) -> int)
    requires TotalPreorder(cmp)
    ensures Tied(Insert(s, y, cmp), x, cmp) == Tied(s + [y], x, cmp)
  {
    TiedAppend(s, y, x, cmp);
    if s != [] {
      var init, last := s[..|s| - 1], s[|s| - 1];
      if cmp(last, y) > 0 {
        InsertTied(init, y, x, cmp);
        TiedAppend(init, y, x, cmp);
        TiedAppend(Insert(init, y, cmp), last, x, cmp);
        assert Lawful(cmp, last, y, x);
      }
    }
  }

  /** Elements that compare equal keep their order. */
  lemma {:induction false} SortKeepsTies<T(!new)>(s: seq<T>, x: T, cmp: (T, T) -> int)
    requires TotalPreorder(cmp)
    ensures Tied(Sort(s, cmp), x, cmp) == Tied(s, x, cmp)
  {
    if s != [] {
      var init := s[..|s| - 1];
      SortKeepsTies(init, x, cmp);
      InsertTied(Sort(init, cmp), s[|s| - 1], x, cmp);
      TiedAppend(Sort(init, cmp), s[|s| - 1], x, cmp);
    }
  }

  lemma {:induction false} TiedMembers<T>(s: seq<T>, x: T, cmp: (T, T) -> int)
    ensures forall y :: y in Tied(s, x, cmp) <==> y in s && cmp(y, x) == 0
  {
    if s != [] {
      TiedMembers(s[..|s| - 1], x, cmp);
      assert s == s[..|s| - 1] + [s[|s| - 1]];
    }
  }

  lemma LastIsTiedWithItself<T(!new)>(s: seq<T>, cmp: (T, T) -> int)
    requires TotalPreorder(cmp) && s != []
    ensures var t := Tied(s, s[|s| - 1], cmp);
      t != [] && t[|t| - 1] == s[|s| - 1] && s[|s| - 1] in t
  {
    assert Lawful(cmp, s[|s| - 1], s[|s| - 1], s[|s| - 1]);
  }

  lemma LastIsGreatest<T(!new)>(s: seq<T>, y: T, cmp: (T, T) -> int)
    requires TotalPreorder(cmp) && Sorted(s, cmp) && y in s
    ensures cmp(y, s[|s| - 1]) <= 0
  {
    assert Lawful(cmp, y, y, y);
  }

  lemma LastsAgree<T(!new)>(a: seq<T>, b: seq<T>, cmp: (T, T) -> int)
    requires TotalPreorder(cmp) && Sorted(a, cmp) && Sorted(b, cmp) && a != [] && b != []
    requires Tied(a, a[|a| - 1], cmp) == Tied(b, a[|a| - 1], cmp)
    requires Tied(a, b[|b| - 1], cmp) == Tied(b, b[|b| - 1], cmp)
    ensures a[|a| - 1] == b[|b| - 1]
  {
    var x, y := a[|a| - 1], b[|b| - 1];
    LastIsTiedWithItself(a, cmp);
    LastIsTiedWithItself(b, cmp);
    TiedMembers(b, x, cmp);
    TiedMembers(a, y, cmp);
    LastIsGreatest(a, y, cmp);
    LastIsGreatest(b, x, cmp);
    assert Lawful(cmp, x, y, x);
    assert cmp(y, x) == 0;
  }

  /** A sorted list is determined by its ties: there is only one stable sort. */
  lemma {:induction false} SortedListsWithTheSameTiesAreEqual<T(!new)>(a: seq<T>, b: seq<T>, cmp: (T, T) -> int)
    requires TotalPreorder(cmp) && Sorted(a, cmp) && Sorted(b, cmp)
    requires forall x :: Tied(a, x, cmp) == Tied(b, x, cmp)
    ensures a == b
    decreases |a| + |b|
  {
    if a == [] || b == [] {
      if a != [] { LastIsTiedWithItself(a, cmp); }
      if b != [] { LastIsTiedWithItself(b, cmp); }
    } else {
      LastsAgree(a, b, cmp);
      var a', b', last := a[..|a| - 1], b[..|b| - 1], a[|a| - 1];
      assert a == a' + [last] && b == b' + [last];
      forall x ensures Tied(a', x, cmp) == Tied(b', x, cmp) {
        TiedAppend(a', last, x, cmp);
        TiedAppend(b', last, x, cmp);
        assert Tied(a, x, cmp) == Tied(b, x, cmp);
        SameSuffix(Tied(a', x, cmp), Tied(b', x, cmp), if cmp(last, x) == 0 then [last] else []);
      }
      SortedListsWithTheSameTiesAreEqual(a', b', cmp);
    }
  }

  lemma SameSuffix<T>(s: seq<T>, t: seq<T>, suffix: seq<T>)
    requires s + suffix == t + suffix
    ensures s == t
  {
    assert s == (s + suffix)[..|s|] && t == (t + suffix)[..|t|];
    assert |s + suffix| == |t + suffix|;
  }

  /** Any result that is sorted and keeps the order of tied elements is the one Sort gives. */
  lemma StableSortIsUnique<T(!new)>(s: seq<T>, r: seq<T>, cmp: (T, T) -> int)
    requires TotalPreorder(cmp)
    requires Sorted(r, cmp) && forall x :: Tied(r, x, cmp) == Tied(s, x, cmp)
    ensures r == Sort(s, cmp)
  {
    SortIsSortedPermutation(s, cmp);
    forall x ensures Tied(r, x, cmp) == Tied(Sort(s, cmp), x, cmp) { SortKeepsTies(s, x, cmp); }
    SortedListsWithTheSameTiesAreEqual(r, Sort(s, cmp), cmp);
  }

  lemma SortedParts<T>(s: seq<T>, cmp: (T, T) -> int)
    requires Sorted(s, cmp) && s != []
    ensures var init, last := s[..|s| - 1], s[|s| - 1];
      Sorted(init, cmp) && s == init + [last] && (init == [] || cmp(init[|init| - 1], last) <= 0)
  {
  }

  lemma InsertLast<T>(s: seq<T>, x: T, cmp: (T, T) -> int)
    requires s == [] || cmp(s[|s| - 1], x) <= 0
    ensures Insert(s, x, cmp) == s + [x]
  {
  }

  lemma {:induction false} SortOfSorted<T>(s: seq<T>, cmp: (T, T) -> int)
    requires Sorted(s, cmp)
    ensures Sort(s, cmp) == s
  {
    if s != [] {
      hide Sorted, Insert;
      SortedParts(s, cmp);
      SortOfSorted(s[..|s| - 1], cmp);
      InsertLast(s[..|s| - 1], s[|s| - 1], cmp);
    }
  }

  /** Sorting a prefix early is not observable once everything is sorted. */
  lemma {:induction false} SortingEarlyIsInvisible<T(!new)>(s: seq<T>, t: seq<T>, cmp: (T, T) -> int)
    requires TotalPreorder(cmp)
    ensures Sort(Sort(s, cmp) + t, cmp) == Sort(s + t, cmp)
  {
    if t == [] {
      SortIsSortedPermutation(s, cmp);
      SortOfSorted(Sort(s, cmp), cmp);
      assert Sort(s, cmp) + t == Sort(s, cmp) && s + t == s;
    } else {
      var init, last := t[..|t| - 1], t[|t| - 1];
      SortingEarlyIsInvisible(s, init, cmp);
      assert Sort(s, cmp) + t == Sort(s, cmp) + init + [last];
      assert s + t == s + init + [last];
      SortAppend(Sort(s, cmp) + init, last, cmp);
      SortAppend(s + init, last, cmp);
    }
  }

  lemma SortAppend<T>(s: seq<T>, x: T, cmp: (T, T) -> int)
    ensures Sort(s + [x], cmp) == Insert(Sort(s, cmp), x, cmp)
  {
    assert (s + [x])[..|s|] == s;
  }

  /** slices.SortStableFunc. */
  method SortStableFunc<T>(s: seq<T>, cmp: (T, T) -> int) returns (r: seq<T>)
    ensures r == Sort(s, cmp)
  {
    r := [];
    for i := 0 to |s|
      invariant r == Sort(s[..i], cmp)
    {
      SortAppend(s[..i], s[i], cmp);
      assert s[..i + 1] == s[..i] + [s[i]];
      r := Insert(r, s[i], cmp);
    }
    assert s[..|s|] == s;
  }

  /** slices.SortFunc promises a sorted permutation and nothing about ties. */
  method SortFunc<T(!new)>(s: seq<T>, cmp: (T, T) -> int) returns (r: seq<T>)
    requires TotalPreorder(cmp)
    ensures Sorted(r, cmp) && multiset(r) == multiset(s)
  {
    r := SortStableFunc(s, cmp);
    SortIsSortedPermutation(s, cmp);
  }

  /** slices.BinarySearchFunc. */
  method BinarySearchFunc<T(!new)>(s: seq<T>, target: T, cmp: (T, T) -> int) returns (i: nat, found: bool)
    requires TotalPreorder(cmp) && Sorted(s, cmp)
    ensures i <= |s|
    ensures forall k :: 0 <= k < i ==> cmp(s[k], target) < 0
    ensures forall k :: i <= k < |s| ==> cmp(s[k], target) >= 0
    ensures found <==> i < |s| && cmp(s[i], target) == 0
  {
    var j := |s|;
    i := 0;
    while i < j
      invariant 0 <= i <= j <= |s|
      invariant forall k :: 0 <= k < i ==> cmp(s[k], target) < 0
      invariant forall k :: j <= k < |s| ==> cmp(s[k], target) >= 0
    {
      var h := (i + j) / 2;
      if cmp(s[h], target) < 0 {
        forall k | 0 <= k < h ensures cmp(s[k], target) < 0 {
          assert Lawful(cmp, s[k], s[h], target);
        }
        i := h + 1;
      } else {
        forall k | h < k < |s| ensures cmp(s[k], target) >= 0 {
          assert Lawful(cmp, s[k], s[h], target);
        }
        j := h;
      }
    }
    found := i < |s| && cmp(s[i], target) == 0;
  }

  /** The search finds the first of the tied elements, or none are tied. */
  lemma {:induction false} FirstTied<T>(s: seq<T>, x: T, i: nat, cmp: (T, T) -> int)
    requires i <= |s|
    requires forall k :: 0 <= k < i ==> cmp(s[k], x) != 0
    requires i < |s| ==> cmp(s[i], x) == 0 || forall k :: i <= k < |s| ==> cmp(s[k], x) != 0
    ensures Tied(s, x, cmp) == [] <==> i == |s| || cmp(s[i], x) != 0
    ensures i < |s| && cmp(s[i], x) == 0 ==> Tied(s, x, cmp) != [] && Tied(s, x, cmp)[0] == s[i]
  {
    if s != [] {
      FirstTied(s[..|s| - 1], x, if i < |s| then i else |s| - 1, cmp);
    }
  }
}

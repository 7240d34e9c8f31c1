/** applyEdits (packages/typescript/scripts/generateSync.ts): edits applied back to front equal
    replacing all their ranges at once. */
module Edits {
  import opened StableSort

  datatype Edit = Edit(start: nat, end: nat, newText: string)

  /** String.prototype.slice with nonnegative bounds, which are cut to the length. */
  function Slice(s: string, from: nat, to: nat): string {
    var to' := if to <= |s| then to else |s|;
    if from <= to' then s[from..to'] else []
  }

  function Replace(s: string, e: Edit): string {
    Slice(s, 0, e.start) + e.newText + Slice(s, e.end, |s|)
  }

  function LaterFirst(a: Edit, b: Edit): int { b.start - a.start }

  lemma LaterFirstIsLawful()
    ensures TotalPreorder(LaterFirst)
  {
    forall a, b, c ensures Lawful(LaterFirst, a, b, c) {
    }
  }

  /** Source order: the gaps of the source from pos on, with the new texts between them. */
  function Weave(source: string, pos: nat, edits: seq<Edit>): string
    requires InOrder(source, pos, edits)
    decreases |edits|
  {
    if edits == [] then source[pos..]
    else source[pos..edits[0].start] + edits[0].newText + Weave(source, edits[0].end, edits[1..])
  }

  /** Ranges within the source, each behind the one before it. */
  predicate InOrder(source: string, pos: nat, edits: seq<Edit>)
    decreases |edits|
  {
    if edits == [] then pos <= |source|
    else pos <= edits[0].start <= edits[0].end <= |source| && InOrder(source, edits[0].end, edits[1..])
  }

  function Reverse(edits: seq<Edit>): seq<Edit> {
    if edits == [] then [] else Reverse(edits[1..]) + [edits[0]]
  }

  predicate Valid(source: string, edits: seq<Edit>) {
    forall e :: e in edits ==> e.start <= e.end <= |source|
  }

  predicate Apart(a: Edit, b: Edit) {
    a.start != b.start && (a.end <= b.start || b.end <= a.start)
  }

  /** No two edits overlap or start at the same place. */
  predicate Disjoint(edits: seq<Edit>) {
    forall i, j :: 0 <= i < j < |edits| ==> Apart(edits[i], edits[j])
  }

  /** The edits do not overlap, and of two that start at the same place the one given later covers nothing. */
  predicate InTurn(a: Edit, b: Edit) {
    if a.start == b.start then b.end == b.start else a.end <= b.start || b.end <= a.start
  }

  predicate Separate(edits: seq<Edit>) {
    forall i, j :: 0 <= i < j < |edits| ==> InTurn(edits[i], edits[j])
  }

  lemma DisjointAreSeparate(edits: seq<Edit>)
    requires Disjoint(edits)
    ensures Separate(edits)
  {
    forall i, j | 0 <= i < j < |edits| ensures InTurn(edits[i], edits[j]) {
      assert Apart(edits[i], edits[j]);
    }
  }

  // ---------- separate edits under sorting ----------

  /** Latest first, each edit ends before the one before it starts. */
  predicate Backward(edits: seq<Edit>) {
    forall k :: 0 <= k < |edits| - 1 ==> edits[k + 1].end <= edits[k].start
  }

  lemma LastInserted(s: seq<Edit>, x: Edit)
    ensures var r := Insert(s, x, LaterFirst);
      r != [] && (r[|r| - 1] == x || (s != [] && r[|r| - 1] == s[|s| - 1]))
  {
  }

  lemma BackwardSnoc(s: seq<Edit>, x: Edit)
    requires Backward(s) && (s != [] ==> x.end <= s[|s| - 1].start)
    ensures Backward(s + [x])
  {
  }

  lemma {:induction false} InsertBackward(source: string, s: seq<Edit>, x: Edit)
    requires Backward(s) && Valid(source, s) && x.start <= x.end && forall y :: y in s ==> InTurn(y, x)
    ensures Backward(Insert(s, x, LaterFirst))
  {
    if s != [] {
      var init, last := s[..|s| - 1], s[|s| - 1];
      assert last in s;
      if LaterFirst(last, x) <= 0 {
        BackwardSnoc(s, x);
      } else {
        InsertBackward(source, init, x);
        LastInserted(init, x);
        assert init != [] ==> init[|init| - 1] == s[|s| - 2];
        BackwardSnoc(Insert(init, x, LaterFirst), last);
      }
    }
  }

  lemma {:induction false} SortBackward(source: string, edits: seq<Edit>)
    requires Separate(edits) && Valid(source, edits)
    ensures Backward(Sort(edits, LaterFirst)) && Valid(source, Sort(edits, LaterFirst))
  {
    hide Insert, Backward;
    LaterFirstIsLawful();
    SortIsSortedPermutation(edits, LaterFirst);
    forall e | e in Sort(edits, LaterFirst) ensures e in edits { assert e in multiset(Sort(edits, LaterFirst)); }
    if edits == [] {
      NoneBackward();
    } else {
      var init, x := edits[..|edits| - 1], edits[|edits| - 1];
      SortBackward(source, init);
      SortIsSortedPermutation(init, LaterFirst);
      assert x in edits;
      forall y | y in Sort(init, LaterFirst) ensures InTurn(y, x) {
        assert y in multiset(init);
        var i :| 0 <= i < |init| && init[i] == y;
        assert InTurn(edits[i], edits[|edits| - 1]);
      }
      InsertBackward(source, Sort(init, LaterFirst), x);
    }
  }

  lemma NoneBackward()
    ensures Backward([])
  {
  }

  // ---------- edits that start at different places ----------

  lemma {:induction false} DisjointOnce(edits: seq<Edit>, e: Edit)
    requires Disjoint(edits)
    ensures multiset(edits)[e] <= 1
  {
    if edits != [] {
      var rest := edits[1..];
      assert Disjoint(rest) by {
        forall i, j | 0 <= i < j < |rest| ensures Apart(rest[i], rest[j]) { assert Apart(edits[i + 1], edits[j + 1]); }
      }
      DisjointOnce(rest, e);
      assert edits == [edits[0]] + rest;
      forall k | 0 <= k < |rest| ensures rest[k] != edits[0] {
        assert Apart(edits[0], edits[k + 1]);
      }
      assert multiset(edits) == multiset{edits[0]} + multiset(rest);
      assert edits[0] !in multiset(rest);
    }
  }

  lemma DisjointElements(edits: seq<Edit>, a: Edit, b: Edit)
    requires Disjoint(edits) && a in edits && b in edits && a != b
    ensures Apart(a, b)
  {
    var i :| 0 <= i < |edits| && edits[i] == a;
    var j :| 0 <= j < |edits| && edits[j] == b;
    if i < j { assert Apart(edits[i], edits[j]); } else { assert Apart(edits[j], edits[i]); }
  }

  lemma TwiceInMultiset(s: seq<Edit>, i: nat, j: nat)
    requires i < j < |s| && s[i] == s[j]
    ensures multiset(s)[s[i]] >= 2
  {
    assert s == s[..i] + [s[i]] + s[i + 1..j] + [s[j]] + s[j + 1..];
  }

  /** Latest first, and no two at the same place. */
  predicate Descending(edits: seq<Edit>) {
    forall k :: 0 <= k < |edits| - 1 ==> edits[k + 1].start < edits[k].start && edits[k + 1].end <= edits[k].start
  }

  lemma SortedDescending(source: string, edits: seq<Edit>)
    requires Disjoint(edits) && Valid(source, edits)
    ensures Descending(Sort(edits, LaterFirst)) && Valid(source, Sort(edits, LaterFirst))
  {
    hide Sort;
    LaterFirstIsLawful();
    SortIsSortedPermutation(edits, LaterFirst);
    var d := Sort(edits, LaterFirst);
    forall e | e in d ensures e in edits { assert e in multiset(d); }
    forall k | 0 <= k < |d| - 1
      ensures d[k + 1].start < d[k].start && d[k + 1].end <= d[k].start
    {
      assert LaterFirst(d[k], d[k + 1]) <= 0;
      if d[k] == d[k + 1] {
        TwiceInMultiset(d, k, k + 1);
        DisjointOnce(edits, d[k]);
      }
      DisjointElements(edits, d[k], d[k + 1]);
    }
  }

  // ---------- back to front ----------

  lemma InOrderEarlier(source: string, from: nat, pos: nat, edits: seq<Edit>)
    requires from <= pos && InOrder(source, pos, edits)
    ensures pos <= |source| && InOrder(source, from, edits)
  {
  }

  lemma FourInARow(a: string, b: string, c: string, d: string)
    ensures a + (b + c + d) == a + b + c + d
  {
  }

  /** Weaving from an earlier place only puts more of the source in front. */
  lemma WeaveFrom(source: string, from: nat, pos: nat, edits: seq<Edit>)
    requires from <= pos && InOrder(source, pos, edits)
    ensures pos <= |source| && InOrder(source, from, edits)
    ensures Weave(source, from, edits) == source[from..pos] + Weave(source, pos, edits)
  {
    InOrderEarlier(source, from, pos, edits);
    if edits == [] {
      assert source[from..] == source[from..pos] + source[pos..];
    } else {
      var e, rest := edits[0], Weave(source, edits[0].end, edits[1..]);
      assert source[from..e.start] == source[from..pos] + source[pos..e.start];
      hide Weave, InOrder;
      FourInARow(source[from..pos], source[pos..e.start], e.newText, rest);
    }
  }

  /** One more edit, in front of those already woven in. */
  lemma EditInFront(source: string, e: Edit, edits: seq<Edit>)
    requires e.start <= e.end && InOrder(source, e.end, edits)
    ensures InOrder(source, 0, edits) && InOrder(source, 0, [e] + edits)
    ensures Replace(Weave(source, 0, edits), e) == Weave(source, 0, [e] + edits)
  {
    WeaveFrom(source, 0, e.end, edits);
    var woven := Weave(source, 0, edits);
    assert ([e] + edits)[1..] == edits && ([e] + edits)[0] == e;
    assert woven[..e.start] == source[..e.start];
    assert woven[e.end..] == Weave(source, e.end, edits);
    assert source[0..e.start] == source[..e.start];
  }

  lemma {:induction false} ReverseAppend(edits: seq<Edit>, e: Edit)
    ensures Reverse(edits + [e]) == [e] + Reverse(edits)
  {
    if edits != [] {
      assert (edits + [e])[1..] == edits[1..] + [e];
      ReverseAppend(edits[1..], e);
    }
  }

  lemma Untouched(source: string)
    ensures forall pos: nat :: pos <= |source| ==> InOrder(source, pos, [])
    ensures Weave(source, 0, []) == source
  {
  }

  lemma NextInOrder(source: string, pos: nat, e: Edit, edits: seq<Edit>)
    requires pos <= e.start <= e.end <= |source| && InOrder(source, e.end, edits)
    ensures InOrder(source, pos, [e] + edits)
  {
    assert ([e] + edits)[1..] == edits;
  }

  /** What applying the edits one after another gives. */
  function Applied(source: string, edits: seq<Edit>): string {
    if edits == [] then source else Replace(Applied(source, edits[..|edits| - 1]), edits[|edits| - 1])
  }

  lemma AppliedAppend(source: string, edits: seq<Edit>, e: Edit)
    ensures Applied(source, edits + [e]) == Replace(Applied(source, edits), e)
  {
    assert (edits + [e])[..|edits|] == edits;
  }

  /** Back to front, one after another is all at once. */
  lemma {:induction false} AppliedIsWeave(source: string, d: seq<Edit>)
    requires Backward(d) && Valid(source, d)
    ensures InOrder(source, 0, Reverse(d)) && Applied(source, d) == Weave(source, 0, Reverse(d))
    ensures forall pos: nat ::
      pos <= |source| && (d != [] ==> pos <= d[|d| - 1].start) ==> InOrder(source, pos, Reverse(d))
  {
    hide Weave, InOrder, Replace;
    Untouched(source);
    if d != [] {
      var init, e := d[..|d| - 1], d[|d| - 1];
      AppliedIsWeave(source, init);
      assert d == init + [e] && e in d;
      ReverseAppend(init, e);
      EditInFront(source, e, Reverse(init));
      forall pos: nat | pos <= e.start ensures InOrder(source, pos, Reverse(d)) {
        NextInOrder(source, pos, e, Reverse(init));
      }
    }
  }

  /** Separate edits are applied all at once; of those at one place the one given last comes first. */
  method ApplyEdits(source: string, edits: seq<Edit>) returns (result: string)
    ensures result == Applied(source, Sort(edits, LaterFirst))
    ensures Separate(edits) && Valid(source, edits) ==>
      && InOrder(source, 0, Reverse(Sort(edits, LaterFirst)))
      && result == Weave(source, 0, Reverse(Sort(edits, LaterFirst)))
  {
    hide Sort, Weave, InOrder;
    var sorted := SortStableFunc(edits, LaterFirst);
    result := source;
    for i := 0 to |sorted|
      invariant result == Applied(source, sorted[..i])
    {
      assert sorted[..i + 1] == sorted[..i] + [sorted[i]];
      AppliedAppend(source, sorted[..i], sorted[i]);
      result := Slice(result, 0, sorted[i].start) + sorted[i].newText + Slice(result, sorted[i].end, |result|);
    }
    assert sorted[..|sorted|] == sorted;
    if Separate(edits) && Valid(source, edits) {
      SortBackward(source, edits);
      AppliedIsWeave(source, sorted);
    }
  }

  // ---------- the order in which edits are given does not matter ----------

  lemma {:induction false} DescendingFrom(d: seq<Edit>, k: nat)
    requires Descending(d) && k < |d|
    ensures forall i :: 0 <= i < k ==> d[k].start < d[i].start
  {
    if k > 0 { DescendingFrom(d, k - 1); }
  }

  lemma Tail(a: seq<Edit>)
    requires a != []
    ensures multiset(a[1..]) == multiset(a) - multiset{a[0]}
    ensures Descending(a) ==> Descending(a[1..])
  {
    assert a == [a[0]] + a[1..];
    if Descending(a) {
      forall k | 0 <= k < |a[1..]| - 1
        ensures a[1..][k + 1].start < a[1..][k].start && a[1..][k + 1].end <= a[1..][k].start
      {
        assert a[1..][k + 1] == a[k + 2] && a[1..][k] == a[k + 1];
      }
    }
  }

  lemma FirstIsLatest(a: seq<Edit>, b: seq<Edit>)
    requires Descending(a) && Descending(b) && a != [] && b != [] && a[0] in b && b[0] in a
    ensures a[0] == b[0]
  {
    var i :| 0 <= i < |b| && b[i] == a[0];
    var j :| 0 <= j < |a| && a[j] == b[0];
    DescendingFrom(b, i);
    DescendingFrom(a, j);
  }

  lemma {:induction false} DescendingIsUnique(a: seq<Edit>, b: seq<Edit>)
    requires Descending(a) && Descending(b) && multiset(a) == multiset(b)
    ensures a == b
    decreases |a|
  {
    hide Descending;
    assert |a| == |multiset(a)| && |b| == |multiset(b)|;
    if a != [] {
      assert a[0] in multiset(b) && b[0] in multiset(a);
      FirstIsLatest(a, b);
      Tail(a);
      Tail(b);
      DescendingIsUnique(a[1..], b[1..]);
      assert a == [a[0]] + a[1..] && b == [b[0]] + b[1..];
    }
  }

  /** Any two lists of the same disjoint edits give the same text. */
  lemma GivenOrderIsIrrelevant(source: string, edits: seq<Edit>, edits': seq<Edit>)
    requires Disjoint(edits) && Disjoint(edits') && Valid(source, edits) && multiset(edits) == multiset(edits')
    ensures Sort(edits, LaterFirst) == Sort(edits', LaterFirst)
  {
    hide Sort, Descending;
    forall e | e in edits' ensures e in edits { assert e in multiset(edits'); }
    SortedDescending(source, edits);
    SortedDescending(source, edits');
    LaterFirstIsLawful();
    SortIsSortedPermutation(edits, LaterFirst);
    SortIsSortedPermutation(edits', LaterFirst);
    DescendingIsUnique(Sort(edits, LaterFirst), Sort(edits', LaterFirst));
  }

  /** So applying any two lists of the same disjoint edits replaces all their ranges at once, in one and the same
      way. */
  lemma DisjointEditsGiveOneText(source: string, edits: seq<Edit>, edits': seq<Edit>)
    requires Disjoint(edits) && Disjoint(edits') && Valid(source, edits) && multiset(edits) == multiset(edits')
    ensures var inOrder := Reverse(Sort(edits, LaterFirst));
      && InOrder(source, 0, inOrder)
      && Applied(source, Sort(edits, LaterFirst)) == Weave(source, 0, inOrder)
      && Applied(source, Sort(edits', LaterFirst)) == Weave(source, 0, inOrder)
  {
    hide Sort, Weave, InOrder, Applied, Separate, Backward, Disjoint;
    GivenOrderIsIrrelevant(source, edits, edits');
    DisjointAreSeparate(edits);
    SortBackward(source, edits);
    AppliedIsWeave(source, Sort(edits, LaterFirst));
  }

  /** The text grows by what the edits put in and shrinks by what they cover. */
  lemma {:induction false} WeaveLength(source: string, pos: nat, edits: seq<Edit>)
    requires InOrder(source, pos, edits)
    ensures pos <= |source|
    ensures |Weave(source, pos, edits)| == |source| - pos + Growth(edits)
    decreases |edits|
  {
    if edits != [] { WeaveLength(source, edits[0].end, edits[1..]); }
  }

  function Growth(edits: seq<Edit>): int {
    if edits == [] then 0 else |edits[0].newText| - (edits[0].end - edits[0].start) + Growth(edits[1..])
  }

  // ---------- edits that start at the same place ----------

  lemma SortOfTwo(a: Edit, b: Edit)
    requires a.start == b.start
    ensures Sort([a, b], LaterFirst) == [a, b]
  {
    assert [a, b][..1] == [a] && [a][..0] == [];
    assert Sort([a], LaterFirst) == [a];
  }

  lemma SeparateTwo(a: Edit, b: Edit)
    ensures Separate([a, b]) <==> InTurn(a, b)
  {
    var s := [a, b];
    if InTurn(a, b) {
      forall i, j | 0 <= i < j < |s| ensures InTurn(s[i], s[j]) {
        assert i == 0 && j == 1;
      }
    } else {
      assert !InTurn(s[0], s[1]);
    }
  }

  lemma AppliedTwo(source: string, a: Edit, b: Edit)
    ensures Applied(source, [a, b]) == Replace(Replace(source, a), b)
  {
    hide Replace;
    assert [a, b][..1] == [a] && [a][..0] == [];
    assert Applied(source, [a]) == Replace(source, a);
  }

  lemma ReplaceWithin(before: string, behind: string, e: Edit)
    requires e.start == |before| <= e.end <= |before| + |behind|
    ensures Replace(before + behind, e) == before + e.newText + behind[e.end - |before|..]
  {
    var s := before + behind;
    assert s[0..e.start] == before && s[e.end..|s|] == behind[e.end - |before|..];
  }

  /** Of two edits at one place the one given later is applied to what the earlier one put there. */
  lemma SameStart(source: string, a: Edit, b: Edit)
    requires a.start == b.start <= a.end <= |source|
    requires b.start <= b.end <= b.start + |a.newText + source[a.end..]|
    ensures Applied(source, Sort([a, b], LaterFirst)) ==
      source[..a.start] + b.newText + (a.newText + source[a.end..])[b.end - b.start..]
  {
    hide Replace, Applied, Sort;
    SortOfTwo(a, b);
    AppliedTwo(source, a, b);
    var before := source[..a.start];
    assert source == before + source[a.start..];
    ReplaceWithin(before, source[a.start..], a);
    assert source[a.start..][a.end - a.start..] == source[a.end..];
    assert before + a.newText + source[a.end..] == before + (a.newText + source[a.end..]);
    ReplaceWithin(before, a.newText + source[a.end..], b);
  }

  /** Insertions at one place come out in the opposite of the order given, whatever they insert. */
  lemma SameStartReverses(source: string, p: nat, first: string, second: string)
    requires p <= |source|
    ensures Separate([Edit(p, p, first), Edit(p, p, second)])
    ensures Applied(source, Sort([Edit(p, p, first), Edit(p, p, second)], LaterFirst)) ==
      source[..p] + second + first + source[p..]
  {
    hide Replace, Applied, Sort, Separate;
    SeparateTwo(Edit(p, p, first), Edit(p, p, second));
    SameStart(source, Edit(p, p, first), Edit(p, p, second));
    InFrontOfAll(source[..p], second, first, source[p..]);
  }

  lemma InFrontOfAll(before: string, text: string, own: string, behind: string)
    ensures before + text + (own + behind)[0..] == before + text + own + behind
  {
    assert (own + behind)[0..] == own + behind;
  }

  /** An insertion given before a replacement that starts where it inserts is replaced in place of the source, as
      far as it goes. */
  lemma InsertionIsReplaced(source: string, insertion: Edit, e: Edit)
    requires insertion.start == insertion.end == e.start < e.end <= |source|
    ensures !Separate([insertion, e])
    ensures Applied(source, Sort([insertion, e], LaterFirst)) ==
      source[..e.start] + e.newText + (insertion.newText + source[e.start..])[e.end - e.start..]
  {
    hide Replace, Applied, Sort, Separate;
    SeparateTwo(insertion, e);
    SameStart(source, insertion, e);
  }

  /** Given the other way round the two are separate, and both are kept. */
  lemma InsertionIsKept(source: string, insertion: Edit, e: Edit)
    requires insertion.start == insertion.end == e.start < e.end <= |source|
    ensures Separate([e, insertion])
    ensures Applied(source, Sort([e, insertion], LaterFirst)) ==
      source[..e.start] + insertion.newText + e.newText + source[e.end..]
  {
    hide Replace, Applied, Sort, Separate;
    SeparateTwo(e, insertion);
    SameStart(source, e, insertion);
    InFrontOfAll(source[..e.start], insertion.newText, e.newText, source[e.end..]);
  }
}

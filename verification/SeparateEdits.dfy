/** That applyEdits (packages/typescript/scripts/generateSync.ts) needs its edits to be separate: an insertion given
    before a replacement at its place makes the loop differ from replacing all ranges at once. */
module SeparateEdits {
  import opened StableSort
  import opened Edits

  predicate Insertion(e: Edit) {
    e.start == e.end
  }

  /** In turn, or an insertion given before another edit at its place. */
  predicate AlmostInTurn(a: Edit, b: Edit) {
    InTurn(a, b) || (Insertion(a) && a.start == b.start)
  }

  predicate AlmostSeparate(edits: seq<Edit>) {
    forall i, j :: 0 <= i < j < |edits| ==> AlmostInTurn(edits[i], edits[j])
  }

  /** Edits of the same ranges, whatever their texts. */
  predicate SameRanges(a: seq<Edit>, b: seq<Edit>) {
    |a| == |b| && forall i :: 0 <= i < |a| ==> a[i].start == b[i].start && a[i].end == b[i].end
  }

  function Only(edits: seq<Edit>, insertions: bool): seq<Edit> {
    if edits == [] then []
    else
      var last := edits[|edits| - 1];
      Only(edits[..|edits| - 1], insertions) + if Insertion(last) == insertions then [last] else []
  }

  /** The same edits with the insertions given last. */
  function InsertionsLast(edits: seq<Edit>): seq<Edit> {
    Only(edits, false) + Only(edits, true)
  }

  // ---------- giving the insertions last makes the edits separate ----------

  lemma {:induction false} OnlyMembers(edits: seq<Edit>, insertions: bool)
    ensures forall e :: e in Only(edits, insertions) ==> e in edits && Insertion(e) == insertions
  {
    if edits != [] { OnlyMembers(edits[..|edits| - 1], insertions); }
  }

  lemma OnlySnoc(init: seq<Edit>, last: Edit)
    ensures Only(init + [last], Insertion(last)) == Only(init, Insertion(last)) + [last]
    ensures Only(init + [last], !Insertion(last)) == Only(init, !Insertion(last))
  {
    assert (init + [last])[..|init|] == init;
    assert Only(init, !Insertion(last)) + [] == Only(init, !Insertion(last));
  }

  lemma AddedToEither(a: multiset<Edit>, b: multiset<Edit>, c: multiset<Edit>)
    ensures (a + c) + b == (a + b) + c && a + (b + c) == (a + b) + c
  {
  }

  lemma MultisetConcat(a: seq<Edit>, b: seq<Edit>)
    ensures multiset(a + b) == multiset(a) + multiset(b)
  {
  }

  ghost predicate KeepsAll(edits: seq<Edit>) {
    multiset(Only(edits, false)) + multiset(Only(edits, true)) == multiset(edits)
  }

  lemma KeepsAllSnoc(init: seq<Edit>, last: Edit)
    requires KeepsAll(init)
    ensures KeepsAll(init + [last])
  {
    hide Only;
    OnlySnoc(init, last);
    MultisetSnoc(init, last);
    MultisetSnoc(Only(init, Insertion(last)), last);
    AddedToEither(multiset(Only(init, false)), multiset(Only(init, true)), multiset{last});
  }

  lemma {:induction false} OnlyKeepsAll(edits: seq<Edit>)
    ensures KeepsAll(edits)
  {
    if edits != [] {
      hide KeepsAll;
      var init, last := edits[..|edits| - 1], edits[|edits| - 1];
      OnlyKeepsAll(init);
      KeepsAllSnoc(init, last);
      assert edits == init + [last];
    }
  }

  lemma InsertionsLastMultiset(edits: seq<Edit>)
    ensures multiset(InsertionsLast(edits)) == multiset(edits)
  {
    hide Only;
    OnlyKeepsAll(edits);
    MultisetConcat(Only(edits, false), Only(edits, true));
  }

  lemma SeparateSnoc(edits: seq<Edit>, e: Edit)
    requires Separate(edits) && forall x :: x in edits ==> InTurn(x, e)
    ensures Separate(edits + [e])
  {
    var all := edits + [e];
    forall i, j | 0 <= i < j < |all| ensures InTurn(all[i], all[j]) {
      if j == |edits| { assert all[i] in edits; }
    }
  }

  lemma SeparateConcat(a: seq<Edit>, b: seq<Edit>)
    requires Separate(a) && Separate(b) && forall x, y :: x in a && y in b ==> InTurn(x, y)
    ensures Separate(a + b)
  {
    var all := a + b;
    forall i, j | 0 <= i < j < |all| ensures InTurn(all[i], all[j]) {
      if i < |a| <= j {
        assert all[i] in a && all[j] in b;
      } else if |a| <= i {
        assert InTurn(b[i - |a|], b[j - |a|]);
      }
    }
  }

  lemma {:induction false} OnlySeparate(edits: seq<Edit>, insertions: bool)
    requires AlmostSeparate(edits)
    ensures Separate(Only(edits, insertions))
  {
    if edits != [] {
      var init, last := edits[..|edits| - 1], edits[|edits| - 1];
      OnlySeparate(init, insertions);
      OnlyMembers(init, insertions);
      if Insertion(last) == insertions {
        forall x | x in Only(init, insertions) ensures InTurn(x, last) {
          var i :| 0 <= i < |init| && init[i] == x;
          assert AlmostInTurn(edits[i], edits[|edits| - 1]);
        }
        SeparateSnoc(Only(init, insertions), last);
      }
    }
  }

  lemma InsertionsLastAreSeparate(edits: seq<Edit>)
    requires AlmostSeparate(edits)
    ensures Separate(InsertionsLast(edits))
  {
    hide Only, Separate;
    OnlySeparate(edits, false);
    OnlySeparate(edits, true);
    OnlyMembers(edits, false);
    OnlyMembers(edits, true);
    forall x, y | x in Only(edits, false) && y in Only(edits, true) ensures InTurn(x, y) {
      var i :| 0 <= i < |edits| && edits[i] == x;
      var j :| 0 <= j < |edits| && edits[j] == y;
      if i < j { assert AlmostInTurn(edits[i], edits[j]); } else { assert AlmostInTurn(edits[j], edits[i]); }
    }
    SeparateConcat(Only(edits, false), Only(edits, true));
  }

  // ---------- the sort keeps the given order at one place ----------

  predicate Before(d: seq<Edit>, a: Edit, b: Edit) {
    exists m, n :: 0 <= m < n < |d| && d[m] == a && d[n] == b
  }

  lemma BeforeAppend(d: seq<Edit>, x: Edit, a: Edit, b: Edit)
    requires Before(d, a, b)
    ensures Before(d + [x], a, b)
  {
    var m, n :| 0 <= m < n < |d| && d[m] == a && d[n] == b;
    assert (d + [x])[m] == a && (d + [x])[n] == b;
  }

  lemma BeforeLast(d: seq<Edit>, x: Edit, a: Edit)
    requires a in d
    ensures Before(d + [x], a, x)
  {
    var m :| 0 <= m < |d| && d[m] == a;
    assert (d + [x])[m] == a && (d + [x])[|d|] == x;
  }

  lemma BeforeInit(d: seq<Edit>, a: Edit, b: Edit)
    requires Before(d, a, b)
    ensures d != []
    ensures Before(d[..|d| - 1], a, b) || (b == d[|d| - 1] && a in d[..|d| - 1])
  {
    var m, n :| 0 <= m < n < |d| && d[m] == a && d[n] == b;
    var init := d[..|d| - 1];
    assert init[m] == a && (n < |d| - 1 ==> init[n] == b);
  }

  lemma InsertUnfolds(d: seq<Edit>, x: Edit)
    requires d != []
    ensures var init, last := d[..|d| - 1], d[|d| - 1];
      Insert(d, x, LaterFirst) ==
        if LaterFirst(last, x) <= 0 then d + [x] else Insert(init, x, LaterFirst) + [last]
  {
  }

  lemma {:induction false} InsertKeepsOrder(d: seq<Edit>, x: Edit, a: Edit, b: Edit)
    requires Before(d, a, b)
    ensures Before(Insert(d, x, LaterFirst), a, b)
  {
    hide Before, Insert;
    BeforeInit(d, a, b);
    InsertUnfolds(d, x);
    var init, last := d[..|d| - 1], d[|d| - 1];
    if LaterFirst(last, x) <= 0 {
      BeforeAppend(d, x, a, b);
    } else if Before(init, a, b) {
      InsertKeepsOrder(init, x, a, b);
      BeforeAppend(Insert(init, x, LaterFirst), last, a, b);
    } else {
      InsertMultiset(init, x, LaterFirst);
      assert a in multiset(Insert(init, x, LaterFirst));
      BeforeLast(Insert(init, x, LaterFirst), last, a);
    }
  }

  lemma {:induction false} InsertedBehind(d: seq<Edit>, x: Edit, a: Edit)
    requires a in d && LaterFirst(a, x) <= 0
    ensures Before(Insert(d, x, LaterFirst), a, x)
  {
    hide Before, Insert;
    InsertUnfolds(d, x);
    var init, last := d[..|d| - 1], d[|d| - 1];
    if LaterFirst(last, x) <= 0 {
      BeforeLast(d, x, a);
    } else {
      assert a != last && d == init + [last];
      InsertedBehind(init, x, a);
      BeforeAppend(Insert(init, x, LaterFirst), last, a, x);
    }
  }

  lemma {:induction false} SortKeepsOrder(edits: seq<Edit>, i: nat, j: nat)
    requires i < j < |edits| && edits[i].start == edits[j].start
    ensures Before(Sort(edits, LaterFirst), edits[i], edits[j])
  {
    hide Insert, Before;
    var init, last := edits[..|edits| - 1], edits[|edits| - 1];
    if j < |edits| - 1 {
      SortKeepsOrder(init, i, j);
      InsertKeepsOrder(Sort(init, LaterFirst), last, edits[i], edits[j]);
    } else {
      LaterFirstIsLawful();
      SortIsSortedPermutation(init, LaterFirst);
      assert init[i] in multiset(Sort(init, LaterFirst));
      InsertedBehind(Sort(init, LaterFirst), last, edits[i]);
    }
  }

  // ---------- edits that change nothing ----------

  /** The edit replaces its range by what is there. */
  predicate Idle(source: string, e: Edit) {
    e.start <= e.end <= |source| && e.newText == source[e.start..e.end]
  }

  lemma AppliedNone(source: string, edits: seq<Edit>)
    requires edits == []
    ensures Applied(source, edits) == source
  {
  }

  lemma {:induction false} AppliedConcat(source: string, a: seq<Edit>, b: seq<Edit>)
    ensures Applied(source, a + b) == Applied(Applied(source, a), b)
  {
    hide Applied, Replace;
    if b == [] {
      assert a + b == a;
      AppliedNone(Applied(source, a), b);
    } else {
      var init, last := b[..|b| - 1], b[|b| - 1];
      AppliedConcat(source, a, init);
      assert a + b == (a + init) + [last] && b == init + [last];
      AppliedAppend(source, a + init, last);
      AppliedAppend(Applied(source, a), init, last);
    }
  }

  lemma ReplaceIdle(source: string, s: string, e: Edit)
    requires Idle(source, e) && e.end <= |s| && s[..e.end] == source[..e.end]
    ensures Replace(s, e) == s
  {
    assert s[e.start..e.end] == s[..e.end][e.start..] == source[..e.end][e.start..] == source[e.start..e.end];
    assert s == s[0..e.start] + s[e.start..e.end] + s[e.end..|s|];
  }

  /** Idle edits change nothing in a text that agrees with the source as far as they go. */
  lemma {:induction false} AppliedIdle(source: string, s: string, p: nat, b: seq<Edit>)
    requires p <= |s| && p <= |source| && s[..p] == source[..p]
    requires forall x :: x in b ==> Idle(source, x) && x.end <= p
    ensures Applied(s, b) == s
  {
    if b != [] {
      var init, last := b[..|b| - 1], b[|b| - 1];
      assert last in b;
      AppliedIdle(source, s, p, init);
      assert s[..last.end] == s[..p][..last.end];
      assert source[..last.end] == source[..p][..last.end];
      ReplaceIdle(source, s, last);
    }
  }

  lemma AppliedAllIdle(source: string, a: seq<Edit>)
    requires forall x :: x in a ==> Idle(source, x)
    ensures Applied(source, a) == source
  {
    AppliedIdle(source, source, |source|, a);
  }

  // ---------- one insertion and one replacement at its place ----------

  /** The texts chosen: the insertion's is as long as the replaced range, and not what is there; the others' are. */
  ghost predicate Setting(source: string, ins: Edit, r: Edit) {
    && Insertion(ins) && ins.start == r.start < r.end <= |source|
    && Idle(source, r) && |ins.newText| == r.end - r.start && ins.newText != r.newText
  }

  /** Any other edit is idle, and lies behind the place or ends before the replaced range begins. */
  ghost predicate Harmless(source: string, ins: Edit, r: Edit, x: Edit) {
    x == ins || x == r || (Idle(source, x) && (r.start < x.start || x.end <= r.start))
  }

  ghost predicate Shuffled(source: string, ins: Edit, r: Edit, d: seq<Edit>) {
    && Setting(source, ins, r)
    && Sorted(d, LaterFirst) && multiset(d)[ins] == 1 && multiset(d)[r] == 1
    && forall x :: x in d ==> Harmless(source, ins, r, x)
  }

  lemma OnceSplit(a: seq<Edit>, x: Edit, b: seq<Edit>)
    requires multiset(a + [x] + b)[x] == 1
    ensures x !in a && x !in b
  {
    assert multiset(a + [x] + b) == multiset(a) + multiset{x} + multiset(b);
    assert (x in a <==> x in multiset(a)) && (x in b <==> x in multiset(b));
  }

  lemma BeforeParts(d: seq<Edit>, a: Edit, b: Edit) returns (x: seq<Edit>, y: seq<Edit>, z: seq<Edit>)
    requires Before(d, a, b)
    ensures d == x + [a] + (y + [b] + z) && d == (x + [a] + y) + [b] + z && d == (x + [a]) + (y + [b] + z)
  {
    var m, n :| 0 <= m < n < |d| && d[m] == a && d[n] == b;
    x, y, z := d[..m], d[m + 1..n], d[n + 1..];
    assert d == x + [a] + y + [b] + z;
  }

  /** In front of the insertion everything is idle; behind it, the replacement apart, it also ends before the place. */
  lemma AroundInsertion(source: string, ins: Edit, r: Edit, x: seq<Edit>, z: seq<Edit>)
    requires Shuffled(source, ins, r, x + [ins] + z)
    ensures forall e :: e in x ==> Idle(source, e)
    ensures forall e :: e in z && e != r ==> Idle(source, e) && e.end <= r.start
  {
    var d := x + [ins] + z;
    OnceSplit(x, ins, z);
    forall e | e in x ensures Idle(source, e) { assert e in d && Harmless(source, ins, r, e); }
    forall e | e in z && e != r ensures Idle(source, e) && e.end <= r.start {
      var k :| 0 <= k < |z| && z[k] == e;
      assert d[|x|] == ins && d[|x| + 1 + k] == e && LaterFirst(d[|x|], d[|x| + 1 + k]) <= 0;
      assert Harmless(source, ins, r, e);
    }
  }

  lemma UpToInsertion(source: string, ins: Edit, x: seq<Edit>)
    requires Insertion(ins) && ins.start <= |source| && forall e :: e in x ==> Idle(source, e)
    ensures Applied(source, x + [ins]) == source[..ins.start] + ins.newText + source[ins.start..]
  {
    hide Applied;
    AppliedAllIdle(source, x);
    AppliedAppend(source, x, ins);
    assert source[0..ins.start] == source[..ins.start] && source[ins.start..|source|] == source[ins.start..];
  }

  /** With the replacement in front of the insertion both are kept. */
  lemma InsertionSecond(source: string, ins: Edit, r: Edit, d: seq<Edit>)
    requires Shuffled(source, ins, r, d) && Before(d, r, ins)
    ensures Applied(source, d) == source[..r.start] + ins.newText + source[r.start..]
  {
    hide Applied, Shuffled, Before, Idle;
    assert Setting(source, ins, r) && multiset(d)[r] == 1 by { SettingOf(source, ins, r, d); }
    var x, y, z := BeforeParts(d, r, ins);
    OnceSplit(x, r, y + [ins] + z);
    AroundInsertion(source, ins, r, x + [r] + y, z);
    UpToInsertion(source, ins, x + [r] + y);
    var base := source[..r.start] + ins.newText + source[r.start..];
    assert base[..r.start] == source[..r.start];
    AppliedIdle(source, base, r.start, z);
    AppliedConcat(source, x + [r] + y + [ins], z);
  }

  lemma SettingOf(source: string, ins: Edit, r: Edit, d: seq<Edit>)
    requires Shuffled(source, ins, r, d)
    ensures Setting(source, ins, r) && multiset(d)[r] == 1
  {
  }

  /** With the insertion in front the replacement takes the place of what was inserted. */
  lemma InsertionFirst(source: string, ins: Edit, r: Edit, d: seq<Edit>)
    requires Shuffled(source, ins, r, d) && Before(d, ins, r)
    ensures Applied(source, d) == source[..r.start] + r.newText + source[r.start..]
  {
    hide Applied, Shuffled, Before, Idle;
    assert Setting(source, ins, r) && multiset(d)[r] == 1 by { SettingOf(source, ins, r, d); }
    var x, y, z := BeforeParts(d, ins, r);
    OnceSplit(x + [ins] + y, r, z);
    AroundInsertion(source, ins, r, x, y + [r] + z);
    UpToInsertion(source, ins, x);
    CoveredAndLeft(source, ins, r, y, z);
    AppliedConcat(source, x + [ins], y + [r] + z);
  }

  lemma CoveredAndLeft(source: string, ins: Edit, r: Edit, y: seq<Edit>, z: seq<Edit>)
    requires Setting(source, ins, r)
    requires forall e :: e in y || e in z ==> Idle(source, e) && e.end <= r.start
    ensures Applied(source[..r.start] + ins.newText + source[r.start..], y + [r] + z) ==
      source[..r.start] + r.newText + source[r.start..]
  {
    hide Applied, Idle, Replace;
    var p := r.start;
    var base, covered := source[..p] + ins.newText + source[p..], source[..p] + r.newText + source[p..];
    assert base[..p] == source[..p] && covered[..p] == source[..p];
    AppliedIdle(source, base, p, y);
    InsertionIsCovered(source, ins, r);
    AppliedIdle(source, covered, p, z);
    AppliedAppend(base, y, r);
    AppliedConcat(base, y + [r], z);
  }

  lemma InsertionIsCovered(source: string, ins: Edit, r: Edit)
    requires Setting(source, ins, r)
    ensures Replace(source[..r.start] + ins.newText + source[r.start..], r) ==
      source[..r.start] + r.newText + source[r.start..]
  {
    var before, behind := source[..r.start], ins.newText + source[r.start..];
    assert source[..r.start] + ins.newText + source[r.start..] == before + behind;
    ReplaceWithin(before, behind, r);
    assert behind[r.end - r.start..] == source[r.start..];
  }

  lemma TextsDiffer(source: string, ins: Edit, r: Edit)
    requires Setting(source, ins, r)
    ensures source[..r.start] + ins.newText + source[r.start..] != source[..r.start] + r.newText + source[r.start..]
  {
    var p := r.start;
    var x, y := source[..p] + ins.newText + source[p..], source[..p] + r.newText + source[p..];
    assert x[p..r.end] == ins.newText && y[p..r.end] == r.newText;
  }

  // ---------- main result ----------

  /** Texts under which the order of these two shows. */
  function Texts(source: string, edits: seq<Edit>, i: nat, inserted: string): seq<Edit> {
    seq(|edits|, k requires 0 <= k < |edits| =>
      if k == i then edits[k].(newText := inserted)
      else if edits[k].start <= edits[k].end <= |source| then edits[k].(newText := source[edits[k].start..edits[k].end])
      else edits[k])
  }

  /** A text of this length that is not this one. */
  function Another(text: string): (r: string)
    requires text != ""
    ensures |r| == |text| && r != text
  {
    (if text[0] == 'a' then "b" else "a") + text[1..]
  }

  lemma OnceIn(edits: seq<Edit>, i: nat)
    requires i < |edits| && forall k :: 0 <= k < |edits| && k != i ==> edits[k] != edits[i]
    ensures multiset(edits)[edits[i]] == 1
  {
    var a, b := edits[..i], edits[i + 1..];
    assert edits == a + [edits[i]] + b;
    assert edits[i] !in a && edits[i] !in b;
    assert multiset(edits) == multiset(a) + multiset{edits[i]} + multiset(b);
    assert edits[i] !in multiset(a) && edits[i] !in multiset(b);
  }

  lemma SameRangesSame(edits: seq<Edit>, other: seq<Edit>)
    requires SameRanges(other, edits) && AlmostSeparate(edits)
    ensures AlmostSeparate(other)
  {
    forall i, j | 0 <= i < j < |other| ensures AlmostInTurn(other[i], other[j]) {
      assert AlmostInTurn(edits[i], edits[j]);
    }
  }

  /** Every edit but the two is harmless, and neither of the two is given twice. */
  lemma OthersAreHarmless(source: string, edits: seq<Edit>, i: nat, j: nat, k: nat)
    requires AlmostSeparate(edits) && i < j < |edits| && Setting(source, edits[i], edits[j])
    requires k < |edits| && k != i && k != j && Idle(source, edits[k])
    ensures Harmless(source, edits[i], edits[j], edits[k]) && edits[k] != edits[i] && edits[k] != edits[j]
  {
    assert AlmostInTurn(edits[i], edits[j]);
    if k < i { assert AlmostInTurn(edits[k], edits[i]); } else { assert AlmostInTurn(edits[i], edits[k]); }
    if k < j { assert AlmostInTurn(edits[k], edits[j]); } else { assert AlmostInTurn(edits[j], edits[k]); }
  }

  /** Any list of the edits, sorted. */
  lemma SortIsShuffled(source: string, edits: seq<Edit>, i: nat, j: nat, d: seq<Edit>)
    requires AlmostSeparate(edits) && i < j < |edits| && Setting(source, edits[i], edits[j])
    requires forall k :: 0 <= k < |edits| && k != i ==> Idle(source, edits[k])
    requires multiset(d) == multiset(edits)
    ensures Shuffled(source, edits[i], edits[j], Sort(d, LaterFirst))
  {
    hide Harmless, AlmostSeparate, Idle;
    var ins, r, sorted := edits[i], edits[j], Sort(d, LaterFirst);
    assert ins != r;
    forall k | 0 <= k < |edits| && k != i && k != j
      ensures Harmless(source, ins, r, edits[k]) && edits[k] != ins && edits[k] != r {
      OthersAreHarmless(source, edits, i, j, k);
    }
    OnceIn(edits, i);
    OnceIn(edits, j);
    LaterFirstIsLawful();
    SortIsSortedPermutation(d, LaterFirst);
    forall x | x in sorted ensures Harmless(source, ins, r, x) {
      assert x in multiset(edits);
      var k :| 0 <= k < |edits| && edits[k] == x;
      TheTwo(source, ins, r);
    }
  }

  lemma TheTwo(source: string, ins: Edit, r: Edit)
    ensures Harmless(source, ins, r, ins) && Harmless(source, ins, r, r)
  {
  }

  /** In the order given the replacement comes second, with the insertions given last it comes first. */
  lemma OrderShows(source: string, edits: seq<Edit>, i: nat, j: nat)
    requires AlmostSeparate(edits) && i < j < |edits| && Setting(source, edits[i], edits[j])
    requires forall k :: 0 <= k < |edits| && k != i ==> Idle(source, edits[k])
    ensures Applied(source, Sort(edits, LaterFirst)) != Applied(source, Sort(InsertionsLast(edits), LaterFirst))
  {
    hide Sort, Applied, AlmostSeparate, Idle, Shuffled, Before, InsertionsLast;
    var ins, r := edits[i], edits[j];
    SortKeepsOrder(edits, i, j);
    SortIsShuffled(source, edits, i, j, edits);
    InsertionFirst(source, ins, r, Sort(edits, LaterFirst));
    InsertionsLastMultiset(edits);
    SortIsShuffled(source, edits, i, j, InsertionsLast(edits));
    InsertionComesLast(edits, i, j);
    InsertionSecond(source, ins, r, Sort(InsertionsLast(edits), LaterFirst));
    TextsDiffer(source, ins, r);
  }

  lemma {:induction false} OnlyHas(edits: seq<Edit>, i: nat)
    requires i < |edits|
    ensures edits[i] in Only(edits, Insertion(edits[i]))
  {
    if i < |edits| - 1 { OnlyHas(edits[..|edits| - 1], i); }
  }

  lemma InsertionComesLast(edits: seq<Edit>, i: nat, j: nat)
    requires i < |edits| && j < |edits| && edits[i].start == edits[j].start && Insertion(edits[i])
    requires !Insertion(edits[j])
    ensures Before(Sort(InsertionsLast(edits), LaterFirst), edits[j], edits[i])
  {
    hide Sort, Only, Before;
    OnlyHas(edits, i);
    OnlyHas(edits, j);
    var a, b := Only(edits, false), Only(edits, true);
    var m :| 0 <= m < |a| && a[m] == edits[j];
    var n :| 0 <= n < |b| && b[n] == edits[i];
    assert (a + b)[m] == edits[j] && (a + b)[|a| + n] == edits[i];
    SortKeepsOrder(a + b, m, |a| + n);
  }

  /** Replacing all the ranges at once is possible, and the loop gives something else. */
  ghost predicate LoopDiffers(source: string, edits: seq<Edit>) {
    var allAtOnce := Reverse(Sort(InsertionsLast(edits), LaterFirst));
    && multiset(InsertionsLast(edits)) == multiset(edits)
    && InOrder(source, 0, allAtOnce)
    && Applied(source, Sort(edits, LaterFirst)) != Weave(source, 0, allAtOnce)
  }

  lemma WeaveOfAll(source: string, edits: seq<Edit>)
    requires AlmostSeparate(edits) && Valid(source, edits)
    ensures var allAtOnce := Reverse(Sort(InsertionsLast(edits), LaterFirst));
      && multiset(InsertionsLast(edits)) == multiset(edits)
      && InOrder(source, 0, allAtOnce)
      && Applied(source, Sort(InsertionsLast(edits), LaterFirst)) == Weave(source, 0, allAtOnce)
  {
    hide Sort, Applied, Weave, InOrder, InsertionsLast, AlmostSeparate, Separate;
    InsertionsLastMultiset(edits);
    InsertionsLastAreSeparate(edits);
    forall e | e in InsertionsLast(edits) ensures e in edits { assert e in multiset(edits); }
    SortBackward(source, InsertionsLast(edits));
    AppliedIsWeave(source, Sort(InsertionsLast(edits), LaterFirst));
  }

  lemma ChosenTexts(source: string, edits: seq<Edit>, i: nat, j: nat)
    requires Valid(source, edits) && i < |edits| && j < |edits| && i != j
    requires Insertion(edits[i]) && edits[i].start == edits[j].start && !Insertion(edits[j])
    ensures edits[j].start < edits[j].end <= |source|
    ensures var other := Texts(source, edits, i, Another(source[edits[j].start..edits[j].end]));
      && SameRanges(other, edits) && Valid(source, other) && Setting(source, other[i], other[j])
      && forall k :: 0 <= k < |other| && k != i ==> Idle(source, other[k])
  {
    assert forall k :: 0 <= k < |edits| ==> edits[k] in edits;
  }

  ghost predicate TiesKept(edits: seq<Edit>, x: Edit) {
    Tied(Only(edits, false), x, LaterFirst) + Tied(Only(edits, true), x, LaterFirst) == Tied(edits, x, LaterFirst)
  }

  lemma TiesSnoc(init: seq<Edit>, last: Edit, x: Edit)
    requires TiesKept(init, x)
    requires !Insertion(last) && last.start == x.start ==> Tied(Only(init, true), x, LaterFirst) == []
    ensures TiesKept(init + [last], x)
  {
    hide Only, Tied;
    OnlySnoc(init, last);
    TiedAppend(init, last, x, LaterFirst);
    TiedAppend(Only(init, Insertion(last)), last, x, LaterFirst);
    var a, b := Tied(Only(init, false), x, LaterFirst), Tied(Only(init, true), x, LaterFirst);
    var t := if LaterFirst(last, x) == 0 then [last] else [];
    if Insertion(last) { AppendedLast(a, b, t); } else { AppendedFirst(a, b, t); }
  }

  lemma NoTies(edits: seq<Edit>, x: Edit)
    requires edits == []
    ensures TiesKept(edits, x)
  {
  }

  lemma {:induction false} TiesInTurn(edits: seq<Edit>, x: Edit)
    requires Separate(edits)
    ensures TiesKept(edits, x)
  {
    hide Only, Tied, Separate, TiesKept;
    if edits == [] {
      NoTies(edits, x);
    } else {
      var init, last := edits[..|edits| - 1], edits[|edits| - 1];
      SeparateInit(edits);
      TiesInTurn(init, x);
      if !Insertion(last) && last.start == x.start { NoInsertionBefore(edits, x); }
      TiesSnoc(init, last, x);
      assert edits == init + [last];
    }
  }

  lemma AppendedLast(a: seq<Edit>, b: seq<Edit>, t: seq<Edit>)
    ensures a + (b + t) == (a + b) + t
  {
  }

  lemma AppendedFirst(a: seq<Edit>, b: seq<Edit>, t: seq<Edit>)
    requires t == [] || b == []
    ensures (a + t) + b == (a + b) + t
  {
  }

  lemma SeparateInit(edits: seq<Edit>)
    requires Separate(edits) && edits != []
    ensures Separate(edits[..|edits| - 1])
  {
  }

  lemma NoInsertionBefore(edits: seq<Edit>, x: Edit)
    requires Separate(edits) && edits != [] && !Insertion(edits[|edits| - 1]) && edits[|edits| - 1].start == x.start
    ensures Tied(Only(edits[..|edits| - 1], true), x, LaterFirst) == []
  {
    var init := edits[..|edits| - 1];
    var insertions := Only(init, true);
    hide Only, Tied;
    OnlyMembers(init, true);
    forall y | y in insertions ensures LaterFirst(y, x) != 0 {
      var k :| 0 <= k < |init| && init[k] == y;
      assert InTurn(edits[k], edits[|edits| - 1]);
    }
    TiedNone(insertions, x);
  }

  lemma {:induction false} TiedNone(s: seq<Edit>, x: Edit)
    requires forall y :: y in s ==> LaterFirst(y, x) != 0
    ensures Tied(s, x, LaterFirst) == []
  {
    if s != [] { TiedNone(s[..|s| - 1], x); }
  }

  lemma {:induction false} TiedConcat(a: seq<Edit>, b: seq<Edit>, x: Edit)
    ensures Tied(a + b, x, LaterFirst) == Tied(a, x, LaterFirst) + Tied(b, x, LaterFirst)
  {
    if b == [] {
      assert a + b == a;
    } else {
      hide Tied;
      var init, last := b[..|b| - 1], b[|b| - 1];
      TiedConcat(a, init, x);
      assert a + b == (a + init) + [last] && b == init + [last];
      TiedAppend(a + init, last, x, LaterFirst);
      TiedAppend(init, last, x, LaterFirst);
      AppendedLast(Tied(a, x, LaterFirst), Tied(init, x, LaterFirst), if LaterFirst(last, x) == 0 then [last] else []);
    }
  }

  /** Separate edits are sorted alike however the insertions are given. */
  lemma SortInsertionsLast(edits: seq<Edit>)
    requires Separate(edits)
    ensures Sort(InsertionsLast(edits), LaterFirst) == Sort(edits, LaterFirst)
  {
    hide Sort, Tied, Sorted, Only, Separate;
    LaterFirstIsLawful();
    var last := InsertionsLast(edits);
    SortIsSortedPermutation(last, LaterFirst);
    forall x ensures Tied(Sort(last, LaterFirst), x, LaterFirst) == Tied(edits, x, LaterFirst) {
      SortKeepsTies(last, x, LaterFirst);
      TiedConcat(Only(edits, false), Only(edits, true), x);
      TiesInTurn(edits, x);
    }
    StableSortIsUnique(edits, Sort(last, LaterFirst), LaterFirst);
  }

  lemma SeparateLikeRanges(edits: seq<Edit>, other: seq<Edit>)
    requires SameRanges(other, edits) && Separate(edits)
    ensures Separate(other)
  {
    forall i, j | 0 <= i < j < |other| ensures InTurn(other[i], other[j]) {
      assert InTurn(edits[i], edits[j]);
    }
  }

  lemma LoopIsRight(source: string, edits: seq<Edit>)
    requires Separate(edits) && Valid(source, edits)
    ensures !LoopDiffers(source, edits)
  {
    hide Sort, Applied, Weave, InOrder, InsertionsLast, Separate, AlmostSeparate;
    SortInsertionsLast(edits);
    SeparateIsAlmost(edits);
    WeaveOfAll(source, edits);
  }

  lemma ValidLikeRanges(source: string, edits: seq<Edit>, other: seq<Edit>)
    requires SameRanges(other, edits) && Valid(source, edits)
    ensures Valid(source, other)
  {
    forall e | e in other ensures e.start <= e.end <= |source| {
      var k :| 0 <= k < |other| && other[k] == e;
      assert edits[k] in edits;
    }
  }

  lemma SeparateIsAlmost(edits: seq<Edit>)
    requires Separate(edits)
    ensures AlmostSeparate(edits)
  {
    forall i, j | 0 <= i < j < |edits| ensures AlmostInTurn(edits[i], edits[j]) {
      assert InTurn(edits[i], edits[j]);
    }
  }

  lemma LoopGoesWrong(source: string, edits: seq<Edit>)
    requires Valid(source, edits) && AlmostSeparate(edits) && !Separate(edits)
    ensures exists other :: SameRanges(other, edits) && LoopDiffers(source, other)
  {
    hide Texts, AlmostSeparate, Sort, Applied, Weave, InOrder, InsertionsLast, Valid;
    var i, j :| 0 <= i < j < |edits| && !InTurn(edits[i], edits[j]);
    OnlyInsertionFirst(edits, i, j);
    ChosenTexts(source, edits, i, j);
    var other := Texts(source, edits, i, Another(source[edits[j].start..edits[j].end]));
    SameRangesSame(edits, other);
    OrderShows(source, other, i, j);
    WeaveOfAll(source, other);
  }

  lemma OnlyInsertionFirst(edits: seq<Edit>, i: nat, j: nat)
    requires AlmostSeparate(edits) && i < j < |edits| && !InTurn(edits[i], edits[j])
    ensures Insertion(edits[i]) && edits[i].start == edits[j].start && !Insertion(edits[j])
  {
    assert AlmostInTurn(edits[i], edits[j]);
  }

  /** Of edits that fail to be separate at most because an insertion is given before a replacement at its place: they
      are separate exactly when, whatever their texts, the loop gives what replacing all the ranges at once gives. */
  lemma SeparateIsNeeded(source: string, edits: seq<Edit>)
    requires Valid(source, edits) && AlmostSeparate(edits)
    ensures Separate(edits) <==> forall other :: SameRanges(other, edits) ==> !LoopDiffers(source, other)
  {
    hide Separate, SameRanges, LoopDiffers, AlmostSeparate, Valid;
    if Separate(edits) {
      forall other | SameRanges(other, edits) ensures !LoopDiffers(source, other) {
        SeparateLikeRanges(edits, other);
        ValidLikeRanges(source, edits, other);
        LoopIsRight(source, other);
      }
    } else {
      LoopGoesWrong(source, edits);
    }
  }
}

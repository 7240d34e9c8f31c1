/** Merging the configuration sections (packages/vscode-typescript/src/configurationMiddleware.ts). */
module ConfigMerge {
  import opened Options

  /** A JSON value by its own keys; an array holds its elements under their indices. An object or array with
      `loop` also holds itself, under "enabled": resolving the aliases can make such. */
  datatype Json =
    | Null | Scalar(text: string)
    | Array(own: map<string, Json>, loop: bool) | Object(own: map<string, Json>, loop: bool)

  type Settings = o: Json | o.Object? witness Object(map[], false)

  /** Settings as they are read: without loops. */
  type Tree = o: Json | o.Object? && LoopFree(o) ghost witness Object(map[], false)

  /** A dotted key, split at its dots. */
  type Path = seq<string>

  const EMPTY: Settings := Object(map[], false)

  const LOOP_KEY := "enabled"

  /** What typeof calls an object, null apart. */
  predicate Holder(o: Json) {
    o.Array? || o.Object?
  }

  function Members(o: Json): map<string, Json>
    requires Holder(o)
  {
    if o.loop then o.own[LOOP_KEY := o] else o.own
  }

  ghost predicate LoopFree(o: Json) {
    Holder(o) ==> !o.loop && forall k :: k in o.own ==> LoopFree(o.own[k])
  }

  predicate PrototypeKey(k: string) {
    k == "__proto__" || k == "constructor" || k == "prototype"
  }

  predicate Plain(p: Path) {
    forall k :: k in p ==> !PrototypeKey(k)
  }

  // ---------- the three operations ----------

  function Get(o: Json, p: Path): Option<Json>
    decreases |p|
  {
    if p == [] then Some(o)
    else if PrototypeKey(p[0]) || !Holder(o) || p[0] !in Members(o) then None
    else Get(Members(o)[p[0]], p[1..])
  }

  /** What setNestedValue leaves of a holder: missing steps and plain values become objects, and a
      prototype key ends the walk. A walk around a loop comes back to the holder itself. */
  function Set(o: Json, p: Path, v: Json): (r: Json)
    requires Holder(o) && p != []
    ensures Holder(r) && (r.Object? <==> o.Object?) && (r.loop ==> o.loop)
    decreases |p|
  {
    if PrototypeKey(p[0]) then o
    else if |p| == 1 then o.(own := o.own[p[0] := v], loop := o.loop && p[0] != LOOP_KEY)
    else if o.loop && p[0] == LOOP_KEY then Set(o, p[1..], v)
    else o.(own := o.own[p[0] := Set(Child(o, p[0]), p[1..], v)])
  }

  function Child(o: Json, k: string): (r: Json)
    requires Holder(o)
    ensures Holder(r)
  {
    if k in o.own && Holder(o.own[k]) then o.own[k] else EMPTY
  }

  /** deepMerge calls itself without end: along common keys both come to objects that hold themselves. */
  ghost predicate Endless(a: Settings, b: Settings)
    decreases a, b, 1
  {
    (a.loop && b.loop) || exists k :: EndlessAt(a, b, k)
  }

  ghost predicate EndlessAt(a: Settings, b: Settings, k: string)
    decreases a, b, 0
  {
    && !(a.loop && b.loop) && BothObjects(a, b, k)
    && Endless(Members(a)[k], Members(b)[k])
  }

  predicate BothObjects(a: Settings, b: Settings, k: string) {
    k in Members(a) && k in Members(b) && !PrototypeKey(k) && Members(a)[k].Object? && Members(b)[k].Object?
  }

  function Merge(a: Settings, b: Settings): Settings
    requires !Endless(a, b)
    decreases a, b
  {
    Object(map k | k in Members(a).Keys + Members(b).Keys && (k in Members(a) || !PrototypeKey(k)) ::
      if k !in Members(b) || PrototypeKey(k) then Members(a)[k]
      else if BothObjects(a, b, k) then (assert !EndlessAt(a, b, k); Merge(Members(a)[k], Members(b)[k]))
      else Members(b)[k],
      false)
  }

  // ---------- loops ----------

  /** On the way along p is a holder that holds itself. */
  predicate LoopOn(o: Json, p: Path)
    decreases |p|
  {
    p != [] && Holder(o) && (o.loop || (p[0] in o.own && LoopOn(o.own[p[0]], p[1..])))
  }

  lemma {:induction false} NoLoopOn(o: Json, p: Path)
    requires LoopFree(o)
    ensures !LoopOn(o, p)
    decreases |p|
  {
    if p != [] && Holder(o) && p[0] in o.own { NoLoopOn(o.own[p[0]], p[1..]); }
  }

  lemma {:induction false} NotEndless(a: Settings, b: Settings)
    requires LoopFree(a) || LoopFree(b)
    ensures !Endless(a, b)
    decreases a, b
  {
    forall k ensures !EndlessAt(a, b, k) {
      if !(a.loop && b.loop) && BothObjects(a, b, k) { NotEndless(Members(a)[k], Members(b)[k]); }
    }
  }

  lemma {:induction false} MergeLoopFree(a: Settings, b: Settings)
    requires LoopFree(a) && LoopFree(b)
    ensures !Endless(a, b) && LoopFree(Merge(a, b))
    decreases a, b
  {
    NotEndless(a, b);
    forall k | k in Merge(a, b).own ensures LoopFree(Merge(a, b).own[k]) {
      if BothObjects(a, b, k) { MergeLoopFree(a.own[k], b.own[k]); }
    }
  }

  lemma {:induction false} GetLoopFree(o: Json, p: Path)
    requires LoopFree(o)
    ensures Get(o, p).Some? ==> LoopFree(Get(o, p).value)
    decreases |p|
  {
    if p != [] && Get(o, p).Some? { GetLoopFree(o.own[p[0]], p[1..]); }
  }

  lemma {:induction false} SetLoopFree(o: Json, p: Path, v: Json)
    requires Holder(o) && p != [] && LoopFree(o) && LoopFree(v)
    ensures LoopFree(Set(o, p, v))
    decreases |p|
  {
    if |p| > 1 { SetLoopFree(Child(o, p[0]), p[1..], v); }
  }

  // ---------- get after set ----------

  /** A value that was set is found again where no loop is in the way, unless a step is a prototype key: then
      nothing is ever found. */
  lemma {:induction false} GetAfterSet(o: Json, p: Path, v: Json)
    requires Holder(o) && p != [] && !LoopOn(o, p)
    ensures Get(Set(o, p, v), p) == if Plain(p) then Some(v) else None
    decreases |p|
  {
    assert p == [p[0]] + p[1..];
    if !PrototypeKey(p[0]) && |p| > 1 {
      GetAfterSet(Child(o, p[0]), p[1..], v);
    }
  }

  /** Neither path leads through the other. */
  predicate Incomparable(p: Path, q: Path)
    decreases |p|
  {
    p != [] && q != [] && (p[0] != q[0] || Incomparable(p[1..], q[1..]))
  }

  /** Setting a value changes nothing anywhere off its path. */
  lemma {:induction false} SetElsewhere(o: Json, p: Path, v: Json, q: Path)
    requires Holder(o) && Incomparable(p, q) && !LoopOn(o, p)
    ensures Get(Set(o, p, v), q) == Get(o, q)
    decreases |p|
  {
    if !PrototypeKey(p[0]) && |p| > 1 && p[0] == q[0] {
      SetElsewhere(Child(o, p[0]), p[1..], v, q[1..]);
    }
  }

  // ---------- what a merge contains ----------

  /** A proper prefix of p, not empty, holds a value that is not an object. */
  predicate Obstructed(o: Json, p: Path)
    decreases |p|
  {
    |p| > 1 && o.Object? && p[0] in Members(o) && !PrototypeKey(p[0]) &&
    (!Members(o)[p[0]].Object? || Obstructed(Members(o)[p[0]], p[1..]))
  }

  /** On the way to p, b replaces what a has: both have a value, not both an object. */
  predicate Replaced(a: Settings, b: Settings, p: Path)
    decreases |p|
  {
    |p| > 1 && p[0] in Members(a) && p[0] in Members(b) && !PrototypeKey(p[0]) &&
    (!Members(a)[p[0]].Object? || !Members(b)[p[0]].Object? || Replaced(Members(a)[p[0]], Members(b)[p[0]], p[1..]))
  }

  lemma MergeAt(a: Settings, b: Settings, k: string)
    requires !Endless(a, b)
    ensures !Merge(a, b).loop
    ensures k in Members(Merge(a, b)) <==> k in Members(a) || (k in Members(b) && !PrototypeKey(k))
    ensures k in Members(a) && (k !in Members(b) || PrototypeKey(k)) ==> Members(Merge(a, b))[k] == Members(a)[k]
    ensures k in Members(b) && !PrototypeKey(k) && !BothObjects(a, b, k) ==> Members(Merge(a, b))[k] == Members(b)[k]
    ensures BothObjects(a, b, k) ==>
      !Endless(Members(a)[k], Members(b)[k]) && Members(Merge(a, b))[k] == Merge(Members(a)[k], Members(b)[k])
  {
    assert !EndlessAt(a, b, k);
  }

  /** A merge at any path: b decides where it has a value or replaces the way there, two objects are merged,
      and a fills in the rest. */
  lemma {:induction false} GetMerge(a: Settings, b: Settings, p: Path)
    requires p != [] && !Endless(a, b)
    ensures var x, y, z := Get(a, p), Get(b, p), Get(Merge(a, b), p);
      if Replaced(a, b, p) then z == y
      else if y.None? then z == x
      else if x.Some? && x.value.Object? && y.value.Object? then
        !Endless(x.value, y.value) && z == Some(Merge(x.value, y.value))
      else z == y
    decreases |p|
  {
    var k := p[0];
    hide Merge, Endless, Members;
    MergeAt(a, b, k);
    if !PrototypeKey(k) {
      if |p| == 1 {
        assert p[1..] == [];
      } else if BothObjects(a, b, k) {
        GetMerge(Members(a)[k], Members(b)[k], p[1..]);
      }
    }
  }

  lemma {:induction false} FreeOfReplacement(a: Settings, b: Settings, p: Path)
    requires !Obstructed(a, p) && !Obstructed(b, p)
    ensures !Replaced(a, b, p)
    decreases |p|
  {
    if Replaced(a, b, p) && Members(a)[p[0]].Object? && Members(b)[p[0]].Object? {
      FreeOfReplacement(Members(a)[p[0]], Members(b)[p[0]], p[1..]);
    }
  }

  lemma {:induction false} ObstructedMerge(a: Settings, b: Settings, p: Path)
    requires !Obstructed(a, p) && !Obstructed(b, p) && !Endless(a, b)
    ensures !Obstructed(Merge(a, b), p)
    decreases |p|
  {
    if |p| > 1 { MergeAt(a, b, p[0]); }
    hide Merge, Endless, Members;
    if |p| > 1 && !PrototypeKey(p[0]) && p[0] in Members(a) && p[0] in Members(b) {
      ObstructedMerge(Members(a)[p[0]], Members(b)[p[0]], p[1..]);
    }
  }

  // ---------- precedence ----------

  /** p is a leaf path: it holds no object there and only objects on the way. */
  ghost predicate LeafPath(o: Settings, p: Path) {
    !Obstructed(o, p) && (Get(o, p).Some? ==> !Get(o, p).value.Object?)
  }

  ghost predicate LeafPathOfAll(parts: seq<Settings>, p: Path) {
    forall o :: o in parts ==> LeafPath(o, p)
  }

  function Or(x: Option<Json>, y: Option<Json>): Option<Json> {
    if x.Some? then x else y
  }

  /** The sections folded from the front, highest precedence last. */
  function Fold(sections: seq<Settings>): Settings
    requires FoldEnds(sections)
    decreases |sections|, 1
  {
    if sections == [] then EMPTY
    else Merge(Fold(sections[..|sections| - 1]), sections[|sections| - 1])
  }

  /** Every merge on the way ends. */
  ghost predicate FoldEnds(sections: seq<Settings>)
    decreases |sections|, 0
  {
    sections != [] ==>
      FoldEnds(sections[..|sections| - 1]) && !Endless(Fold(sections[..|sections| - 1]), sections[|sections| - 1])
  }

  /** The first value, looking from the last section back. */
  function FirstDefined(sections: seq<Settings>, p: Path): Option<Json> {
    if sections == [] then None
    else Or(Get(sections[|sections| - 1], p), FirstDefined(sections[..|sections| - 1], p))
  }

  lemma {:induction false} FoldTakesFirst(sections: seq<Settings>, p: Path)
    requires p != [] && LeafPathOfAll(sections, p) && FoldEnds(sections)
    ensures LeafPath(Fold(sections), p)
    ensures Get(Fold(sections), p) == FirstDefined(sections, p)
  {
    if sections != [] {
      hide Merge, Endless, Members;
      var init, last := sections[..|sections| - 1], sections[|sections| - 1];
      assert last in sections && LeafPathOfAll(init, p);
      FoldTakesFirst(init, p);
      FreeOfReplacement(Fold(init), last, p);
      GetMerge(Fold(init), last, p);
      ObstructedMerge(Fold(init), last, p);
    }
  }

  // ---------- associativity ----------

  /** Settings without loops are merged into such. */
  function MergeTrees(a: Tree, b: Tree): Tree {
    MergeLoopFree(a, b);
    Merge(a, b)
  }

  predicate SameAt(x: Tree, y: Tree, k: string) {
    (k in x.own <==> k in y.own) && (k in x.own ==> x.own[k] == y.own[k])
  }

  /** Merging y over x leaves nothing of x to be seen. */
  ghost predicate Covered(x: Tree, y: Tree)
    decreases y
  {
    forall k :: CoveredAt(x, y, k)
  }

  ghost predicate CoveredAt(x: Tree, y: Tree, k: string)
    decreases y, 0
  {
    if PrototypeKey(k) then SameAt(x, y, k)
    else k in x.own ==>
      k in y.own && (x.own[k].Object? && y.own[k].Object? ==> Covered(x.own[k], y.own[k]))
  }

  /** Where b puts a plain value between an object of a and an object of c, a's object is covered by c's. */
  ghost predicate NoClash(a: Tree, b: Tree, c: Tree)
    decreases c
  {
    forall k :: NoClashAt(a, b, c, k)
  }

  ghost predicate NoClashAt(a: Tree, b: Tree, c: Tree, k: string)
    decreases c, 0
  {
    if !PrototypeKey(k) && k in a.own && k in b.own && k in c.own
       && a.own[k].Object? && c.own[k].Object? then
      if b.own[k].Object? then NoClash(a.own[k], b.own[k], c.own[k])
      else Covered(a.own[k], c.own[k])
    else true
  }

  lemma SameByKey(x: Tree, y: Tree)
    ensures x == y <==> forall k :: SameAt(x, y, k)
  {
    if forall k :: SameAt(x, y, k) {
      assert forall k :: k in x.own ==> SameAt(x, y, k);
      assert forall k :: k in y.own ==> SameAt(x, y, k);
      assert x.own == y.own;
    }
  }

  lemma MergeTreesAt(a: Tree, b: Tree, k: string)
    ensures k in MergeTrees(a, b).own <==> k in a.own || (k in b.own && !PrototypeKey(k))
    ensures k in a.own && (k !in b.own || PrototypeKey(k)) ==> MergeTrees(a, b).own[k] == a.own[k]
    ensures k in b.own && !PrototypeKey(k) && !(k in a.own && a.own[k].Object? && b.own[k].Object?) ==>
      MergeTrees(a, b).own[k] == b.own[k]
    ensures k in a.own && k in b.own && !PrototypeKey(k) && a.own[k].Object? && b.own[k].Object? ==>
      MergeTrees(a, b).own[k] == MergeTrees(a.own[k], b.own[k])
  {
    NotEndless(a, b);
    MergeAt(a, b, k);
  }

  lemma {:induction false} CoveredAddsNothing(x: Tree, y: Tree)
    ensures MergeTrees(x, y) == y <==> Covered(x, y)
    decreases y
  {
    hide MergeTrees;
    forall k ensures SameAt(MergeTrees(x, y), y, k) <==> CoveredAt(x, y, k) {
      MergeTreesAt(x, y, k);
      if k in x.own && k in y.own && x.own[k].Object? && y.own[k].Object? {
        CoveredAddsNothing(x.own[k], y.own[k]);
      }
    }
    SameByKey(MergeTrees(x, y), y);
    if MergeTrees(x, y) == y {
      forall k ensures CoveredAt(x, y, k) { assert SameAt(MergeTrees(x, y), y, k); }
    }
  }

  /** Merging is associative exactly when no plain value separates objects that would still contribute. */
  lemma {:induction false} MergeAssociative(a: Tree, b: Tree, c: Tree)
    ensures MergeTrees(MergeTrees(a, b), c) == MergeTrees(a, MergeTrees(b, c)) <==> NoClash(a, b, c)
    decreases c
  {
    hide MergeTrees;
    var left, right := MergeTrees(MergeTrees(a, b), c), MergeTrees(a, MergeTrees(b, c));
    forall k ensures SameAt(left, right, k) <==> NoClashAt(a, b, c, k) {
      AssociativeKey(a, b, c, k);
    }
    SameByKey(left, right);
    if left == right {
      forall k ensures NoClashAt(a, b, c, k) { assert SameAt(left, right, k); }
    }
  }

  lemma {:induction false} AssociativeKey(a: Tree, b: Tree, c: Tree, k: string)
    ensures SameAt(MergeTrees(MergeTrees(a, b), c), MergeTrees(a, MergeTrees(b, c)), k) <==> NoClashAt(a, b, c, k)
    decreases c, 0
  {
    hide MergeTrees;
    MergeTreesAt(a, b, k);
    MergeTreesAt(b, c, k);
    MergeTreesAt(MergeTrees(a, b), c, k);
    MergeTreesAt(a, MergeTrees(b, c), k);
    if k in c.own && c.own[k].Object? && k in a.own && a.own[k].Object? && k in b.own {
      if b.own[k].Object? {
        MergeAssociative(a.own[k], b.own[k], c.own[k]);
      } else {
        CoveredAddsNothing(a.own[k], c.own[k]);
      }
    }
  }

  // ---------- aliases ----------

  const ALIASES: seq<(Path, Path)> := [
    (["validate", "enabled"], ["validate", "enable"]),
    (["format", "enabled"], ["format", "enable"]),
    (["autoClosingTags", "enabled"], ["autoClosingTags"]),
    (["suggest", "jsdoc", "enabled"], ["suggest", "completeJSDocs"])]

  /** The fallback's value is stored under the preferred key when that has none. If the walk there leads through
      the value itself, it is stored in itself. */
  function ApplyAlias(o: Settings, preferred: Path, fallback: Path): (r: Settings)
    requires preferred != [] && fallback != []
    ensures r.loop ==> o.loop
  {
    if Get(o, preferred).None? && Get(o, fallback).Some? then
      var v := Get(o, fallback).value;
      if Holder(v) && preferred == fallback + [LOOP_KEY] then Set(o, fallback, v.(loop := true))
      else Set(o, preferred, v)
    else o
  }

  function ApplyAliases(o: Settings, n: nat): (r: Settings)
    requires n <= |ALIASES|
    ensures r.loop ==> o.loop
  {
    if n == 0 then o else ApplyAlias(ApplyAliases(o, n - 1), ALIASES[n - 1].0, ALIASES[n - 1].1)
  }

  /** What is seen under a first key does not depend on settings under other first keys. */
  lemma OtherFirstKey(o: Settings, p: Path, v: Json, q: Path)
    requires p != [] && q != [] && p[0] != q[0] && !o.loop
    ensures Get(Set(o, p, v), q) == Get(o, q)
    ensures Obstructed(Set(o, p, v), q) <==> Obstructed(o, q)
    ensures LoopOn(Set(o, p, v), q) <==> LoopOn(o, q)
  {
  }

  lemma OtherAlias(o: Settings, preferred: Path, fallback: Path, q: Path)
    requires preferred != [] && fallback != [] && preferred[0] == fallback[0] && q != []
    requires preferred[0] != q[0] && !o.loop
    ensures Get(ApplyAlias(o, preferred, fallback), q) == Get(o, q)
    ensures LoopOn(ApplyAlias(o, preferred, fallback), q) <==> LoopOn(o, q)
  {
    hide Get, Set, Obstructed, LoopOn;
    if Get(o, fallback).Some? {
      var v := Get(o, fallback).value;
      OtherFirstKey(o, preferred, v, q);
      if Holder(v) { OtherFirstKey(o, fallback, v.(loop := true), q); }
    }
  }

  lemma {:induction false} OtherAliases(o: Settings, n: nat, q: Path)
    requires n <= |ALIASES| && q != [] && !o.loop
    requires forall i :: 0 <= i < n ==> ALIASES[i].0[0] != q[0]
    ensures Get(ApplyAliases(o, n), q) == Get(o, q)
    ensures LoopOn(ApplyAliases(o, n), q) <==> LoopOn(o, q)
  {
    hide Get, LoopOn, ApplyAlias;
    if n > 0 {
      OtherAliases(o, n - 1, q);
      OtherAlias(ApplyAliases(o, n - 1), ALIASES[n - 1].0, ALIASES[n - 1].1, q);
    }
  }

  /** Behind all aliases a preferred key has its own value, or else its fallback's, which holds itself where the
      preferred key is one of its own. */
  lemma AliasMeaning(o: Tree, i: nat)
    requires i < |ALIASES|
    ensures var (preferred, fallback) := ALIASES[i];
      var own, other := Get(o, preferred), Get(o, fallback);
      Get(ApplyAliases(o, |ALIASES|), preferred) ==
        if own.Some? || other.None? then own
        else if i == 2 && Holder(other.value) then Some(other.value.(loop := true))
        else other
  {
    NoLoopOn(o, ALIASES[i].0);
    hide Get, Set, LoopOn, LoopFree;
    var preferred, fallback := ALIASES[i].0, ALIASES[i].1;
    OtherAliases(o, i, preferred);
    OtherAliases(o, i, fallback);
    var before := ApplyAliases(o, i);
    if Get(o, preferred).None? && Get(o, fallback).Some? {
      var v := Get(o, fallback).value;
      GetAfterSet(before, preferred, v);
      if i == 2 && Holder(v) { GetLoop(before, "autoClosingTags", v); }
    }
    LaterAliases(o, i, i + 1);
  }

  lemma GetLoop(o: Settings, k: string, v: Json)
    requires Holder(v) && !PrototypeKey(k) && !o.loop
    ensures Get(Set(o, [k], v.(loop := true)), [k, LOOP_KEY]) == Some(v.(loop := true))
  {
    var x := v.(loop := true);
    assert [k, LOOP_KEY][1..] == [LOOP_KEY] && [LOOP_KEY][1..] == [];
    assert Members(x)[LOOP_KEY] == x;
    assert Get(x, [LOOP_KEY]) == Get(x, []);
  }

  lemma {:induction false} LaterAliases(o: Settings, i: nat, n: nat)
    requires i < n <= |ALIASES| && !o.loop
    ensures Get(ApplyAliases(o, |ALIASES|), ALIASES[i].0) == Get(ApplyAliases(o, n), ALIASES[i].0)
    decreases |ALIASES| - n
  {
    hide Get, ApplyAlias;
    if n < |ALIASES| {
      LaterAliases(o, i, n + 1);
      OtherAlias(ApplyAliases(o, n), ALIASES[n].0, ALIASES[n].1, ALIASES[i].0);
    }
  }

  // ---------- merges without end ----------

  const ACT := "autoClosingTags"

  /** Loops only where "enabled" leads. */
  ghost predicate Chain(v: Json) {
    Holder(v) ==>
      && (forall k :: k in v.own && k != LOOP_KEY ==> LoopFree(v.own[k]))
      && (!v.loop && LOOP_KEY in v.own ==> Chain(v.own[LOOP_KEY]))
  }

  /** Loops only below the closing of tags. */
  ghost predicate Shaped(o: Settings) {
    !o.loop && forall k :: k in o.own ==> if k == ACT then Chain(o.own[k]) else LoopFree(o.own[k])
  }

  /** "enabled" leads through objects to one that holds itself. */
  predicate LoopBelow(v: Json) {
    v.Object? && (v.loop || (LOOP_KEY in v.own && LoopBelow(v.own[LOOP_KEY])))
  }

  /** "enabled" leads through objects to one without it. */
  predicate Open(v: Json) {
    v.Object? && !v.loop && (LOOP_KEY in v.own ==> Open(v.own[LOOP_KEY]))
  }

  predicate LoopsAt(o: Settings) {
    ACT in o.own && LoopBelow(o.own[ACT])
  }

  predicate PassesOn(o: Settings) {
    ACT in o.own ==> Open(o.own[ACT])
  }

  lemma {:induction false} ChainIs(v: Json)
    requires LoopFree(v)
    ensures Chain(v) && !LoopBelow(v)
  {
    if Holder(v) && LOOP_KEY in v.own { ChainIs(v.own[LOOP_KEY]); }
  }

  lemma ChainMember(v: Settings)
    requires Chain(v) && LOOP_KEY in Members(v)
    ensures Chain(Members(v)[LOOP_KEY])
    ensures LoopBelow(Members(v)[LOOP_KEY]) <==> LoopBelow(v)
  {
  }

  /** Only "enabled" can lead both to loops. */
  lemma ChainKeys(a: Settings, b: Settings, k: string)
    requires Chain(a) && Chain(b) && k != LOOP_KEY
    ensures !EndlessAt(a, b, k)
  {
    if !(a.loop && b.loop) && BothObjects(a, b, k) { NotEndless(a.own[k], b.own[k]); }
  }

  lemma {:induction false} ChainEndless(a: Settings, b: Settings)
    requires Chain(a) && Chain(b)
    ensures Endless(a, b) <==> LoopBelow(a) && LoopBelow(b)
    decreases a, b
  {
    if !(a.loop && b.loop) {
      forall k | k != LOOP_KEY ensures !EndlessAt(a, b, k) { ChainKeys(a, b, k); }
      if BothObjects(a, b, LOOP_KEY) {
        ChainMember(a);
        ChainMember(b);
        ChainEndless(Members(a)[LOOP_KEY], Members(b)[LOOP_KEY]);
      }
      assert Endless(a, b) <==> EndlessAt(a, b, LOOP_KEY);
    }
  }

  /** What becomes of a loop in a merge. */
  lemma {:induction false} ChainMerge(a: Settings, b: Settings)
    requires Chain(a) && Chain(b) && !Endless(a, b)
    ensures Chain(Merge(a, b))
    ensures LoopBelow(Merge(a, b)) <==> LoopBelow(b) || (LoopBelow(a) && Open(b))
    decreases a, b
  {
    ChainEndless(a, b);
    forall k | k in Merge(a, b).own && k != LOOP_KEY ensures LoopFree(Merge(a, b).own[k]) {
      hide Chain, Endless;
      MergeAt(a, b, k);
      ChainKey(a, k);
      ChainKey(b, k);
      if BothObjects(a, b, k) { MergeLoopFree(a.own[k], b.own[k]); }
    }
    ChainMergeLoop(a, b);
  }

  lemma ChainKey(v: Settings, k: string)
    requires Chain(v) && k != LOOP_KEY
    ensures k in Members(v) ==> k in v.own && Members(v)[k] == v.own[k] && LoopFree(v.own[k])
  {
  }

  lemma {:induction false} ChainMergeLoop(a: Settings, b: Settings)
    requires Chain(a) && Chain(b) && !Endless(a, b)
    requires !(LoopBelow(a) && LoopBelow(b))
    ensures LOOP_KEY in Merge(a, b).own ==> Chain(Merge(a, b).own[LOOP_KEY])
    ensures LoopBelow(Merge(a, b)) <==> LoopBelow(b) || (LoopBelow(a) && Open(b))
    decreases a, b, 0
  {
    hide Merge, Endless, Chain;
    MergeAt(a, b, LOOP_KEY);
    if LOOP_KEY in Members(a) { ChainMember(a); }
    if LOOP_KEY in Members(b) { ChainMember(b); }
    if BothObjects(a, b, LOOP_KEY) {
      ChainMerge(Members(a)[LOOP_KEY], Members(b)[LOOP_KEY]);
    }
  }

  lemma ShapedMember(o: Settings, k: string)
    requires Shaped(o)
    ensures Members(o) == o.own && !o.loop
    ensures k in o.own ==> if k == ACT then Chain(o.own[k]) else LoopFree(o.own[k])
  {
  }

  /** Merging shaped settings, at one key. */
  lemma ShapedKey(a: Settings, b: Settings, k: string)
    requires Shaped(a) && Shaped(b)
    ensures EndlessAt(a, b, k) <==> k == ACT && LoopsAt(a) && LoopsAt(b)
    ensures !Endless(a, b) && k in Merge(a, b).own ==>
      if k == ACT then Chain(Merge(a, b).own[k]) else LoopFree(Merge(a, b).own[k])
    ensures k == ACT && !Endless(a, b) ==> (LoopsAt(Merge(a, b)) <==> LoopsAt(b) || (LoopsAt(a) && PassesOn(b)))
  {
    hide Shaped, Merge, Chain, LoopFree, Endless;
    ShapedMember(a, k);
    ShapedMember(b, k);
    if !Endless(a, b) { MergeAt(a, b, k); }
    if BothObjects(a, b, k) {
      if k == ACT {
        ChainEndless(a.own[k], b.own[k]);
        if !Endless(a, b) { ChainMerge(a.own[k], b.own[k]); }
      } else {
        MergeLoopFree(a.own[k], b.own[k]);
      }
    }
  }

  lemma ShapedMerge(a: Settings, b: Settings)
    requires Shaped(a) && Shaped(b)
    ensures Endless(a, b) <==> LoopsAt(a) && LoopsAt(b)
    ensures !Endless(a, b) ==>
      Shaped(Merge(a, b)) && (LoopsAt(Merge(a, b)) <==> LoopsAt(b) || (LoopsAt(a) && PassesOn(b)))
  {
    ShapedKey(a, b, ACT);
    assert EndlessAt(a, b, ACT) ==> Endless(a, b);
    hide Merge, Chain, LoopFree, LoopsAt, PassesOn;
    forall k ensures EndlessAt(a, b, k) ==> k == ACT { ShapedKey(a, b, k); }
    if !Endless(a, b) {
      MergeAt(a, b, ACT);
      forall k | k in Merge(a, b).own
        ensures if k == ACT then Chain(Merge(a, b).own[k]) else LoopFree(Merge(a, b).own[k]) {
        ShapedKey(a, b, k);
      }
    }
  }

  /** One section's loop is not cut off by the sections after it. */
  ghost predicate Pending(parts: seq<Settings>) {
    exists i :: PendingFrom(parts, i)
  }

  ghost predicate PendingFrom(parts: seq<Settings>, i: int) {
    0 <= i < |parts| && LoopsAt(parts[i]) && forall m :: i < m < |parts| ==> PassesOn(parts[m])
  }

  /** Two sections have loops and no section between them cuts the first one off. */
  ghost predicate TwoLoops(parts: seq<Settings>) {
    exists j :: 0 <= j < |parts| && LoopsAt(parts[j]) && Pending(parts[..j])
  }

  lemma PendingSnoc(parts: seq<Settings>)
    requires parts != []
    ensures var init, last := parts[..|parts| - 1], parts[|parts| - 1];
      Pending(parts) <==> LoopsAt(last) || (Pending(init) && PassesOn(last))
  {
    hide LoopsAt, PassesOn;
    var n := |parts| - 1;
    var init, last := parts[..n], parts[n];
    if LoopsAt(last) { assert PendingFrom(parts, n); }
    if Pending(init) && PassesOn(last) {
      var i :| PendingFrom(init, i);
      assert forall m :: i < m < n ==> PassesOn(init[m]);
      assert PendingFrom(parts, i);
    }
    if Pending(parts) && !LoopsAt(last) {
      var i :| PendingFrom(parts, i);
      assert forall m :: i < m < n ==> PassesOn(parts[m]);
      assert PendingFrom(init, i);
    }
  }

  lemma TwoLoopsSnoc(parts: seq<Settings>)
    requires parts != []
    ensures var init, last := parts[..|parts| - 1], parts[|parts| - 1];
      TwoLoops(parts) <==> TwoLoops(init) || (LoopsAt(last) && Pending(init))
  {
    hide LoopsAt, Pending;
    var n := |parts| - 1;
    forall j | 0 <= j < n ensures parts[..n][..j] == parts[..j] {
    }
  }

  /** The fold runs without end exactly when it meets two loops. */
  lemma {:induction false} FoldEndsIff(parts: seq<Settings>)
    requires forall o :: o in parts ==> Shaped(o)
    ensures FoldEnds(parts) <==> !TwoLoops(parts)
    ensures FoldEnds(parts) ==> Shaped(Fold(parts)) && (LoopsAt(Fold(parts)) <==> Pending(parts))
  {
    hide Shaped, Merge, Endless, LoopsAt, PassesOn, Pending, TwoLoops;
    if parts == [] {
      NoneLoop();
    } else {
      var init, last := parts[..|parts| - 1], parts[|parts| - 1];
      FoldEndsIff(init);
      assert last in parts;
      if FoldEnds(init) { ShapedMerge(Fold(init), last); }
      PendingSnoc(parts);
      TwoLoopsSnoc(parts);
    }
  }

  lemma NoneLoop()
    ensures !Pending([]) && !TwoLoops([]) && Shaped(EMPTY) && !LoopsAt(EMPTY)
  {
  }

  // ---------- the operations step by step ----------

  method GetNestedValue(obj: Json, parts: Path) returns (r: Option<Json>)
    ensures r == Get(obj, parts)
  {
    var current := obj;
    for i := 0 to |parts|
      invariant Get(current, parts[i..]) == Get(obj, parts)
    {
      var part := parts[i];
      assert parts[i..][0] == part && parts[i..][1..] == parts[i + 1..];
      if PrototypeKey(part) || !Holder(current) || part !in Members(current) {
        return None;
      }
      current := Members(current)[part];
    }
    r := Some(current);
  }

  /** Nothing is returned when the calls nest without end: then the stack overflows. */
  method DeepMerge(a: Settings, b: Settings) returns (r: Option<Settings>)
    ensures Endless(a, b) ==> r.None?
    ensures !Endless(a, b) ==> r == Some(Merge(a, b))
    decreases a, b
  {
    if a.loop && b.loop {
      return None;
    }
    var result := Members(a);
    var from := Members(b);
    var keys := from.Keys;
    while keys != {}
      invariant keys <= from.Keys
      invariant forall k :: k in result <==> k in Members(a) || (k in from && k !in keys && !PrototypeKey(k))
      invariant forall k :: k in result && (k in keys || k !in from || PrototypeKey(k)) ==> result[k] == Members(a)[k]
      invariant forall k :: k in from && k !in keys ==> !EndlessAt(a, b, k)
      invariant forall k :: k in from && k !in keys && !PrototypeKey(k) ==> MergesTo(a, b, k, result[k])
      decreases keys
    {
      var key :| key in keys;
      keys := keys - {key};
      if PrototypeKey(key) {
        continue;
      }
      if key in result && result[key].Object? && from[key].Object? {
        var inner := DeepMerge(result[key], from[key]);
        if inner.None? {
          assert EndlessAt(a, b, key);
          return None;
        }
        result := result[key := inner.value];
      } else {
        result := result[key := from[key]];
      }
    }
    EndsByKey(a, b);
    forall k ensures k in result <==> k in Merge(a, b).own
             ensures k in result ==> result[k] == Merge(a, b).own[k] {
      MergeAt(a, b, k);
    }
    assert result == Merge(a, b).own;
    r := Some(Object(result, false));
  }

  ghost predicate MergesTo(a: Settings, b: Settings, k: string, v: Json)
    requires k in Members(b) && !PrototypeKey(k) && !EndlessAt(a, b, k) && !(a.loop && b.loop)
  {
    v == if BothObjects(a, b, k) then Merge(Members(a)[k], Members(b)[k]) else Members(b)[k]
  }

  lemma EndsByKey(a: Settings, b: Settings)
    requires !(a.loop && b.loop) && forall k :: k in Members(b) ==> !EndlessAt(a, b, k)
    ensures !Endless(a, b)
  {
  }

  method ApplyConfigAliases(explicit: Settings) returns (r: Settings)
    ensures r == ApplyAliases(explicit, |ALIASES|)
  {
    r := explicit;
    for i := 0 to |ALIASES|
      invariant r == ApplyAliases(explicit, i)
    {
      var preferred, fallback := ALIASES[i].0, ALIASES[i].1;
      var own := GetNestedValue(r, preferred);
      if own.None? {
        var fallbackValue := GetNestedValue(r, fallback);
        if fallbackValue.Some? {
          if Holder(fallbackValue.value) && preferred == fallback + [LOOP_KEY] {
            r := Set(r, fallback, fallbackValue.value.(loop := true));
          } else {
            r := Set(r, preferred, fallbackValue.value);
          }
        }
      }
    }
  }

  // ---------- the merged configuration ----------

  /** What one section's inspection yields. */
  datatype Section = Section(explicit: Option<Tree>, defaults: Option<Tree>)

  function OrEmpty(o: Option<Tree>): Tree {
    if o.Some? then o.value else EMPTY
  }

  function Explicit(s: Section): Settings {
    ApplyAliases(OrEmpty(s.explicit), |ALIASES|)
  }

  /** The parts to fold, lowest precedence first: the sections come highest first. */
  function DefaultParts(configs: seq<Section>): seq<Tree> {
    if configs == [] then [] else DefaultParts(configs[1..]) + [OrEmpty(configs[0].defaults)]
  }

  function ExplicitParts(configs: seq<Section>): seq<Settings> {
    if configs == [] then [] else ExplicitParts(configs[1..]) + [Explicit(configs[0])]
  }

  const CUSTOM_CONFIG: Path := ["customConfigFileName"]
  const TRACE: Path := ["trace"]
  const TRACE_SERVER: Path := ["trace", "server"]

  /** Two settings of the older extension stand in where no section sets them. */
  function WithLegacy(explicit: Settings, legacy: Tree): Settings {
    ApplyLegacy(ApplyLegacy(explicit, legacy, CUSTOM_CONFIG), legacy, TRACE_SERVER)
  }

  function ApplyLegacy(explicit: Settings, legacy: Tree, p: Path): Settings
    requires p != []
  {
    if Get(explicit, p).None? && Get(legacy, p).Some? then Set(explicit, p, Get(legacy, p).value) else explicit
  }

  /** An explicit trace that is a plain value cannot be given a member: the assignment throws. */
  predicate LegacyThrows(explicit: Settings, legacy: Tree) {
    Get(explicit, TRACE_SERVER).None? && Get(legacy, TRACE_SERVER).Some? &&
    Get(explicit, TRACE).Some? && Get(explicit, TRACE).value.Scalar?
  }

  function Merged(configs: seq<Section>, legacy: Tree): Settings
    requires FoldEnds(ExplicitParts(configs))
  {
    DefaultsEnd(DefaultParts(configs), WithLegacy(Fold(ExplicitParts(configs)), legacy));
    Merge(Fold(DefaultParts(configs)), WithLegacy(Fold(ExplicitParts(configs)), legacy))
  }

  lemma {:induction false} DefaultsEnd(parts: seq<Tree>, explicit: Settings)
    ensures FoldEnds(parts) && LoopFree(Fold(parts))
    ensures !Endless(Fold(parts), explicit)
  {
    if parts != [] {
      DefaultsEnd(parts[..|parts| - 1], parts[|parts| - 1]);
      MergeLoopFree(Fold(parts[..|parts| - 1]), parts[|parts| - 1]);
    }
    NotEndless(Fold(parts), explicit);
  }

  // ---------- which sections make it throw ----------

  /** The setting an object without the member it stands in for: it is stored in itself. */
  predicate StoresItself(s: Section) {
    s.explicit.Some? && ACT in s.explicit.value.own &&
    var v := s.explicit.value.own[ACT]; v.Object? && LOOP_KEY !in v.own
  }

  /** The setting is missing, or an object whose "enabled" is, directly or through objects, an object that has
      no "enabled". */
  predicate LetsThrough(s: Section) {
    s.explicit.Some? && ACT in s.explicit.value.own ==>
      var v := s.explicit.value.own[ACT]; v.Object? && LOOP_KEY in v.own && Open(v)
  }

  /** Two sections store the setting in itself, and every section between them in precedence lets through. */
  ghost predicate TwoSectionsLoop(configs: seq<Section>) {
    exists i, j :: 0 <= i < j < |configs| && StoresItself(configs[i]) && StoresItself(configs[j]) &&
      forall m :: i < m < j ==> LetsThrough(configs[m])
  }

  lemma SetShaped(o: Settings, p: Path, v: Json)
    requires Shaped(o) && p != [] && p[0] != ACT && LoopFree(v)
    ensures Shaped(Set(o, p, v))
    ensures ACT in Set(o, p, v).own <==> ACT in o.own
    ensures ACT in o.own ==> Set(o, p, v).own[ACT] == o.own[ACT]
  {
    hide Chain;
    if |p| > 1 && !PrototypeKey(p[0]) { SetLoopFree(Child(o, p[0]), p[1..], v); }
  }

  lemma AliasShaped(o: Settings, preferred: Path, fallback: Path)
    requires Shaped(o) && preferred != [] && fallback != [] && preferred[0] == fallback[0] != ACT
    requires preferred != fallback + [LOOP_KEY]
    ensures var r := ApplyAlias(o, preferred, fallback);
      Shaped(r) && (ACT in r.own <==> ACT in o.own) && (ACT in o.own ==> r.own[ACT] == o.own[ACT])
  {
    hide Chain;
    if Get(o, fallback).Some? {
      GetLoopFree(o.own[fallback[0]], fallback[1..]);
      SetShaped(o, preferred, Get(o, fallback).value);
    }
  }

  lemma TreeShaped(o: Tree)
    ensures Shaped(o)
  {
    if ACT in o.own { ChainIs(o.own[ACT]); }
  }

  /** What the aliases make of the one setting they can loop. */
  function ActOf(v: Json): Json {
    if !Holder(v) then Object(map[LOOP_KEY := v], false)
    else if LOOP_KEY in v.own then v
    else v.(loop := true)
  }

  lemma ActShaped(v: Json)
    requires LoopFree(v)
    ensures Chain(ActOf(v))
    ensures LoopBelow(ActOf(v)) <==> v.Object? && LOOP_KEY !in v.own
    ensures Open(ActOf(v)) <==> v.Object? && LOOP_KEY in v.own && Open(v)
  {
    ChainIs(v);
  }

  lemma ActAlias(o: Settings)
    requires Shaped(o) && (ACT in o.own ==> LoopFree(o.own[ACT]))
    ensures var r := ApplyAlias(o, ALIASES[2].0, ALIASES[2].1);
      && Shaped(r) && (ACT in r.own <==> ACT in o.own)
      && (ACT in o.own ==> r.own[ACT] == ActOf(o.own[ACT]))
  {
    var preferred, fallback := ALIASES[2].0, ALIASES[2].1;
    assert preferred == [ACT, LOOP_KEY] && fallback == [ACT] && preferred == fallback + [LOOP_KEY];
    assert preferred[1..] == [LOOP_KEY] && [LOOP_KEY][1..] == [] && fallback[1..] == [];
    hide Chain, LoopFree;
    if ACT in o.own {
      var v := o.own[ACT];
      ActShaped(v);
      assert Get(o, fallback) == Get(v, []) == Some(v);
      assert Get(o, preferred) == Get(v, [LOOP_KEY]);
      NotHeld(v);
    }
  }

  lemma NotHeld(v: Json)
    requires LoopFree(v)
    ensures Get(v, [LOOP_KEY]).Some? <==> Holder(v) && LOOP_KEY in v.own
  {
    assert [LOOP_KEY][1..] == [];
  }

  lemma ExplicitShaped(s: Section)
    ensures Shaped(Explicit(s))
    ensures LoopsAt(Explicit(s)) <==> StoresItself(s)
    ensures PassesOn(Explicit(s)) <==> LetsThrough(s)
  {
    var o := OrEmpty(s.explicit);
    TreeShaped(o);
    if ACT in o.own { ActShaped(o.own[ACT]); }
    hide Shaped, ApplyAlias, Open, LoopBelow, ActOf, Chain, LoopFree;
    var one, two, three := ApplyAliases(o, 1), ApplyAliases(o, 2), ApplyAliases(o, 3);
    assert one == ApplyAlias(ApplyAliases(o, 0), ALIASES[0].0, ALIASES[0].1) && ApplyAliases(o, 0) == o;
    assert two == ApplyAlias(one, ALIASES[1].0, ALIASES[1].1);
    assert three == ApplyAlias(two, ALIASES[2].0, ALIASES[2].1);
    assert Explicit(s) == ApplyAlias(three, ALIASES[3].0, ALIASES[3].1);
    assert ALIASES[3].0 != ALIASES[3].1 + [LOOP_KEY] by { assert ALIASES[3].0[1] != (ALIASES[3].1 + [LOOP_KEY])[1]; }
    assert ALIASES[0].0 != ALIASES[0].1 + [LOOP_KEY] && ALIASES[1].0 != ALIASES[1].1 + [LOOP_KEY];
    AliasShaped(o, ALIASES[0].0, ALIASES[0].1);
    AliasShaped(one, ALIASES[1].0, ALIASES[1].1);
    ActAlias(two);
    AliasShaped(three, ALIASES[3].0, ALIASES[3].1);
  }

  lemma {:induction false} ExplicitPartsAt(configs: seq<Section>)
    ensures |ExplicitParts(configs)| == |configs|
    ensures forall i :: 0 <= i < |configs| ==> ExplicitParts(configs)[i] == Explicit(configs[|configs| - 1 - i])
  {
    hide Explicit;
    if configs != [] { ExplicitPartsAt(configs[1..]); }
  }

  /** The parts to fold are the sections, turned round. */
  lemma PartsOfSections(configs: seq<Section>, i: nat)
    requires i < |configs|
    ensures |ExplicitParts(configs)| == |configs|
    ensures var part, section := ExplicitParts(configs)[i], configs[|configs| - 1 - i];
      Shaped(part) && (LoopsAt(part) <==> StoresItself(section)) && (PassesOn(part) <==> LetsThrough(section))
  {
    hide Explicit, Shaped, LoopsAt, PassesOn, StoresItself, LetsThrough, ExplicitParts;
    ExplicitPartsAt(configs);
    ExplicitShaped(configs[|configs| - 1 - i]);
  }

  lemma PartsAreAsMany(configs: seq<Section>)
    ensures |ExplicitParts(configs)| == |configs|
  {
    ExplicitPartsAt(configs);
  }

  lemma SectionsLoop(configs: seq<Section>)
    requires TwoLoops(ExplicitParts(configs))
    ensures TwoSectionsLoop(configs)
  {
    var parts, n := ExplicitParts(configs), |configs|;
    hide LoopsAt, PassesOn, StoresItself, LetsThrough, ExplicitParts, Shaped;
    PartsAreAsMany(configs);
    var j :| 0 <= j < n && LoopsAt(parts[j]) && Pending(parts[..j]);
    var i :| PendingFrom(parts[..j], i);
    PartsOfSections(configs, i);
    PartsOfSections(configs, j);
    forall m | n - 1 - j < m < n - 1 - i ensures LetsThrough(configs[m]) {
      PartsOfSections(configs, n - 1 - m);
      assert parts[..j][n - 1 - m] == parts[n - 1 - m];
    }
    assert StoresItself(configs[n - 1 - j]) && StoresItself(configs[n - 1 - i]);
  }

  lemma PartsLoop(configs: seq<Section>)
    requires TwoSectionsLoop(configs)
    ensures TwoLoops(ExplicitParts(configs))
  {
    var parts, n := ExplicitParts(configs), |configs|;
    hide LoopsAt, PassesOn, StoresItself, LetsThrough, ExplicitParts, Shaped;
    PartsAreAsMany(configs);
    var i, j :| 0 <= i < j < n && StoresItself(configs[i]) && StoresItself(configs[j]) &&
      forall m :: i < m < j ==> LetsThrough(configs[m]);
    var first, second := n - 1 - j, n - 1 - i;
    PartsOfSections(configs, first);
    PartsOfSections(configs, second);
    forall m | first < m < second ensures PassesOn(parts[..second][m]) {
      PartsOfSections(configs, m);
      assert LetsThrough(configs[n - 1 - m]);
    }
    assert PendingFrom(parts[..second], first);
  }

  /** Merging the explicit values of the sections ends exactly when no two sections loop. */
  lemma ExplicitEnds(configs: seq<Section>)
    ensures FoldEnds(ExplicitParts(configs)) <==> !TwoSectionsLoop(configs)
    ensures FoldEnds(ExplicitParts(configs)) ==> Shaped(Fold(ExplicitParts(configs)))
  {
    hide Fold, FoldEnds, Shaped, ExplicitParts, TwoLoops, TwoSectionsLoop;
    var parts := ExplicitParts(configs);
    ExplicitPartsAt(configs);
    forall o | o in parts ensures Shaped(o) {
      var i :| 0 <= i < |parts| && parts[i] == o;
      PartsOfSections(configs, i);
    }
    FoldEndsIff(parts);
    if TwoLoops(parts) { SectionsLoop(configs); }
    if TwoSectionsLoop(configs) { PartsLoop(configs); }
  }

  function SetBelowAct(key: string, value: Json): Tree
    requires LoopFree(value)
  {
    var inner := Object(map[key := value], false);
    assert LoopFree(inner);
    Object(map[ACT := inner], false)
  }

  /** Two sections that set some other key below "autoClosingTags", and nothing else. */
  lemma TwoObjectsLoop(key: string, value: Json)
    requires key != LOOP_KEY && LoopFree(value)
    ensures var s := Section(Some(SetBelowAct(key, value)), None);
      TwoSectionsLoop([s, s]) && !FoldEnds(ExplicitParts([s, s]))
  {
    var s := Section(Some(SetBelowAct(key, value)), None);
    hide ExplicitParts, FoldEnds, LoopFree;
    assert StoresItself([s, s][0]) && StoresItself([s, s][1]);
    assert TwoSectionsLoop([s, s]);
    ExplicitEnds([s, s]);
  }

  /** Merging throws exactly when two sections loop or the legacy trace setting has nowhere to go. */
  method GetMergedConfiguration(configs: seq<Section>, legacy: Option<Tree>) returns (r: Option<Settings>)
    ensures TwoSectionsLoop(configs) ==> r.None?
    ensures !TwoSectionsLoop(configs) ==> FoldEnds(ExplicitParts(configs))
    ensures !TwoSectionsLoop(configs) ==>
      r == if LegacyThrows(Fold(ExplicitParts(configs)), OrEmpty(legacy)) then None
           else Some(Merged(configs, OrEmpty(legacy)))
  {
    hide Merge, Get, Set, ApplyAliases, Fold, FoldEnds, ExplicitParts, DefaultParts, LoopFree, TwoSectionsLoop, Endless;
    var defaults, explicit := EMPTY, EMPTY;
    var i := |configs|;
    NoParts(configs[i..]);
    while i > 0
      invariant 0 <= i <= |configs|
      invariant FoldEnds(DefaultParts(configs[i..])) && defaults == Fold(DefaultParts(configs[i..]))
    {
      i := i - 1;
      DefaultStep(configs, i);
      if configs[i].defaults.Some? {
        var merged := DeepMerge(defaults, configs[i].defaults.value);
        defaults := merged.value;
      }
    }
    assert configs[0..] == configs;
    i := |configs|;
    while i > 0
      invariant 0 <= i <= |configs|
      invariant FoldEnds(ExplicitParts(configs[i..])) && explicit == Fold(ExplicitParts(configs[i..]))
    {
      i := i - 1;
      ExplicitStep(configs, i);
      if configs[i].explicit.Some? {
        var aliased := ApplyConfigAliases(configs[i].explicit.value);
        var merged := DeepMerge(explicit, aliased);
        if merged.None? {
          NeverAgain(configs, i);
          ExplicitEnds(configs);
          return None;
        }
        explicit := merged.value;
      }
    }
    ExplicitEnds(configs);
    var done := ApplyLegacySettings(explicit, OrEmpty(legacy));
    if done.None? {
      return None;
    }
    DefaultsEnd(DefaultParts(configs), done.value);
    r := DeepMerge(defaults, done.value);
  }

  lemma NoParts(configs: seq<Section>)
    requires configs == []
    ensures FoldEnds(DefaultParts(configs)) && FoldEnds(ExplicitParts(configs))
    ensures Fold(DefaultParts(configs)) == Fold(ExplicitParts(configs)) == EMPTY
  {
  }

  lemma FoldSnoc(parts: seq<Settings>, last: Settings)
    ensures FoldEnds(parts + [last]) <==> FoldEnds(parts) && !Endless(Fold(parts), last)
    ensures FoldEnds(parts + [last]) ==> Fold(parts + [last]) == Merge(Fold(parts), last)
  {
    hide Merge, Endless;
    assert (parts + [last])[..|parts|] == parts;
  }

  lemma MergeNothing(a: Settings)
    requires !a.loop
    ensures !Endless(a, EMPTY) && Merge(a, EMPTY) == a
  {
    NotEndless(a, EMPTY);
    assert Merge(a, EMPTY).own == a.own;
  }

  lemma {:induction false} AliasesOfNothing(n: nat)
    requires n <= |ALIASES|
    ensures ApplyAliases(EMPTY, n) == EMPTY
  {
    if n > 0 { AliasesOfNothing(n - 1); }
  }

  lemma FoldHasNoLoop(parts: seq<Settings>)
    requires FoldEnds(parts)
    ensures !Fold(parts).loop
  {
    if parts != [] { MergeAt(Fold(parts[..|parts| - 1]), parts[|parts| - 1], ""); }
  }

  lemma DefaultStep(configs: seq<Section>, i: nat)
    requires i < |configs|
    ensures FoldEnds(DefaultParts(configs[i + 1..])) && FoldEnds(DefaultParts(configs[i..]))
    ensures !Endless(Fold(DefaultParts(configs[i + 1..])), OrEmpty(configs[i].defaults))
    ensures Fold(DefaultParts(configs[i..])) ==
      Merge(Fold(DefaultParts(configs[i + 1..])), OrEmpty(configs[i].defaults))
    ensures configs[i].defaults.None? ==> Fold(DefaultParts(configs[i..])) == Fold(DefaultParts(configs[i + 1..]))
  {
    hide Merge, Fold, FoldEnds, Endless;
    assert configs[i..][1..] == configs[i + 1..] && configs[i..][0] == configs[i];
    DefaultsEnd(DefaultParts(configs[i + 1..]), OrEmpty(configs[i].defaults));
    FoldSnoc(DefaultParts(configs[i + 1..]), OrEmpty(configs[i].defaults));
    if configs[i].defaults.None? { MergeNothing(Fold(DefaultParts(configs[i + 1..]))); }
  }

  lemma ExplicitStep(configs: seq<Section>, i: nat)
    requires i < |configs|
    ensures var before, last := ExplicitParts(configs[i + 1..]), Explicit(configs[i]);
      && (FoldEnds(ExplicitParts(configs[i..])) <==> FoldEnds(before) && !Endless(Fold(before), last))
      && (FoldEnds(ExplicitParts(configs[i..])) ==> Fold(ExplicitParts(configs[i..])) == Merge(Fold(before), last))
      && (configs[i].explicit.None? && FoldEnds(before) ==>
           FoldEnds(ExplicitParts(configs[i..])) && Fold(ExplicitParts(configs[i..])) == Fold(before))
  {
    hide Merge, ApplyAliases, Fold, FoldEnds, Endless;
    assert configs[i..][1..] == configs[i + 1..] && configs[i..][0] == configs[i];
    AliasesOfNothing(|ALIASES|);
    var before := ExplicitParts(configs[i + 1..]);
    FoldSnoc(before, Explicit(configs[i]));
    if FoldEnds(before) {
      FoldHasNoLoop(before);
      MergeNothing(Fold(before));
    }
  }

  /** Once a merge has not ended, the fold does not. */
  lemma {:induction false} NeverAgain(configs: seq<Section>, i: nat)
    requires i <= |configs| && !FoldEnds(ExplicitParts(configs[i..]))
    ensures !FoldEnds(ExplicitParts(configs))
    decreases i
  {
    hide FoldEnds, ExplicitParts;
    if i == 0 {
      assert configs[0..] == configs;
    } else {
      ExplicitStep(configs, i - 1);
      NeverAgain(configs, i - 1);
    }
  }

  method ApplyLegacySettings(explicit: Settings, legacy: Tree) returns (r: Option<Settings>)
    requires !explicit.loop
    ensures r == if LegacyThrows(explicit, legacy) then None else Some(WithLegacy(explicit, legacy))
  {
    hide Get, Set;
    var o := explicit;
    var own := GetNestedValue(o, CUSTOM_CONFIG);
    if own.None? {
      var legacyCustomConfigFileName := GetNestedValue(legacy, CUSTOM_CONFIG);
      if legacyCustomConfigFileName.Some? {
        SetTop(o, CUSTOM_CONFIG, legacyCustomConfigFileName.value);
        OtherFirstKey(o, CUSTOM_CONFIG, legacyCustomConfigFileName.value, TRACE_SERVER);
        OtherFirstKey(o, CUSTOM_CONFIG, legacyCustomConfigFileName.value, TRACE);
        o := Object(o.own["customConfigFileName" := legacyCustomConfigFileName.value], false);
      }
    }
    var server := GetNestedValue(o, TRACE_SERVER);
    if server.None? {
      var legacyTraceServer := GetNestedValue(legacy, TRACE_SERVER);
      if legacyTraceServer.Some? {
        TraceSet(o, legacyTraceServer.value);
        if "trace" in o.own && o.own["trace"].Scalar? {
          return None;
        }
        var trace := if "trace" !in o.own || o.own["trace"].Null? then EMPTY else o.own["trace"];
        o := Object(o.own["trace" := trace.(own := trace.own["server" := legacyTraceServer.value])], false);
      }
    }
    r := Some(o);
  }

  lemma SetTop(o: Settings, p: Path, v: Json)
    requires |p| == 1 && !PrototypeKey(p[0]) && !o.loop
    ensures Set(o, p, v) == Object(o.own[p[0] := v], false)
  {
  }

  lemma TraceSet(o: Settings, v: Json)
    requires !o.loop
    ensures Get(o, TRACE) == if "trace" in o.own then Some(o.own["trace"]) else None
    ensures Set(o, TRACE_SERVER, v) ==
      var t := Child(o, "trace");
      Object(o.own["trace" := t.(own := t.own["server" := v])], false)
  {
    assert TRACE_SERVER[1..] == ["server"];
    assert TRACE[1..] == [];
  }

  // ---------- main result ----------

  lemma {:induction false} SetObstructsNothing(o: Settings, p: Path, v: Json, q: Path)
    requires Incomparable(p, q) && !Obstructed(o, q) && !LoopOn(o, p)
    ensures !Obstructed(Set(o, p, v), q)
    decreases |p|
  {
    if !PrototypeKey(p[0]) && |p| > 1 && |q| > 1 && p[0] == q[0] {
      assert !Obstructed(EMPTY, q[1..]);
      SetObstructsNothing(Child(o, p[0]), p[1..], v, q[1..]);
    }
  }

  lemma LegacyAt(explicit: Settings, legacy: Tree, p: Path, q: Path)
    requires p != [] && Incomparable(p, q) && !Obstructed(explicit, q) && !LoopOn(explicit, p)
    ensures Get(ApplyLegacy(explicit, legacy, p), q) == Get(explicit, q)
    ensures !Obstructed(ApplyLegacy(explicit, legacy, p), q)
  {
    if Get(legacy, p).Some? {
      SetElsewhere(explicit, p, Get(legacy, p).value, q);
      SetObstructsNothing(explicit, p, Get(legacy, p).value, q);
    }
  }

  /** The older extension's settings are stored where no loop is in the way. */
  lemma NoLoopForLegacy(configs: seq<Section>, legacy: Tree)
    requires FoldEnds(ExplicitParts(configs))
    ensures var explicit := Fold(ExplicitParts(configs));
      && !LoopOn(explicit, CUSTOM_CONFIG) && !LoopOn(explicit, TRACE_SERVER)
      && !LoopOn(ApplyLegacy(explicit, legacy, CUSTOM_CONFIG), TRACE_SERVER)
  {
    hide Fold, FoldEnds, ExplicitParts, Get, Set;
    ExplicitEnds(configs);
    var explicit := Fold(ExplicitParts(configs));
    ShapedHasNoLoop(explicit, CUSTOM_CONFIG);
    ShapedHasNoLoop(explicit, TRACE_SERVER);
    if Get(legacy, CUSTOM_CONFIG).Some? {
      OtherFirstKey(explicit, CUSTOM_CONFIG, Get(legacy, CUSTOM_CONFIG).value, TRACE_SERVER);
    }
  }

  lemma ShapedHasNoLoop(o: Settings, p: Path)
    requires Shaped(o) && p != [] && p[0] != ACT
    ensures !LoopOn(o, p)
  {
    if p[0] in o.own { NoLoopOn(o.own[p[0]], p[1..]); }
  }

  /** At every leaf path the explicit values win, section by section, and then the defaults. */
  lemma Precedence(configs: seq<Section>, legacy: Tree, p: Path)
    requires Incomparable(CUSTOM_CONFIG, p) && Incomparable(TRACE_SERVER, p)
    requires LeafPathOfAll(DefaultParts(configs), p) && LeafPathOfAll(ExplicitParts(configs), p)
    requires FoldEnds(ExplicitParts(configs))
    ensures Get(Merged(configs, legacy), p) ==
      Or(FirstDefined(ExplicitParts(configs), p), FirstDefined(DefaultParts(configs), p))
  {
    assert p != [];
    hide Merge, Get, Set, Obstructed, Incomparable, Fold, DefaultParts, ExplicitParts, FirstDefined, ApplyLegacy,
      FoldEnds, Endless, LoopOn, LoopFree;
    var explicit := Fold(ExplicitParts(configs));
    NoLoopForLegacy(configs, legacy);
    DefaultsEnd(DefaultParts(configs), WithLegacy(explicit, legacy));
    FoldTakesFirst(DefaultParts(configs), p);
    FoldTakesFirst(ExplicitParts(configs), p);
    LegacyAt(explicit, legacy, CUSTOM_CONFIG, p);
    LegacyAt(ApplyLegacy(explicit, legacy, CUSTOM_CONFIG), legacy, TRACE_SERVER, p);
    FreeOfReplacement(Fold(DefaultParts(configs)), WithLegacy(explicit, legacy), p);
    GetMerge(Fold(DefaultParts(configs)), WithLegacy(explicit, legacy), p);
  }

  lemma {:induction false} SetClearsTheWay(o: Settings, p: Path, v: Json)
    requires p != [] && !Obstructed(o, p) && !LoopOn(o, p)
    ensures !Obstructed(Set(o, p, v), p)
    decreases |p|
  {
    if !PrototypeKey(p[0]) && |p| > 1 {
      assert !Obstructed(EMPTY, p[1..]);
      SetClearsTheWay(Child(o, p[0]), p[1..], v);
    }
  }

  lemma LegacyHere(explicit: Settings, legacy: Tree, p: Path)
    requires p != [] && Plain(p) && !Obstructed(explicit, p) && !LoopOn(explicit, p)
    ensures Get(ApplyLegacy(explicit, legacy, p), p) == Or(Get(explicit, p), Get(legacy, p))
    ensures !Obstructed(ApplyLegacy(explicit, legacy, p), p)
  {
    if Get(legacy, p).Some? {
      GetAfterSet(explicit, p, Get(legacy, p).value);
      SetClearsTheWay(explicit, p, Get(legacy, p).value);
    }
  }

  /** The older extension's two settings come after every explicit value and before every default. */
  lemma LegacyPrecedence(configs: seq<Section>, legacy: Tree, p: Path)
    requires (p == CUSTOM_CONFIG || p == TRACE_SERVER) && LeafPath(legacy, p)
    requires LeafPathOfAll(DefaultParts(configs), p) && LeafPathOfAll(ExplicitParts(configs), p)
    requires FoldEnds(ExplicitParts(configs))
    ensures Get(Merged(configs, legacy), p) ==
      Or(FirstDefined(ExplicitParts(configs), p), Or(Get(legacy, p), FirstDefined(DefaultParts(configs), p)))
  {
    assert Incomparable(CUSTOM_CONFIG, TRACE_SERVER) && Incomparable(TRACE_SERVER, CUSTOM_CONFIG);
    hide Merge, Get, Set, Obstructed, Incomparable, Fold, DefaultParts, ExplicitParts, FirstDefined, ApplyLegacy,
      FoldEnds, Endless, LoopOn, LoopFree;
    var explicit := Fold(ExplicitParts(configs));
    NoLoopForLegacy(configs, legacy);
    DefaultsEnd(DefaultParts(configs), WithLegacy(explicit, legacy));
    var once := ApplyLegacy(explicit, legacy, CUSTOM_CONFIG);
    FoldTakesFirst(DefaultParts(configs), p);
    FoldTakesFirst(ExplicitParts(configs), p);
    if p == CUSTOM_CONFIG {
      LegacyHere(explicit, legacy, CUSTOM_CONFIG);
      LegacyAt(once, legacy, TRACE_SERVER, p);
    } else {
      LegacyAt(explicit, legacy, CUSTOM_CONFIG, p);
      LegacyHere(once, legacy, TRACE_SERVER);
    }
    FreeOfReplacement(Fold(DefaultParts(configs)), WithLegacy(explicit, legacy), p);
    GetMerge(Fold(DefaultParts(configs)), WithLegacy(explicit, legacy), p);
  }

  /** With the three sections the extension reads, the order spelled out. */
  lemma PrecedenceOfThree(js: Section, ts: Section, javascript: Section, legacy: Tree, p: Path)
    requires Incomparable(CUSTOM_CONFIG, p) && Incomparable(TRACE_SERVER, p)
    requires LeafPathOfAll(DefaultParts([js, ts, javascript]), p)
    requires LeafPathOfAll(ExplicitParts([js, ts, javascript]), p)
    requires FoldEnds(ExplicitParts([js, ts, javascript]))
    ensures Get(Merged([js, ts, javascript], legacy), p) ==
      Or(Get(Explicit(js), p), Or(Get(Explicit(ts), p), Or(Get(Explicit(javascript), p),
      Or(Get(OrEmpty(js.defaults), p), Or(Get(OrEmpty(ts.defaults), p), Get(OrEmpty(javascript.defaults), p))))))
  {
    hide Merge, ApplyAliases, Explicit, Get, Merged, LeafPathOfAll, Incomparable;
    Precedence([js, ts, javascript], legacy, p);
    ThreeParts(OrEmpty(javascript.defaults), OrEmpty(ts.defaults), OrEmpty(js.defaults), p);
    ThreeParts(Explicit(javascript), Explicit(ts), Explicit(js), p);
    PartsOfThree(js, ts, javascript);
  }

  lemma PartsOfThree(a: Section, b: Section, c: Section)
    ensures DefaultParts([a, b, c]) == [OrEmpty(c.defaults), OrEmpty(b.defaults), OrEmpty(a.defaults)]
    ensures ExplicitParts([a, b, c]) == [Explicit(c), Explicit(b), Explicit(a)]
  {
    hide Explicit, OrEmpty;
    assert [a, b, c][1..] == [b, c] && [b, c][1..] == [c] && [c][1..] == [];
    assert DefaultParts([c]) == [OrEmpty(c.defaults)];
    assert DefaultParts([b, c]) == [OrEmpty(c.defaults), OrEmpty(b.defaults)];
    assert ExplicitParts([c]) == [Explicit(c)];
    assert ExplicitParts([b, c]) == [Explicit(c), Explicit(b)];
  }

  lemma ThreeParts(a: Settings, b: Settings, c: Settings, p: Path)
    ensures FirstDefined([a, b, c], p) == Or(Get(c, p), Or(Get(b, p), Get(a, p)))
  {
    hide Get;
    assert [a, b, c][..2] == [a, b] && [a, b][..1] == [a] && [a][..0] == [];
    assert FirstDefined([a], p) == Or(Get(a, p), None);
    assert FirstDefined([a, b], p) == Or(Get(b, p), FirstDefined([a], p));
  }
}

/** The reader generated by tools/scripts/tsc/generate-encoder.ts, over the rows of an encoded tree. */
module FlatReader {
  import opened FlatAst
  import opened FlatEncoder
  import opened ChildMask
  import opened Options

  /** childMask: -1, all ones, unless the data word holds a mask. */
  function ChildMaskOf(row: Row): bv8 {
    if row.data.NodeData? then row.data.mask else 0xff
  }

  /** The reader takes property i to be there. */
  predicate Flagged(item: Item, i: nat)
    requires item.Node? && i < |Properties(item.members)|
  {
    item.payload.Children? ==> IsWritten(Properties(item.members)[i])
  }

  /** The rank at which the reader looks for a property. */
  function RankIn(item: Item, order: nat): nat
    requires item.Node? && order <= |Properties(item.members)|
  {
    if item.payload.Children? then Rank(Properties(item.members), order) else order
  }

  lemma ChildMaskIsMask(rows: seq<Row>, root: Item, index: nat, order: nat)
    requires Encodes(rows, root) && IsRow(root, index) && index < |rows|
    requires ItemOf(root, index).Node? && order < |Properties(ItemOf(root, index).members)| <= 8
    ensures var item := ItemOf(root, index);
      && (TestBit(ChildMaskOf(rows[index]), order) <==> Flagged(item, order))
      && order - MissingBelow(ChildMaskOf(rows[index]), order) == RankIn(item, order)
  {
    RowSaysItem(rows, root, index);
    var item := ItemOf(root, index);
    hide WellFormed, ItemAt, Flat, Mask, MissingBelow, TestBit, Properties, Written;
    if item.payload.Children? {
      MaskBit(Properties(item.members), order);
      RankByMask(Properties(item.members), order);
    } else {
      FullMask(order);
    }
  }

  lemma {:induction false} FullMask(order: nat)
    requires order < 8
    ensures TestBit(0xff, order) && MissingBelow(0xff, order) == 0
  {
    if order == 0 {
      MissingBelowStep(0xff, 0);
    } else {
      FullMask(order - 1);
      MissingBelowStep(0xff, order - 1);
    }
  }

  lemma FewProperties(root: Item, index: nat)
    requires WellFormed(root) && root.Node? && IsRow(root, index) && ItemOf(root, index).Node?
    ensures |Properties(ItemOf(root, index).members)| <= 8
  {
    assert WellFormed(ItemOf(root, index));
  }

  /** The row one comes to from the first child over k next links; past the last child that is the nil row. */
  ghost function Nth(root: Item, index: nat, k: nat): nat
    requires WellFormed(root) && root.Node? && IsRow(root, index)
  {
    if k < |ChildrenOf(ItemOf(root, index))| then ChildIndex(root, index, k) else 0
  }

  lemma NthStep(rows: seq<Row>, root: Item, index: nat, k: nat)
    requires Encodes(rows, root) && IsRow(root, index)
    ensures Nth(root, index, k) < |rows| && rows[Nth(root, index, k)].next == Nth(root, index, k + 1)
  {
    hide WellFormed, ItemAt, Flat, ChildrenOf, SizeAll;
    if k < |ChildrenOf(ItemOf(root, index))| { ChildLinks(rows, root, index, k); }
  }

  lemma {:induction false} NthIsInjective(root: Item, index: nat, j: nat, k: nat)
    requires WellFormed(root) && root.Node? && IsRow(root, index) && j < k && j < |ChildrenOf(ItemOf(root, index))|
    ensures Nth(root, index, j) != Nth(root, index, k)
  {
    var children := ChildrenOf(ItemOf(root, index));
    hide WellFormed, ItemAt, Flat, ChildrenOf, SizeAll;
    ChildIsRow(root, index, j);
    if k < |children| {
      assert children[..k] == children[..j] + children[j..k];
      SizeAllConcat(children[..j], children[j..k]);
      SizeOfNonempty(children[j..k]);
    }
  }

  lemma SizeOfNonempty(items: seq<Item>)
    requires items != []
    ensures SizeAll(items) > 0
  {
  }

  /** The property stands where the reader looks. A mask is right unless something without a bit is written in
      front; without a mask everything in front must be there, and a missing property must be no one's place. */
  predicate WellPlaced(item: Item, order: nat)
    requires item.Node? && order < |Properties(item.members)|
  {
    var written := IsWritten(Properties(item.members)[order]);
    if item.payload.Children? then !written || Straight(item.members, order)
    else ChildrenOf(item) == [] || (written && Offset(item.members, order) == order)
  }

  /** The answer is the row of the property, the first of its rows if it is a raw list, or none if it is not written. */
  ghost predicate IsAnswer(root: Item, index: nat, order: nat, child: Option<nat>)
    requires WellFormed(root) && root.Node? && IsRow(root, index)
    requires ItemOf(root, index).Node? && order < |Properties(ItemOf(root, index).members)|
  {
    var item := ItemOf(root, index);
    if IsWritten(Properties(item.members)[order]) then child == Some(Nth(root, index, Offset(item.members, order)))
    else child.None?
  }

  /** getChildAtOrder follows as many next links as the mask ranks the property; that is the property's own row,
      or nothing if it was not written, exactly when the property is well placed. */
  method GetChildAtOrder(rows: seq<Row>, index: nat, order: nat, ghost root: Item) returns (child: Option<nat>)
    requires Encodes(rows, root) && IsRow(root, index)
    requires ItemOf(root, index).Node? && order < |Properties(ItemOf(root, index).members)|
    ensures var item := ItemOf(root, index);
      child ==
        if ChildrenOf(item) == [] || !Flagged(item, order) then None else Some(Nth(root, index, RankIn(item, order)))
    ensures IsAnswer(root, index, order, child) <==> WellPlaced(ItemOf(root, index), order)
  {
    hide WellFormed, Writable, SizeAll, ItemAt, Flat, RowOf, MissingBelow, TestBit, ChildrenOf, Properties,
      Flagged, RankIn, IsAnswer, WellPlaced, Nth;
    FewProperties(root, index);
    HasChildrenIsCorrect(rows, root, index);
    RowSaysItem(rows, root, index);
    AnswerIsRight(root, index, order);
    if !HasChildren(rows, index) {
      return None;
    }
    ChildMaskIsMask(rows, root, index, order);
    var mask := ChildMaskOf(rows[index]);
    if !TestBit(mask, order) {
      return None;
    }
    var propertyIndex := order - MissingBelow(mask, order);
    FirstNth(root, index);
    var childIndex := index + 1;
    for i := 0 to propertyIndex
      invariant childIndex == Nth(root, index, i)
    {
      NthStep(rows, root, index, i);
      childIndex := rows[childIndex].next;
    }
    child := Some(childIndex);
  }

  lemma FirstNth(root: Item, index: nat)
    requires WellFormed(root) && root.Node? && IsRow(root, index) && ChildrenOf(ItemOf(root, index)) != []
    ensures Nth(root, index, 0) == index + 1
  {
    hide WellFormed, ItemAt, ChildrenOf;
    FirstChild(root, index);
  }

  lemma PropertyWithin(item: Item, order: nat)
    requires item.Node? && order < |Properties(item.members)|
    ensures IsWritten(Properties(item.members)[order]) ==>
      Offset(item.members, order) < |ChildrenOf(item)| &&
      ChildrenOf(item)[Offset(item.members, order)] == Written(Properties(item.members)[order])[0]
  {
    PropertyIsChild(item.members, order);
    hide Properties, Offset, WrittenOf;
    var w, from := Written(Properties(item.members)[order]), Offset(item.members, order);
    if w != [] { assert WrittenOf(item.members)[from..from + |w|][0] == w[0]; }
  }

  lemma AnswerIsRight(root: Item, index: nat, order: nat)
    requires WellFormed(root) && root.Node? && IsRow(root, index)
    requires ItemOf(root, index).Node? && order < |Properties(ItemOf(root, index).members)|
    ensures var item := ItemOf(root, index);
      var child :=
        if ChildrenOf(item) == [] || !Flagged(item, order) then None else Some(Nth(root, index, RankIn(item, order)));
      IsAnswer(root, index, order, child) <==> WellPlaced(item, order)
  {
    hide WellFormed, ItemAt, ChildrenOf, Properties, Offset, Straight, Nth, IsWritten, Rank;
    var item := ItemOf(root, index);
    PropertyWithin(item, order);
    if IsWritten(Properties(item.members)[order]) {
      var at, rank := Offset(item.members, order), RankIn(item, order);
      if item.payload.Children? { RankIsOffset(item.members, order); }
      if at < rank { NthIsInjective(root, index, at, rank); }
      if rank < at { NthIsInjective(root, index, rank, at); }
    }
  }

  /** What a well-placed property is answered with. */
  lemma AnswerIsProperty(rows: seq<Row>, root: Item, index: nat, order: nat, child: nat)
    requires Encodes(rows, root) && IsRow(root, index)
    requires ItemOf(root, index).Node? && order < |Properties(ItemOf(root, index).members)|
    requires IsAnswer(root, index, order, Some(child))
    ensures IsRow(root, child) && child < |rows| && rows[child].parent == index
    ensures ItemOf(root, child) == Written(Properties(ItemOf(root, index).members)[order])[0]
  {
    PropertyWithin(ItemOf(root, index), order);
    hide WellFormed, ItemAt, ChildrenOf, Properties, Offset, Flat;
    ChildLinks(rows, root, index, Offset(ItemOf(root, index).members, order));
  }

  lemma FirstChild(root: Item, index: nat)
    requires WellFormed(root) && root.Node? && IsRow(root, index)
    ensures ChildIndex(root, index, 0) == index + 1
  {
    assert ChildrenOf(ItemOf(root, index))[..0] == [];
  }

  // ---------- visiting all children ----------

  /** The rows of the first n children, in order. */
  ghost function ChildIndices(root: Item, index: nat, n: nat): seq<nat>
    requires WellFormed(root) && root.Node? && IsRow(root, index) && n <= |ChildrenOf(ItemOf(root, index))|
  {
    if n == 0 then [] else ChildIndices(root, index, n - 1) + [ChildIndex(root, index, n - 1)]
  }

  /** The rows a visit of one child sees: a list's elements, or the list itself when there is a list visitor; a
      node itself; nothing for a JSDoc comment. */
  ghost function Seen(root: Item, child: nat, visitList: bool): seq<nat>
    requires WellFormed(root) && root.Node? && IsRow(root, child)
  {
    var item := ItemOf(root, child);
    if item.List? && !visitList then ChildIndices(root, child, |ChildrenOf(item)|)
    else if item.Node? && item.kind == JSDOC_KIND then []
    else [child]
  }

  ghost function SeenBefore(root: Item, index: nat, n: nat, visitList: bool): seq<nat>
    requires WellFormed(root) && root.Node? && IsRow(root, index) && n <= |ChildrenOf(ItemOf(root, index))|
  {
    if n == 0 then []
    else
      ChildIsRow(root, index, n - 1);
      SeenBefore(root, index, n - 1, visitList) + Seen(root, ChildIndex(root, index, n - 1), visitList)
  }

  /** All rows a complete visit of a node's children sees. */
  ghost function Visited(root: Item, index: nat, visitList: bool): seq<nat>
    requires WellFormed(root) && root.Node? && IsRow(root, index)
  {
    SeenBefore(root, index, |ChildrenOf(ItemOf(root, index))|, visitList)
  }

  /** A visit ends behind the first row at which the visitor answers. */
  function Until(s: seq<nat>, answers: nat -> bool): seq<nat> {
    if s == [] then [] else if answers(s[0]) then [s[0]] else [s[0]] + Until(s[1..], answers)
  }

  predicate Silent(s: seq<nat>, answers: nat -> bool) {
    forall x :: x in s ==> !answers(x)
  }

  lemma {:induction false} UntilConcat(a: seq<nat>, b: seq<nat>, answers: nat -> bool)
    ensures Silent(a, answers) ==> Until(a + b, answers) == a + Until(b, answers)
    ensures !Silent(a, answers) ==> Until(a + b, answers) == Until(a, answers)
  {
    if a == [] {
      assert a + b == b;
    } else {
      assert (a + b)[1..] == a[1..] + b;
      UntilConcat(a[1..], b, answers);
      assert a == [a[0]] + a[1..];
    }
  }

  lemma UntilFirst(a: seq<nat>, x: nat, b: seq<nat>, answers: nat -> bool)
    requires Silent(a, answers)
    ensures answers(x) ==> Until(a + [x] + b, answers) == a + [x]
  {
    assert a + [x] + b == a + ([x] + b);
    UntilConcat(a, [x] + b, answers);
  }

  lemma SilentUntil(a: seq<nat>, answers: nat -> bool)
    requires Silent(a, answers)
    ensures Until(a, answers) == a
  {
    UntilConcat(a, [], answers);
    assert a + [] == a;
  }

  lemma {:induction false} SeenPrefix(root: Item, index: nat, k: nat, n: nat, visitList: bool) returns (rest: seq<nat>)
    requires WellFormed(root) && root.Node? && IsRow(root, index) && k <= n <= |ChildrenOf(ItemOf(root, index))|
    ensures SeenBefore(root, index, n, visitList) == SeenBefore(root, index, k, visitList) + rest
    decreases n
  {
    hide WellFormed, Flat, ItemAt, SizeAll, ChildrenOf;
    if k == n {
      rest := [];
    } else {
      ChildIsRow(root, index, n - 1);
      var r := SeenPrefix(root, index, k, n - 1, visitList);
      rest := r + Seen(root, ChildIndex(root, index, n - 1), visitList);
    }
  }

  lemma {:induction false} IndicesPrefix(root: Item, index: nat, k: nat, n: nat) returns (rest: seq<nat>)
    requires WellFormed(root) && root.Node? && IsRow(root, index) && k <= n <= |ChildrenOf(ItemOf(root, index))|
    ensures ChildIndices(root, index, n) == ChildIndices(root, index, k) + rest
    decreases n
  {
    hide WellFormed, Flat, ItemAt, SizeAll, ChildrenOf;
    if k == n {
      rest := [];
    } else {
      var r := IndicesPrefix(root, index, k, n - 1);
      rest := r + [ChildIndex(root, index, n - 1)];
    }
  }

  /** forEachNode: a list's elements in order, until the visitor answers. */
  method ForEachNode(rows: seq<Row>, list: nat, answers: nat -> bool, ghost root: Item)
    returns (visited: seq<nat>, answered: bool)
    requires Encodes(rows, root) && IsRow(root, list) && ItemOf(root, list).List?
    ensures visited == Until(Seen(root, list, false), answers)
    ensures answered <==> !Silent(Seen(root, list, false), answers)
  {
    RowSaysItem(rows, root, list);
    hide WellFormed, Writable, SizeAll, ItemAt, Flat;
    ghost var n := |ChildrenOf(ItemOf(root, list))|;
    visited := [];
    if rows[list].data.n == 0 {
      return [], false;
    }
    FirstChild(root, list);
    var next := list + 1;
    ghost var k := 0;
    while next != 0
      invariant k <= n && next == (if k < n then ChildIndex(root, list, k) else 0)
      invariant visited == ChildIndices(root, list, k) && Silent(visited, answers)
      decreases n - k
    {
      ChildLinks(rows, root, list, k);
      ElementStep(root, list, k, answers);
      var child := next;
      visited := visited + [child];
      next := rows[child].next;
      k := k + 1;
      if answers(child) {
        return visited, true;
      }
    }
    SilentUntil(visited, answers);
    answered := false;
  }

  /** What one child contributes to a visit of all of them. */
  lemma VisitStep(root: Item, index: nat, k: nat, before: seq<nat>, answers: nat -> bool, visitList: bool)
    requires WellFormed(root) && root.Node? && IsRow(root, index) && k < |ChildrenOf(ItemOf(root, index))|
    requires before == SeenBefore(root, index, k, visitList) && Silent(before, answers)
    requires IsRow(root, ChildIndex(root, index, k))
    ensures var seen := Seen(root, ChildIndex(root, index, k), visitList);
      && SeenBefore(root, index, k + 1, visitList) == before + seen
      && (Silent(seen, answers) ==> Silent(before + seen, answers))
      && (!Silent(seen, answers) ==>
            Until(Visited(root, index, visitList), answers) == before + Until(seen, answers)
            && !Silent(Visited(root, index, visitList), answers))
  {
    hide WellFormed, Flat, ItemAt, SizeAll, ChildrenOf, Until, Seen;
    var n := |ChildrenOf(ItemOf(root, index))|;
    ChildIsRow(root, index, k);
    var seen := Seen(root, ChildIndex(root, index, k), visitList);
    var rest := SeenPrefix(root, index, k + 1, n, visitList);
    assert before + seen + rest == before + (seen + rest);
    UntilConcat(before, seen + rest, answers);
    UntilConcat(seen, rest, answers);
    if !Silent(seen, answers) {
      var x :| x in seen && answers(x);
      assert x in Visited(root, index, visitList);
    }
  }

  lemma NothingYet(root: Item, index: nat, visitList: bool)
    requires WellFormed(root) && root.Node? && IsRow(root, index)
    ensures ChildIndices(root, index, 0) == [] && SeenBefore(root, index, 0, visitList) == []
  {
  }

  /** forEachChild, with a list visitor or without. The visitors' answers are given by row. */
  method ForEachChild(rows: seq<Row>, index: nat, answers: nat -> bool, visitList: bool, ghost root: Item)
    returns (visited: seq<nat>, answered: bool)
    requires Encodes(rows, root) && IsRow(root, index)
    ensures visited == Until(Visited(root, index, visitList), answers)
    ensures answered <==> !Silent(Visited(root, index, visitList), answers)
  {
    hide WellFormed, Writable, SizeAll, ItemAt, Flat, FlatTree, ChildrenOf, RowOf, ChildIndices, SeenBefore, Until;
    HasChildrenIsCorrect(rows, root, index);
    NothingYet(root, index, visitList);
    visited := [];
    SilentUntil([], answers);
    if HasChildren(rows, index) {
      ghost var n := |ChildrenOf(ItemOf(root, index))|;
      FirstChild(root, index);
      var next := index + 1;
      ghost var k := 0;
      while true
        invariant k < n && next == ChildIndex(root, index, k)
        invariant visited == SeenBefore(root, index, k, visitList) && Silent(visited, answers)
        decreases n - k
      {
        ChildLinks(rows, root, index, k);
        RowSaysItem(rows, root, next);
        KindTest(ItemOf(root, next), rows[next]);
        VisitStep(root, index, k, visited, answers, visitList);
        var child := next;
        assert visited + [] == visited;
        if rows[child].kind == LIST_KIND {
          if visitList {
            visited := visited + [child];
            if answers(child) {
              SingleUntil(child, answers);
              return visited, true;
            }
          } else {
            var inList, found := ForEachNode(rows, child, answers, root);
            visited := visited + inList;
            if found {
              return visited, true;
            }
            SilentUntil(Seen(root, child, false), answers);
          }
        } else if rows[child].kind != JSDOC_KIND {
          visited := visited + [child];
          if answers(child) {
            SingleUntil(child, answers);
            return visited, true;
          }
        }
        next := rows[child].next;
        k := k + 1;
        if next == 0 {
          break;
        }
      }
      SilentUntil(visited, answers);
    }
    answered := false;
  }

  lemma SingleUntil(x: nat, answers: nat -> bool)
    ensures Until([x], answers) == [x]
  {
  }

  lemma KindTest(item: Item, row: Row)
    requires WellFormed(item) && row == RowOf(item, row.parent, row.next)
    ensures row.kind == LIST_KIND <==> item.List?
    ensures !item.List? ==> item.Node? && row.kind == item.kind
  {
  }

  lemma ElementStep(root: Item, list: nat, j: nat, answers: nat -> bool)
    requires WellFormed(root) && root.Node? && IsRow(root, list) && j < |ChildrenOf(ItemOf(root, list))|
    requires Silent(ChildIndices(root, list, j), answers)
    ensures var all := ChildIndices(root, list, |ChildrenOf(ItemOf(root, list))|);
      var element := ChildIndex(root, list, j);
      && ChildIndices(root, list, j + 1) == ChildIndices(root, list, j) + [element]
      && (answers(element) ==> Until(all, answers) == ChildIndices(root, list, j + 1) && !Silent(all, answers))
      && (!answers(element) ==> Silent(ChildIndices(root, list, j + 1), answers))
  {
    hide WellFormed, Flat, ItemAt, SizeAll, ChildrenOf, Until;
    var n, element := |ChildrenOf(ItemOf(root, list))|, ChildIndex(root, list, j);
    var rest := IndicesPrefix(root, list, j + 1, n);
    UntilFirst(ChildIndices(root, list, j), element, rest, answers);
    assert element in ChildIndices(root, list, n);
  }

  /** childrenIter, driven by a consumer that stops at the same answers. */
  method ChildrenIter(rows: seq<Row>, index: nat, answers: nat -> bool, ghost root: Item)
    returns (yielded: seq<nat>, stopped: bool)
    requires Encodes(rows, root) && IsRow(root, index)
    ensures yielded == Until(Visited(root, index, false), answers)
    ensures stopped <==> !Silent(Visited(root, index, false), answers)
  {
    hide WellFormed, Writable, SizeAll, ItemAt, Flat, FlatTree, ChildrenOf, RowOf, ChildIndices, SeenBefore, Until;
    HasChildrenIsCorrect(rows, root, index);
    NothingYet(root, index, false);
    yielded := [];
    SilentUntil([], answers);
    if HasChildren(rows, index) {
      ghost var n := |ChildrenOf(ItemOf(root, index))|;
      FirstChild(root, index);
      var next := index + 1;
      ghost var k := 0;
      while true
        invariant k < n && next == ChildIndex(root, index, k)
        invariant yielded == SeenBefore(root, index, k, false) && Silent(yielded, answers)
        decreases n - k
      {
        ChildLinks(rows, root, index, k);
        RowSaysItem(rows, root, next);
        KindTest(ItemOf(root, next), rows[next]);
        VisitStep(root, index, k, yielded, answers, false);
        var child := next;
        ghost var before := yielded;
        assert before + [] == before;
        if rows[child].kind == LIST_KIND {
          NothingYet(root, child, false);
          LengthTest(ItemOf(root, child), rows[child]);
          if rows[child].data.n != 0 {
            ghost var m := |ChildrenOf(ItemOf(root, child))|;
            FirstChild(root, child);
            var listNext := child + 1;
            ghost var j := 0;
            while listNext != 0
              invariant j <= m && listNext == (if j < m then ChildIndex(root, child, j) else 0)
              invariant yielded == before + ChildIndices(root, child, j)
              invariant Silent(ChildIndices(root, child, j), answers)
              decreases m - j
            {
              ChildLinks(rows, root, child, j);
              ElementStep(root, child, j, answers);
              var node := listNext;
              listNext := rows[node].next;
              yielded := yielded + [node];
              if answers(node) {
                return yielded, true;
              }
              j := j + 1;
            }
          }
        } else if rows[child].kind != JSDOC_KIND {
          yielded := yielded + [child];
          if answers(child) {
            SingleUntil(child, answers);
            return yielded, true;
          }
        }
        next := rows[child].next;
        k := k + 1;
        if next == 0 {
          break;
        }
      }
      SilentUntil(yielded, answers);
    }
    stopped := false;
  }

  lemma LengthTest(item: Item, row: Row)
    requires item.List? && row == RowOf(item, row.parent, row.next)
    ensures row.data == ListLength(|ChildrenOf(item)|)
  {
  }

  // ---------- what a visit means in terms of the tree ----------

  /** What a visit of a child sees of the tree. */
  function Contents(child: Item, visitList: bool): seq<Item> {
    if child.List? then if visitList then [child] else child.nodes
    else if child.kind == JSDOC_KIND then []
    else [child]
  }

  function ContentsOf(children: seq<Item>, visitList: bool): seq<Item> {
    if children == [] then []
    else ContentsOf(children[..|children| - 1], visitList) + Contents(children[|children| - 1], visitList)
  }

  /** The same in terms of the members, in visitor order: those without a bit as well. */
  function MemberContents(members: seq<Member>, visitList: bool): seq<Item> {
    if members == [] then []
    else ContentsOf(Written(members[0].value), visitList) + MemberContents(members[1..], visitList)
  }

  ghost predicate AreRowsOf(root: Item, indices: seq<nat>, items: seq<Item>)
    requires WellFormed(root) && root.Node?
  {
    |indices| == |items| &&
    forall i :: 0 <= i < |indices| ==> IsRow(root, indices[i]) && ItemOf(root, indices[i]) == items[i]
  }

  lemma {:induction false} IndicesAreRows(root: Item, index: nat, n: nat)
    requires WellFormed(root) && root.Node? && IsRow(root, index) && n <= |ChildrenOf(ItemOf(root, index))|
    ensures AreRowsOf(root, ChildIndices(root, index, n), ChildrenOf(ItemOf(root, index))[..n])
  {
    hide WellFormed, Flat, ItemAt, SizeAll, ChildrenOf;
    if n > 0 {
      IndicesAreRows(root, index, n - 1);
      ChildIsRow(root, index, n - 1);
    }
  }

  /** What one child's rows stand for. */
  lemma SeenIsContents(root: Item, child: nat, visitList: bool)
    requires WellFormed(root) && root.Node? && IsRow(root, child)
    ensures AreRowsOf(root, Seen(root, child, visitList), Contents(ItemOf(root, child), visitList))
  {
    hide WellFormed, ItemAt, SizeAll, Flat;
    var item := ItemOf(root, child);
    if item.List? && !visitList {
      IndicesAreRows(root, child, |ChildrenOf(item)|);
      assert item.nodes[..|item.nodes|] == item.nodes;
    }
  }

  lemma RowsOfConcat(root: Item, a: seq<nat>, b: seq<nat>, x: seq<Item>, y: seq<Item>)
    requires WellFormed(root) && root.Node? && AreRowsOf(root, a, x) && AreRowsOf(root, b, y)
    ensures AreRowsOf(root, a + b, x + y)
  {
    hide WellFormed, ItemAt, SizeAll, ItemOf, IsRow;
    forall i | 0 <= i < |a + b| ensures IsRow(root, (a + b)[i]) && ItemOf(root, (a + b)[i]) == (x + y)[i] {
      if i < |a| {
        assert (a + b)[i] == a[i] && (x + y)[i] == x[i];
      } else {
        assert (a + b)[i] == b[i - |a|] && (x + y)[i] == y[i - |a|];
      }
    }
  }

  lemma {:induction false} SeenAreRows(root: Item, index: nat, n: nat, visitList: bool)
    requires WellFormed(root) && root.Node? && IsRow(root, index) && n <= |ChildrenOf(ItemOf(root, index))|
    ensures AreRowsOf(root, SeenBefore(root, index, n, visitList),
                      ContentsOf(ChildrenOf(ItemOf(root, index))[..n], visitList))
  {
    hide WellFormed, Flat, ItemAt, SizeAll, ChildrenOf, Contents, Seen, ChildIndex;
    if n > 0 {
      var children := ChildrenOf(ItemOf(root, index));
      SeenAreRows(root, index, n - 1, visitList);
      ChildIsRow(root, index, n - 1);
      assert children[..n][..n - 1] == children[..n - 1];
      var child := ChildIndex(root, index, n - 1);
      SeenIsContents(root, child, visitList);
      RowsOfConcat(root, SeenBefore(root, index, n - 1, visitList), Seen(root, child, visitList),
                   ContentsOf(children[..n - 1], visitList), Contents(children[n - 1], visitList));
    }
  }

  lemma {:induction false} ContentsOfConcat(a: seq<Item>, b: seq<Item>, visitList: bool)
    ensures ContentsOf(a + b, visitList) == ContentsOf(a, visitList) + ContentsOf(b, visitList)
  {
    hide Contents;
    if b == [] {
      assert a + b == a;
    } else {
      ContentsOfConcat(a, b[..|b| - 1], visitList);
      assert (a + b)[..|a + b| - 1] == a + b[..|b| - 1];
    }
  }

  lemma {:induction false} ContentsOfMembers(members: seq<Member>, visitList: bool)
    ensures ContentsOf(WrittenOf(members), visitList) == MemberContents(members, visitList)
  {
    hide Contents, Written;
    if members != [] {
      ContentsOfMembers(members[1..], visitList);
      ContentsOfConcat(Written(members[0].value), WrittenOf(members[1..]), visitList);
    }
  }

  lemma {:induction false} CommentsContributeNothing(jsDoc: seq<Item>, visitList: bool)
    requires forall j :: j in jsDoc ==> j.Node? && j.kind == JSDOC_KIND
    ensures ContentsOf(jsDoc, visitList) == []
  {
    if jsDoc != [] {
      CommentsContributeNothing(jsDoc[..|jsDoc| - 1], visitList);
      assert jsDoc[|jsDoc| - 1] in jsDoc;
    }
  }

  /** forEachChild and childrenIter see exactly the written members in visitor order, lists spread out unless
      there is a list visitor, and leave comments out. */
  lemma VisitedAreTheMembers(root: Item, index: nat, visitList: bool)
    requires WellFormed(root) && root.Node? && IsRow(root, index) && ItemOf(root, index).Node?
    ensures AreRowsOf(root, Visited(root, index, visitList), MemberContents(ItemOf(root, index).members, visitList))
  {
    var item := ItemOf(root, index);
    assert WellFormed(item);
    hide WellFormed, Flat, ItemAt, SizeAll, RowOf, MemberContents, ContentsOf, WrittenOf;
    var children := ChildrenOf(item);
    SeenAreRows(root, index, |children|, visitList);
    assert children[..|children|] == children;
    ContentsOfConcat(WrittenOf(item.members), item.jsDoc, visitList);
    CommentsContributeNothing(item.jsDoc, visitList);
    ContentsOfMembers(item.members, visitList);
    var c := MemberContents(item.members, visitList);
    assert c + [] == c;
  }

  // ---------- the list cursor ----------

  class RemoteNodeList {
    const rows: seq<Row>
    const index: nat
    var cursorIndex: nat
    var cursorNodeIndex: nat
    ghost const root: Item

    /** The cursor stands on the element it names. */
    ghost predicate Valid()
      reads this
    {
      && Encodes(rows, root) && IsRow(root, index) && ItemOf(root, index).List?
      && (Elements() > 0 ==> cursorIndex < Elements() && cursorNodeIndex == ChildIndex(root, index, cursorIndex))
    }

    ghost function Elements(): nat
      requires Encodes(rows, root) && IsRow(root, index)
    {
      |ChildrenOf(ItemOf(root, index))|
    }

    constructor (rows: seq<Row>, index: nat, ghost root: Item)
      requires Encodes(rows, root) && IsRow(root, index) && ItemOf(root, index).List?
      ensures Valid() && this.rows == rows && this.index == index && this.root == root && cursorIndex == 0
    {
      this.rows, this.index, this.root := rows, index, root;
      cursorIndex, cursorNodeIndex := 0, index + 1;
      FirstChild(root, index);
    }

    /** The uncached answer: counted from the front, or from the back when negative. */
    ghost function Element(i: int): Option<nat>
      requires Encodes(rows, root) && IsRow(root, index)
    {
      if i < 0 && 0 <= i + Elements() then Some(ChildIndex(root, index, i + Elements()))
      else if 0 <= i < Elements() then Some(ChildIndex(root, index, i))
      else None
    }

    /** `steps` counts the next links followed. */
    method At(i: int) returns (child: Option<nat>, steps: nat)
      requires Valid()
      modifies this
      ensures Valid()
      ensures child == Element(i)
      ensures child.None? ==> steps == 0 && cursorIndex == old(cursorIndex)
      ensures child.Some? ==> cursorIndex == (if i < 0 then Elements() + i else i)
      ensures child.Some? ==>
        steps == if cursorIndex >= old(cursorIndex) then cursorIndex - old(cursorIndex) else cursorIndex
    {
      hide WellFormed, Writable, SizeAll, ItemAt, Flat, FlatTree, ChildrenOf, RowOf;
      RowSaysItem(rows, root, index);
      LengthTest(ItemOf(root, index), rows[index]);
      var length := rows[index].data.n;
      if i >= length || (i < 0 && -i > length) {
        return None, 0;
      }
      var at: int := if i < 0 then i + length else i;
      var k, next;
      if at >= cursorIndex {
        k, next := cursorIndex, cursorNodeIndex;
      } else {
        FirstChild(root, index);
        k, next := 0, index + 1;
      }
      steps := 0;
      ghost var from := k;
      while k < at
        invariant k <= at && next == ChildIndex(root, index, k) && steps == k - from
      {
        ChildLinks(rows, root, index, k);
        next := rows[next].next;
        k := k + 1;
        steps := steps + 1;
      }
      cursorIndex := at;
      cursorNodeIndex := next;
      child := Some(next);
    }
  }

  /** Any sequence of accesses answers as if every one walked from the head. */
  method Accesses(rows: seq<Row>, index: nat, at: seq<int>, ghost root: Item) returns (children: seq<Option<nat>>)
    requires Encodes(rows, root) && IsRow(root, index) && ItemOf(root, index).List?
    ensures |children| == |at|
    ensures var n := |ChildrenOf(ItemOf(root, index))|;
      forall j :: 0 <= j < |at| ==>
        children[j] == if at[j] < 0 && 0 <= at[j] + n then Some(ChildIndex(root, index, at[j] + n))
                       else if 0 <= at[j] < n then Some(ChildIndex(root, index, at[j]))
                       else None
  {
    hide WellFormed, Writable, SizeAll, ItemAt, Flat, ChildrenOf, RowOf;
    var list := new RemoteNodeList(rows, index, root);
    children := [];
    for j := 0 to |at|
      invariant list.Valid() && fresh(list) && list.rows == rows && list.index == index && list.root == root
      invariant |children| == j
      invariant forall i :: 0 <= i < j ==> children[i] == list.Element(at[i])
    {
      var child, _ := list.At(at[j]);
      children := children + [child];
    }
  }

  /** A full pass in order over n > 0 elements follows n - 1 links in all. */
  method FullPass(rows: seq<Row>, index: nat, ghost root: Item) returns (children: seq<nat>, steps: nat)
    requires Encodes(rows, root) && IsRow(root, index) && ItemOf(root, index).List?
    ensures var n := |ChildrenOf(ItemOf(root, index))|;
      children == ChildIndices(root, index, n) && steps == if n == 0 then 0 else n - 1
  {
    hide WellFormed, Writable, SizeAll, ItemAt, Flat, FlatTree, ChildrenOf, RowOf;
    RowSaysItem(rows, root, index);
    LengthTest(ItemOf(root, index), rows[index]);
    var list := new RemoteNodeList(rows, index, root);
    var n := rows[index].data.n;
    children, steps := [], 0;
    for j := 0 to n
      invariant list.Valid() && fresh(list) && list.rows == rows && list.index == index && list.root == root
      invariant children == ChildIndices(root, index, j)
      invariant steps == list.cursorIndex == if j == 0 then 0 else j - 1
    {
      var child, followed := list.At(j);
      children := children + [child.value];
      steps := steps + followed;
    }
  }
}

/** encodeTree: one pass over the tree that patches next links behind itself. */
module FlatEncoder {
  import opened FlatAst

  /** Sets the next link of a row. */
  function Link(rows: seq<Row>, at: nat, next: nat): seq<Row>
    requires at < |rows|
  {
    rows[at := rows[at].(next := next)]
  }

  /** The offset of the last of these siblings in their rows. */
  function LastOffset(items: seq<Item>): nat
    requires items != []
  {
    SizeAll(items[..|items| - 1])
  }

  /** Siblings' rows after one more sibling has been announced at row `next`. */
  ghost function LinkLast(items: seq<Item>, base: nat, parent: nat, next: nat): (rows: seq<Row>)
    requires Writable(items)
    ensures |rows| == SizeAll(items)
  {
    if items == [] then []
    else
      SizeOfPrefix(items, |items| - 1);
      Link(Flat(items, base, parent), LastOffset(items), next)
  }

  lemma WritableAppend(items: seq<Item>, x: Item)
    ensures Writable(items + [x]) <==> Writable(items) && WellFormed(x)
    ensures SizeAll(items + [x]) == SizeAll(items) + Size(x)
  {
    hide WellFormed;
    assert x in items + [x];
    SizeAllConcat(items, [x]);
    assert SizeAll([x]) == Size(x);
  }

  lemma FlatOne(x: Item, base: nat, parent: nat)
    requires WellFormed(x)
    ensures Writable([x]) && Writable(ChildrenOf(x))
    ensures Flat([x], base, parent) == [RowOf(x, parent, 0)] + Flat(ChildrenOf(x), base + 1, base)
  {
    hide WellFormed;
    assert [x][1..] == [];
    FlatParts([x], base, parent);
    NoRows(base + Size(x), parent);
    var rows := Flat([x], base, parent);
    assert rows == [rows[0]] + rows[1..Size(x)];
  }

  /** Writing one more sibling: the last one is linked to it and its rows are appended. */
  lemma {:induction false} FlatSnoc(items: seq<Item>, x: Item, base: nat, parent: nat)
    requires Writable(items) && WellFormed(x)
    ensures Writable(items + [x]) && Writable([x])
    ensures var at := base + SizeAll(items);
      Flat(items + [x], base, parent) == LinkLast(items, base, parent, at) + Flat([x], at, parent)
  {
    hide Flat, WellFormed, Writable, RowOf, Size, SizeAll, ItemAt, ChildrenOf;
    WritableAppend(items, x);
    FlatOne(x, base, parent);
    if items == [] {
      NoRows(base, parent);
      assert items + [x] == [x];
    } else {
      SplitFirst(items);
      FlatSnoc(items[1..], x, base + Size(items[0]), parent);
      SnocStep(items, x, base, parent);
    }
  }

  lemma SnocStep(items: seq<Item>, x: Item, base: nat, parent: nat)
    requires items != [] && Writable(items) && Writable(items + [x]) && Writable([x])
    requires Writable(items[1..]) && Writable(items[1..] + [x])
    requires var at := base + SizeAll(items);
      Flat(items[1..] + [x], base + Size(items[0]), parent) ==
        LinkLast(items[1..], base + Size(items[0]), parent, at) + Flat([x], at, parent)
    ensures var at := base + SizeAll(items);
      Flat(items + [x], base, parent) == LinkLast(items, base, parent, at) + Flat([x], at, parent)
  {
    hide Flat, WellFormed, Writable, Size, SizeAll, ItemAt, ChildrenOf, Link, Mask;
    FlatParts(items, base, parent);
    FlatParts(items + [x], base, parent);
    assert (items + [x])[0] == items[0] && (items + [x])[1..] == items[1..] + [x];
    var n, at := Size(items[0]), base + SizeAll(items);
    var rows, rows' := Flat(items, base, parent), Flat(items + [x], base, parent);
    var rest := Flat(items[1..], base + n, parent);
    NoRows(base + n, parent);
    HeadAndTail(rows, n);
    HeadAndTail(rows', n);
    if items[1..] == [] {
      SizeOfPrefix(items, 0);
      assert items[..|items| - 1] == items[..0];
      assert rows == rows[..n];
      RelinkedHead(rows, rows', at);
    } else {
      SizeOfPrefix(items, |items| - 1);
      SizeOfPrefix(items[1..], |items| - 2);
      assert items[1..][..|items| - 2] == items[..|items| - 1][1..];
      assert rows'[..n] == rows[..n];
      LinkInTail(rows[..n], rest, LastOffset(items[1..]), at, Flat([x], at, parent));
    }
  }

  lemma HeadAndTail(rows: seq<Row>, n: nat)
    requires 0 < n <= |rows|
    ensures rows == rows[..n] + rows[n..] && rows[..n] == [rows[0]] + rows[1..n]
  {
  }

  lemma RelinkedHead(rows: seq<Row>, rows': seq<Row>, next: nat)
    requires 0 < |rows| <= |rows'| && rows'[0] == rows[0].(next := next) && rows'[1..|rows|] == rows[1..|rows|]
    ensures rows'[..|rows|] == Link(rows, 0, next)
  {
    HeadAndTail(rows', |rows|);
    HeadAndTail(rows, |rows|);
  }

  lemma LinkInTail(a: seq<Row>, b: seq<Row>, at: nat, next: nat, tail: seq<Row>)
    requires at < |b|
    ensures Link(a + b, |a| + at, next) + tail == a + (Link(b, at, next) + tail)
  {
  }

  lemma PartsSmaller(item: Item)
    ensures item.Node? ==> forall m :: m in item.members ==> SizeOfMember(m) < Size(item)
    ensures item.Node? ==> forall j :: j in item.jsDoc ==> Size(j) < Size(item)
    ensures item.List? ==> forall x :: x in item.nodes ==> Size(x) < Size(item)
  {
    if item.Node? {
      SizesOfMembers(item.members);
      SizesOfAll(item.jsDoc);
    } else {
      SizesOfAll(item.nodes);
    }
  }

  lemma {:induction false} SizesOfAll(items: seq<Item>)
    ensures forall x :: x in items ==> Size(x) <= SizeAll(items)
  {
    if items != [] {
      SizesOfAll(items[1..]);
      assert items == [items[0]] + items[1..];
    }
  }

  lemma {:induction false} SizesOfMembers(members: seq<Member>)
    ensures forall m :: m in members ==> SizeOfMember(m) <= SizeOfMembers(members)
  {
    hide SizeOfMember;
    if members != [] {
      SizesOfMembers(members[1..]);
      assert members == [members[0]] + members[1..];
    }
  }

  lemma {:induction false} WrittenOfConcat(a: seq<Member>, b: seq<Member>)
    ensures WrittenOf(a + b) == WrittenOf(a) + WrittenOf(b)
  {
    hide Written;
    if a == [] {
      assert a + b == b;
    } else {
      assert (a + b)[1..] == a[1..] + b && (a + b)[0] == a[0];
      WrittenOfConcat(a[1..], b);
      assert Written(a[0].value) + (WrittenOf(a[1..]) + WrittenOf(b)) ==
        (Written(a[0].value) + WrittenOf(a[1..])) + WrittenOf(b);
    }
  }

  lemma WrittenOfAppend(members: seq<Member>, m: Member)
    ensures WrittenOf(members + [m]) == WrittenOf(members) + Written(m.value)
  {
    hide Written;
    WrittenOfConcat(members, [m]);
    assert [m][1..] == [];
    assert Written(m.value) + [] == Written(m.value);
  }

  class Encoder {
    var nodeCount: nat
    var parentIndex: nat
    var prevIndex: nat
    var nodes: seq<Row>

    /** Since `start`, exactly the rows of `done` have been written under the current parent. */
    ghost predicate Wrote(start: seq<Row>, done: seq<Item>)
      reads this
    {
      && start != [] && Writable(done)
      && nodeCount + 1 == |nodes|
      && nodes == start + Flat(done, |start|, parentIndex)
      && prevIndex == if done == [] then 0 else |start| + LastOffset(done)
    }

    constructor ()
      ensures Wrote([NIL_ROW], []) && parentIndex == 0
    {
      nodeCount, parentIndex, prevIndex := 0, 0, 0;
      nodes := [NIL_ROW];
    }

    /** One more row: the previous sibling, if any, is linked to it. */
    method Append(item: Item, ghost start: seq<Row>, ghost done: seq<Item>)
      requires Wrote(start, done) && WellFormed(item)
      modifies this`nodeCount, this`nodes
      ensures nodeCount == old(nodeCount) + 1 && |nodes| == nodeCount + 1
      ensures nodeCount == |start| + SizeAll(done)
      ensures nodes == start + LinkLast(done, |start|, parentIndex, nodeCount) + [RowOf(item, parentIndex, 0)]
    {
      hide Flat, WellFormed, Writable, RowOf, Size, SizeAll, ItemAt, ChildrenOf;
      nodeCount := nodeCount + 1;
      if prevIndex != 0 {
        SizeOfPrefix(done, |done| - 1);
        nodes := Link(nodes, prevIndex, nodeCount);
      } else {
        NoRows(|start|, parentIndex);
      }
      nodes := nodes + [RowOf(item, parentIndex, 0)];
    }

    /** visitor.Visit on a node and the VisitNodes hook on a list do the same to the buffer. */
    method Visit(item: Item, ghost start: seq<Row>, ghost done: seq<Item>)
      requires Wrote(start, done) && WellFormed(item)
      modifies this
      ensures parentIndex == old(parentIndex) && Wrote(start, done + [item])
      decreases Size(item), 4
    {
      hide Flat, WellFormed, Writable, RowOf, Size, SizeAll, ItemAt, ChildrenOf;
      Append(item, start, done);
      var saveParentIndex, currentIndex := parentIndex, nodeCount;
      prevIndex := 0;
      parentIndex := currentIndex;
      NoRows(nodeCount + 1, currentIndex);
      ghost var before := nodes;
      VisitChildren(item, before);
      prevIndex := currentIndex;
      parentIndex := saveParentIndex;
      FlatOne(item, currentIndex, parentIndex);
      FlatSnoc(done, item, |start|, parentIndex);
      assert (done + [item])[..|done|] == done;
      assert nodes ==
        start + (LinkLast(done, |start|, parentIndex, currentIndex) + Flat([item], currentIndex, parentIndex));
    }

    /** VisitEachChild, and then the JSDoc comments; or the elements of a list. */
    method VisitChildren(item: Item, ghost start: seq<Row>)
      requires Wrote(start, []) && WellFormed(item)
      modifies this
      ensures parentIndex == old(parentIndex) && Wrote(start, ChildrenOf(item))
      decreases Size(item), 3
    {
      PartsSmaller(item);
      PartsWellFormed(item);
      hide Flat, Writable, WellFormed, WellFormedMember, RowOf, Size, SizeAll, SizeOfMember, WrittenOf;
      if item.List? {
        VisitSlice(item.nodes, start, [], Size(item));
        assert [] + item.nodes == item.nodes;
      } else {
        VisitMembers(item.members, start, Size(item));
        VisitSlice(item.jsDoc, start, WrittenOf(item.members), Size(item));
      }
    }

    method VisitSlice(items: seq<Item>, ghost start: seq<Row>, ghost done: seq<Item>, ghost bound: nat)
      requires Wrote(start, done)
      requires forall x :: x in items ==> Size(x) < bound && WellFormed(x)
      modifies this
      ensures parentIndex == old(parentIndex) && Wrote(start, done + items)
      decreases bound, 0
    {
      hide WellFormed, Size, Wrote;
      assert done + items[..0] == done;
      for i := 0 to |items|
        invariant parentIndex == old(parentIndex) && Wrote(start, done + items[..i])
      {
        Visit(items[i], start, done + items[..i]);
        assert done + items[..i] + [items[i]] == done + items[..i + 1];
      }
      assert items[..|items|] == items;
    }

    /** The generated VisitEachChild: members in order, raw lists node by node. */
    method VisitMembers(members: seq<Member>, ghost start: seq<Row>, ghost bound: nat)
      requires Wrote(start, [])
      requires forall m :: m in members ==> SizeOfMember(m) < bound && WellFormedMember(m)
      modifies this
      ensures parentIndex == old(parentIndex) && Wrote(start, WrittenOf(members))
      decreases bound, 2
    {
      hide WellFormed, Wrote, WrittenOf, WellFormedMember, SizeOfMember, Written;
      NoneWritten(members[..0]);
      for i := 0 to |members|
        invariant parentIndex == old(parentIndex) && Wrote(start, WrittenOf(members[..i]))
      {
        assert members[..i + 1] == members[..i] + [members[i]];
        WrittenOfAppend(members[..i], members[i]);
        VisitMember(members[i], start, WrittenOf(members[..i]), bound);
      }
      assert members[..|members|] == members;
    }

    method VisitMember(m: Member, ghost start: seq<Row>, ghost done: seq<Item>, ghost bound: nat)
      requires Wrote(start, done) && SizeOfMember(m) < bound && WellFormedMember(m)
      modifies this
      ensures parentIndex == old(parentIndex) && Wrote(start, done + Written(m.value))
      decreases bound, 1
    {
      hide WellFormed, Wrote, Size;
      match m.value
      case Nil =>
        assert done + [] == done;
      case One(x) =>
        if x.Node? || !x.modifiers || x.nodes != [] {
          Visit(x, start, done);
        } else {
          assert done + [] == done;
        }
      case Raw(xs) =>
        SizesOfAll(xs);
        VisitSlice(xs, start, done, bound);
    }
  }

  lemma NoneWritten(members: seq<Member>)
    requires members == []
    ensures WrittenOf(members) == []
  {
  }

  lemma PartsWellFormed(item: Item)
    requires WellFormed(item)
    ensures item.Node? ==> forall m :: m in item.members ==> WellFormedMember(m)
    ensures item.Node? ==> forall j :: j in item.jsDoc ==> WellFormed(j)
    ensures item.List? ==> forall x :: x in item.nodes ==> WellFormed(x)
  {
  }

  /** The writer produces the preorder form of the tree. */
  method EncodeTree(root: Item) returns (nodes: seq<Row>)
    requires WellFormed(root) && root.Node?
    ensures Encodes(nodes, root)
  {
    var e := new Encoder();
    e.Visit(root, [NIL_ROW], []);
    assert [] + [root] == [root];
    nodes := e.nodes;
  }
}

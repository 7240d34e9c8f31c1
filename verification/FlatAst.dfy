/** The flat form of a syntax tree: preorder rows with next and parent links
    (tsc/internal/api/encoder/encoder.go). */
module FlatAst {

  const LIST_KIND: nat := 0xFFFF_FFFF
  const JSDOC_KIND: nat := 315

  /** What a node's data word carries besides a child mask, by the type of the data. */
  datatype Payload = Children(common: nat) | Text(word: nat) | Extended(word: nat)

  datatype Item =
    | Node(kind: nat, pos: int, end: int, flags: nat, payload: Payload, members: seq<Member>, jsDoc: seq<Item>)
    | List(pos: int, end: int, modifiers: bool, nodes: seq<Item>)

  /** A child member in visitor order. Encoded members have a bit in the child mask and a property name in the
      reader; the others are visited, and so written, without either. */
  datatype Member = Member(encoded: bool, value: Value)

  /** A raw list is a slice of nodes that are visited one by one, without a list of their own. */
  datatype Value = Nil | One(item: Item) | Raw(items: seq<Item>)

  /** The rows' items of a member: nothing for nil or a modifier list without modifiers. */
  function Written(v: Value): seq<Item> {
    match v
    case Nil => []
    case One(x) => if x.List? && x.modifiers && x.nodes == [] then [] else [x]
    case Raw(xs) => xs
  }

  function WrittenOf(members: seq<Member>): seq<Item> {
    if members == [] then [] else Written(members[0].value) + WrittenOf(members[1..])
  }

  /** The encoded members: bit i and property name i are those of the i-th. */
  function Properties(members: seq<Member>): seq<Value> {
    if members == [] then []
    else if members[0].encoded then [members[0].value] + Properties(members[1..])
    else Properties(members[1..])
  }

  /** The children in the order they are written: the members, then the JSDoc comments. */
  function ChildrenOf(item: Item): seq<Item> {
    match item
    case Node(_, _, _, _, _, members, jsDoc) => WrittenOf(members) + jsDoc
    case List(_, _, _, nodes) => nodes
  }

  function Size(item: Item): (n: nat)
    ensures n > 0
    decreases item
  {
    match item
    case Node(_, _, _, _, _, members, jsDoc) => 1 + SizeOfMembers(members) + SizeAll(jsDoc)
    case List(_, _, _, nodes) => 1 + SizeAll(nodes)
  }

  function SizeAll(items: seq<Item>): nat
    decreases items
  {
    if items == [] then 0 else Size(items[0]) + SizeAll(items[1..])
  }

  function SizeOfMembers(members: seq<Member>): nat
    decreases members
  {
    if members == [] then 0 else SizeOfMember(members[0]) + SizeOfMembers(members[1..])
  }

  function SizeOfMember(m: Member): nat
    decreases m
  {
    match m.value
    case Nil => 0
    case One(x) => if Written(m.value) == [] then 0 else Size(x)
    case Raw(xs) => SizeAll(xs)
  }

  /** Trees as the parser builds them: lists of nodes, members without a bit are nodes, at most eight members
      with one, and JSDoc comments are of that kind. */
  ghost predicate WellFormed(item: Item) {
    match item
    case Node(kind, _, _, _, _, members, jsDoc) =>
      && kind != LIST_KIND
      && |Properties(members)| <= 8
      && (forall m :: m in members ==> WellFormedMember(m))
      && (forall j :: j in jsDoc ==> WellFormed(j) && j.Node? && j.kind == JSDOC_KIND)
    case List(_, _, _, nodes) =>
      forall n :: n in nodes ==> WellFormed(n) && n.Node?
  }

  ghost predicate WellFormedMember(m: Member) {
    match m.value
    case Nil => true
    case One(x) => WellFormed(x) && (m.encoded || x.Node?)
    case Raw(xs) => m.encoded && forall x :: x in xs ==> WellFormed(x) && x.Node?
  }

  ghost predicate Writable(items: seq<Item>) {
    forall x :: x in items ==> WellFormed(x)
  }

  lemma {:induction false} SizeAllConcat(a: seq<Item>, b: seq<Item>)
    ensures SizeAll(a + b) == SizeAll(a) + SizeAll(b)
  {
    if a == [] {
      assert a + b == b;
    } else {
      assert (a + b)[1..] == a[1..] + b;
      SizeAllConcat(a[1..], b);
    }
  }

  lemma {:induction false} SizeOfWritten(members: seq<Member>)
    ensures SizeAll(WrittenOf(members)) == SizeOfMembers(members)
  {
    if members != [] {
      var v := members[0].value;
      SizeOfWritten(members[1..]);
      SizeAllConcat(Written(v), WrittenOf(members[1..]));
      if v.One? { assert Written(v) != [] ==> SizeAll([v.item]) == Size(v.item); }
    }
  }

  lemma ChildrenSize(item: Item)
    ensures SizeAll(ChildrenOf(item)) == Size(item) - 1
  {
    if item.Node? {
      SizeOfWritten(item.members);
      SizeAllConcat(WrittenOf(item.members), item.jsDoc);
    }
  }

  lemma {:induction false} WrittenWritable(members: seq<Member>)
    requires forall m :: m in members ==> WellFormedMember(m)
    ensures Writable(WrittenOf(members))
  {
    if members != [] {
      assert WellFormedMember(members[0]);
      WrittenWritable(members[1..]);
    }
  }

  lemma ChildrenWritable(item: Item)
    requires WellFormed(item)
    ensures Writable(ChildrenOf(item))
  {
    if item.Node? { WrittenWritable(item.members); }
  }

  // ---------- rows ----------

  datatype RowData =
    | ListLength(n: nat) | NodeData(common: nat, mask: bv8) | TextData(word: nat) | ExtendedData(word: nat)

  datatype Row = Row(kind: nat, pos: int, end: int, next: nat, parent: nat, data: RowData, flags: nat)

  const NIL_ROW := Row(0, 0, 0, 0, 0, NodeData(0, 0), 0)

  function BoolToByte(properties: seq<Value>, i: nat, bit: bv8): bv8 {
    if i < |properties| && Written(properties[i]) != [] then bit else 0
  }

  /** getChildrenPropertyMask: bit i is set when property i is written. */
  function Mask(properties: seq<Value>): bv8 {
    BoolToByte(properties, 0, 0x01) | BoolToByte(properties, 1, 0x02) | BoolToByte(properties, 2, 0x04) |
    BoolToByte(properties, 3, 0x08) | BoolToByte(properties, 4, 0x10) | BoolToByte(properties, 5, 0x20) |
    BoolToByte(properties, 6, 0x40) | BoolToByte(properties, 7, 0x80)
  }

  predicate HasTrailingComma(list: Item)
    requires list.List?
  {
    list.nodes != [] && list.nodes[|list.nodes| - 1].end < list.end
  }

  function RowOf(item: Item, parent: nat, next: nat): (row: Row)
    ensures row.parent == parent && row.next == next
  {
    if item.List? then
      Row(LIST_KIND, item.pos, item.end, next, parent, ListLength(|item.nodes|),
          if HasTrailingComma(item) then 1 else 0)
    else
      Row(item.kind, item.pos, item.end, next, parent,
          match item.payload
          case Children(common) => NodeData(common, Mask(Properties(item.members)))
          case Text(word) => TextData(word)
          case Extended(word) => ExtendedData(word),
          item.flags)
  }

  /** What a list's row says of it: how many nodes it has, and in its flags whether it ends behind the last of them. */
  lemma ListRow(list: Item, parent: nat, next: nat)
    requires list.List?
    ensures var row := RowOf(list, parent, next);
      && row.kind == LIST_KIND && row.pos == list.pos && row.end == list.end && row.data == ListLength(|list.nodes|)
      && row.flags <= 1
      && (row.flags == 1 <==> exists init, last :: list.nodes == init + [last] && last.end < list.end)
  {
    var nodes := list.nodes;
    if nodes != [] { assert nodes == nodes[..|nodes| - 1] + [nodes[|nodes| - 1]]; }
  }

  /** The rows of siblings written from row `base` on under `parent`. */
  function Flat(items: seq<Item>, base: nat, parent: nat): (rows: seq<Row>)
    requires Writable(items)
    ensures |rows| == SizeAll(items)
    decreases SizeAll(items)
  {
    if items == [] then []
    else
      var item := items[0];
      ChildrenSize(item);
      ChildrenWritable(item);
      var after := base + Size(item);
      [RowOf(item, parent, if |items| == 1 then 0 else after)]
        + Flat(ChildrenOf(item), base + 1, base)
        + Flat(items[1..], after, parent)
  }

  /** The whole nodes section: the nil row, then the tree. */
  function FlatTree(root: Item): seq<Row>
    requires WellFormed(root) && root.Node?
  {
    [NIL_ROW] + Flat([root], 1, 0)
  }

  // ---------- where things are ----------

  /** The item whose row is the one at offset `off` in the rows of these siblings. */
  ghost function ItemAt(items: seq<Item>, off: nat): (item: Item)
    requires Writable(items) && off < SizeAll(items)
    ensures WellFormed(item)
    decreases SizeAll(items)
  {
    ChildrenSize(items[0]);
    ChildrenWritable(items[0]);
    if off == 0 then items[0]
    else if off < Size(items[0]) then ItemAt(ChildrenOf(items[0]), off - 1)
    else ItemAt(items[1..], off - Size(items[0]))
  }

  ghost predicate HoldsAt(rows: seq<Row>, at: nat, part: seq<Row>) {
    at + |part| <= |rows| && rows[at..at + |part|] == part
  }

  lemma SplitFirst(items: seq<Item>)
    requires Writable(items) && items != []
    ensures WellFormed(items[0])
    ensures Writable(ChildrenOf(items[0])) && Writable(items[1..])
    ensures SizeAll(ChildrenOf(items[0])) == Size(items[0]) - 1
    ensures Size(items[0]) + SizeAll(items[1..]) == SizeAll(items)
    ensures items[1..] == [] <==> SizeAll(items[1..]) == 0
  {
    ChildrenSize(items[0]);
    ChildrenWritable(items[0]);
  }

  lemma ItemAtParts(items: seq<Item>, off: nat)
    requires Writable(items) && off < SizeAll(items)
    ensures items != [] && Writable(ChildrenOf(items[0])) && Writable(items[1..])
    ensures SizeAll(ChildrenOf(items[0])) == Size(items[0]) - 1
    ensures Size(items[0]) + SizeAll(items[1..]) == SizeAll(items)
    ensures off == 0 ==> ItemAt(items, off) == items[0]
    ensures 0 < off < Size(items[0]) ==> ItemAt(items, off) == ItemAt(ChildrenOf(items[0]), off - 1)
    ensures Size(items[0]) <= off ==> ItemAt(items, off) == ItemAt(items[1..], off - Size(items[0]))
  {
    hide WellFormed;
    SplitFirst(items);
  }

  lemma FlatParts(items: seq<Item>, base: nat, parent: nat)
    requires Writable(items) && items != []
    ensures Writable(ChildrenOf(items[0])) && Writable(items[1..])
    ensures SizeAll(ChildrenOf(items[0])) == Size(items[0]) - 1
    ensures var rows, n := Flat(items, base, parent), Size(items[0]);
      && |rows| == SizeAll(items) && n + SizeAll(items[1..]) == SizeAll(items)
      && rows[0] == RowOf(items[0], parent, if |items| == 1 then 0 else base + n)
      && rows[1..n] == Flat(ChildrenOf(items[0]), base + 1, base)
      && rows[n..] == Flat(items[1..], base + n, parent)
  {
    hide WellFormed, Writable, Size, SizeAll, ChildrenOf, RowOf, WrittenOf;
    SplitFirst(items);
    var n := Size(items[0]);
    var r := RowOf(items[0], parent, if |items| == 1 then 0 else base + n);
    ThreeParts(r, Flat(ChildrenOf(items[0]), base + 1, base), Flat(items[1..], base + n, parent));
  }

  lemma ThreeParts(r: Row, a: seq<Row>, b: seq<Row>)
    ensures var rows := [r] + a + b;
      rows[0] == r && rows[1..1 + |a|] == a && rows[1 + |a|..] == b
  {
  }

  lemma HoldsInPart(rows: seq<Row>, from: nat, to: nat, at: nat, part: seq<Row>)
    requires from <= to <= |rows| && HoldsAt(rows[from..to], at, part)
    ensures HoldsAt(rows, from + at, part)
  {
    var n := |part|;
    forall k | 0 <= k < n ensures rows[from + at..from + at + n][k] == part[k] {
      assert rows[from..to][at..at + n][k] == rows[from..to][at + k] == rows[from + at + k];
    }
  }

  /** The row at offset `off` is its item's, and the rows of its children follow. */
  lemma {:induction false} Locate(items: seq<Item>, base: nat, parent: nat, off: nat)
    requires Writable(items) && off < SizeAll(items)
    ensures Writable(ChildrenOf(ItemAt(items, off)))
    ensures var rows, item := Flat(items, base, parent), ItemAt(items, off);
      && rows[off] == RowOf(item, rows[off].parent, rows[off].next)
      && HoldsAt(rows, off + 1, Flat(ChildrenOf(item), base + off + 1, base + off))
    decreases SizeAll(items)
  {
    hide Flat, WellFormed, Writable, RowOf, Size, SizeAll, ItemAt, ChildrenOf;
    ItemAtParts(items, off);
    FlatParts(items, base, parent);
    var rows, n := Flat(items, base, parent), Size(items[0]);
    if off == 0 {
      assert rows[1..n][0..n - 1] == rows[1..n];
      HoldsInPart(rows, 1, n, 0, Flat(ChildrenOf(items[0]), base + 1, base));
    } else if off < n {
      Locate(ChildrenOf(items[0]), base + 1, base, off - 1);
      assert rows[1..n][off - 1] == rows[off];
      HoldsInPart(rows, 1, n, off, Flat(ChildrenOf(ItemAt(items, off)), base + off + 1, base + off));
    } else {
      Locate(items[1..], base + n, parent, off - n);
      assert rows[n..][off - n] == rows[off];
      assert rows[n..] == rows[n..|rows|];
      HoldsInPart(rows, n, |rows|, off - n + 1, Flat(ChildrenOf(ItemAt(items, off)), base + off + 1, base + off));
    }
  }

  lemma {:induction false} ItemBelow(items: seq<Item>, off: nat, k: nat)
    requires Writable(items) && off < SizeAll(items)
    requires Writable(ChildrenOf(ItemAt(items, off))) && k < SizeAll(ChildrenOf(ItemAt(items, off)))
    ensures off + 1 + k < SizeAll(items)
    ensures ItemAt(items, off + 1 + k) == ItemAt(ChildrenOf(ItemAt(items, off)), k)
    decreases SizeAll(items)
  {
    hide Flat, WellFormed, Writable, RowOf, Size, SizeAll, ItemAt, ChildrenOf;
    ItemAtParts(items, off);
    if off == 0 {
    } else if off < Size(items[0]) {
      ItemBelow(ChildrenOf(items[0]), off - 1, k);
    } else {
      ItemBelow(items[1..], off - Size(items[0]), k);
    }
    ItemAtParts(items, off + 1 + k);
  }

  lemma LastRowIsLeaf(items: seq<Item>)
    requires Writable(items) && items != []
    ensures SizeAll(items) > 0 && ChildrenOf(ItemAt(items, SizeAll(items) - 1)) == []
  {
    hide Flat, WellFormed, Writable, RowOf, Size, SizeAll, ItemAt, ChildrenOf;
    SplitFirst(items);
    var item := ItemAt(items, SizeAll(items) - 1);
    Locate(items, 1, 0, SizeAll(items) - 1);
    if ChildrenOf(item) != [] { SplitFirst(ChildrenOf(item)); }
  }

  lemma FirstRowParent(items: seq<Item>, base: nat, parent: nat)
    requires Writable(items) && items != []
    ensures SizeAll(items) > 0 && Flat(items, base, parent)[0].parent == parent
  {
    hide Flat, WellFormed, Writable, RowOf, Size, SizeAll, ItemAt, ChildrenOf;
    FlatParts(items, base, parent);
  }

  /** The row behind a row has it as parent exactly when it has children. */
  lemma {:induction false} NextRowParent(items: seq<Item>, base: nat, parent: nat, off: nat)
    requires Writable(items) && parent < base && off < SizeAll(items)
    ensures off + 1 < SizeAll(items) ==>
      (Flat(items, base, parent)[off + 1].parent == base + off <==> ChildrenOf(ItemAt(items, off)) != [])
    decreases SizeAll(items)
  {
    hide Flat, WellFormed, Writable, RowOf, Size, SizeAll, ItemAt, ChildrenOf;
    ItemAtParts(items, off);
    FlatParts(items, base, parent);
    var rows, n, children := Flat(items, base, parent), Size(items[0]), ChildrenOf(items[0]);
    if off + 1 < n {
      assert rows[1..n][off] == rows[off + 1];
      if off > 0 {
        NextRowParent(children, base + 1, base, off - 1);
      } else {
        NoRows(base + 1, base);
        FirstRowParent(children, base + 1, base);
      }
    } else if off + 1 == n {
      NoRows(base, parent);
      if children != [] { LastRowIsLeaf(children); }
      if off + 1 < SizeAll(items) {
        FirstRowParent(items[1..], base + n, parent);
        assert rows[n..][0] == rows[n];
      }
    } else {
      NextRowParent(items[1..], base + n, parent, off - n);
      if off + 1 < SizeAll(items) {
        assert rows[n..][off + 1 - n] == rows[off + 1];
      }
    }
  }

  lemma NoRows(base: nat, parent: nat)
    ensures SizeAll([]) == 0 && Writable([]) && Flat([], base, parent) == []
  {
  }

  /** The row of the k-th sibling, its parent link and its next link. */
  lemma {:induction false} SiblingLinks(items: seq<Item>, base: nat, parent: nat, k: nat)
    requires Writable(items) && k < |items|
    ensures var off := SizeAll(items[..k]);
      && off < SizeAll(items)
      && ItemAt(items, off) == items[k]
      && Flat(items, base, parent)[off] ==
         RowOf(items[k], parent, if k + 1 < |items| then base + SizeAll(items[..k + 1]) else 0)
  {
    hide Flat, WellFormed, Writable, RowOf, Size, SizeAll, ItemAt, ChildrenOf;
    FlatParts(items, base, parent);
    var n := Size(items[0]);
    SizeOfPrefix(items, k);
    SizeOfPrefix(items, k + 1);
    ItemAtParts(items, SizeAll(items[..k]));
    if k > 0 {
      SiblingLinks(items[1..], base + n, parent, k - 1);
      assert Flat(items, base, parent)[n..][SizeAll(items[1..][..k - 1])] ==
        Flat(items, base, parent)[SizeAll(items[..k])];
    }
  }

  lemma SizeOfPrefix(items: seq<Item>, k: nat)
    requires Writable(items) && items != [] && k <= |items|
    ensures k == 0 ==> SizeAll(items[..k]) == 0
    ensures k > 0 ==> SizeAll(items[..k]) == Size(items[0]) + SizeAll(items[1..][..k - 1])
    ensures k < |items| ==> SizeAll(items[..k]) < SizeAll(items)
    ensures SizeAll(items[1..][..0]) == 0
  {
    hide WellFormed;
    if k > 0 {
      assert items[..k][1..] == items[1..][..k - 1];
    }
    if k < |items| {
      assert items == items[..k] + items[k..];
      SizeAllConcat(items[..k], items[k..]);
    }
  }

  // ---------- addressing the encoded tree by row index ----------

  ghost predicate Encodes(rows: seq<Row>, root: Item) {
    WellFormed(root) && root.Node? && rows == FlatTree(root)
  }

  lemma RootWritable(root: Item)
    requires WellFormed(root) && root.Node?
    ensures Writable([root]) && SizeAll([root]) > 0
  {
  }

  ghost predicate IsRow(root: Item, index: nat)
    requires WellFormed(root) && root.Node?
  {
    1 <= index <= SizeAll([root])
  }

  /** The item a row of the encoded tree stands for. */
  ghost function ItemOf(root: Item, index: nat): Item
    requires WellFormed(root) && root.Node? && IsRow(root, index)
  {
    ItemAt([root], index - 1)
  }

  /** The row index of the k-th child of the item at `index`. */
  ghost function ChildIndex(root: Item, index: nat, k: nat): nat
    requires WellFormed(root) && root.Node? && IsRow(root, index) && k <= |ChildrenOf(ItemOf(root, index))|
  {
    index + 1 + SizeAll(ChildrenOf(ItemOf(root, index))[..k])
  }

  /** The row of an item says what the item is. */
  lemma RowSaysItem(rows: seq<Row>, root: Item, index: nat)
    requires Encodes(rows, root) && IsRow(root, index)
    ensures index < |rows|
    ensures rows[index] == RowOf(ItemOf(root, index), rows[index].parent, rows[index].next)
    ensures WellFormed(ItemOf(root, index))
  {
    hide Flat, WellFormed, Writable, RowOf, Size, SizeAll, ItemAt, ChildrenOf;
    RootWritable(root);
    Locate([root], 1, 0, index - 1);
  }

  lemma ChildIsRow(root: Item, index: nat, k: nat)
    requires WellFormed(root) && root.Node? && IsRow(root, index) && k < |ChildrenOf(ItemOf(root, index))|
    ensures var child := ChildIndex(root, index, k);
      index < child && IsRow(root, child) && ItemOf(root, child) == ChildrenOf(ItemOf(root, index))[k]
  {
    ChildLinks(FlatTree(root), root, index, k);
  }

  /** Following the links from a row visits its children, in order, and ends at 0. */
  lemma ChildLinks(rows: seq<Row>, root: Item, index: nat, k: nat)
    requires Encodes(rows, root) && IsRow(root, index) && k < |ChildrenOf(ItemOf(root, index))|
    ensures var child := ChildIndex(root, index, k);
      && index < child && IsRow(root, child) && child < |rows|
      && ItemOf(root, child) == ChildrenOf(ItemOf(root, index))[k]
      && rows[child].parent == index
      && rows[child].next == if k + 1 < |ChildrenOf(ItemOf(root, index))| then ChildIndex(root, index, k + 1) else 0
  {
    hide Flat, WellFormed, Writable, RowOf, Size, SizeAll, ItemAt, ChildrenOf;
    RootWritable(root);
    var item := ItemOf(root, index);
    var children := ChildrenOf(item);
    Locate([root], 1, 0, index - 1);
    ChildrenWritable(item);
    SiblingLinks(children, index + 1, index, k);
    var off := SizeAll(children[..k]);
    ItemBelow([root], index - 1, off);
    var flat := Flat([root], 1, 0);
    var part := Flat(children, index + 1, index);
    assert flat[index..index + |part|] == part;
    assert flat[index + off] == part[off];
    assert rows[index + 1 + off] == flat[index + off];
  }

  /** hasChildren: the row behind exists and names this row as its parent. */
  predicate HasChildren(rows: seq<Row>, index: nat) {
    index + 1 < |rows| && rows[index + 1].parent == index
  }

  lemma HasChildrenIsCorrect(rows: seq<Row>, root: Item, index: nat)
    requires Encodes(rows, root) && IsRow(root, index)
    ensures HasChildren(rows, index) <==> ChildrenOf(ItemOf(root, index)) != []
  {
    hide Flat, WellFormed, Writable, RowOf, Size, SizeAll, ItemAt, ChildrenOf;
    RootWritable(root);
    NextRowParent([root], 1, 0, index - 1);
    if index + 1 < |rows| {
      assert rows[index + 1] == Flat([root], 1, 0)[index];
    } else {
      LastRowIsLeaf([root]);
    }
  }
}

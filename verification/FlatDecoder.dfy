/** Rebuilding a tree from its rows (tsc/internal/api/encoder/decoder.go and the node decoders that
    tools/scripts/tsc/generate-encoder.ts emits). */
module FlatDecoder {
  import opened Options
  import opened FlatAst
  import opened FlatEncoder
  import opened ChildMask
  import opened FlatReader
  import opened FlatRebuild

  datatype DecodeResult = NothingToDecode | Panicked | Decoded(node: Item)

  // ---------- children ----------

  class ChildIterator {
    const indices: seq<nat>
    var pos: nat

    constructor (indices: seq<nat>)
      ensures this.indices == indices && pos == 0
    {
      this.indices, pos := indices, 0;
    }

    method Next() returns (ci: nat)
      modifies this
      ensures old(pos) < |indices| ==> ci == indices[old(pos)] && pos == old(pos) + 1
      ensures old(pos) >= |indices| ==> ci == 0 && pos == old(pos)
    {
      if pos >= |indices| {
        return 0;
      }
      ci := indices[pos];
      pos := pos + 1;
    }

    method NextIf(mask: bv8, bit: nat) returns (ci: nat)
      requires bit < 8
      modifies this
      ensures !TestBit(mask, bit) ==> ci == 0 && pos == old(pos)
      ensures TestBit(mask, bit) && old(pos) < |indices| ==> ci == indices[old(pos)] && pos == old(pos) + 1
      ensures TestBit(mask, bit) && old(pos) >= |indices| ==> ci == 0 && pos == old(pos)
    {
      if !TestBit(mask, bit) {
        return 0;
      }
      ci := Next();
    }
  }

  method CollectChildren(rows: seq<Row>, i: nat, ghost root: Item) returns (indices: seq<nat>)
    requires Encodes(rows, root) && IsRow(root, i)
    ensures indices == ChildIndices(root, i, |ChildrenOf(ItemOf(root, i))|)
  {
    hide WellFormed, Writable, SizeAll, ItemAt, Flat, ChildrenOf;
    HasChildrenIsCorrect(rows, root, i);
    if i + 1 >= |rows| {
      return [];
    }
    var firstChild := i + 1;
    if rows[firstChild].parent != i {
      return [];
    }
    ghost var n := |ChildrenOf(ItemOf(root, i))|;
    FirstChild(root, i);
    ChildLinks(rows, root, i, 0);
    indices := [firstChild];
    var next := rows[firstChild].next;
    ghost var k := 1;
    assert ChildIndices(root, i, 1) == ChildIndices(root, i, 0) + [firstChild];
    while next != 0
      invariant 1 <= k <= n && next == if k < n then ChildIndex(root, i, k) else 0
      invariant indices == ChildIndices(root, i, k)
      decreases n - k
    {
      ChildLinks(rows, root, i, k);
      indices := indices + [next];
      next := rows[next].next;
      k := k + 1;
    }
  }

  lemma {:induction false} IndexAt(root: Item, i: nat, n: nat, k: nat)
    requires WellFormed(root) && root.Node? && IsRow(root, i) && k < n <= |ChildrenOf(ItemOf(root, i))|
    ensures |ChildIndices(root, i, n)| == n && ChildIndices(root, i, n)[k] == ChildIndex(root, i, k)
    decreases n
  {
    hide WellFormed, ItemAt, SizeAll, ChildrenOf;
    if k < n - 1 {
      IndexAt(root, i, n - 1, k);
    } else if n > 1 {
      IndexAt(root, i, n - 1, 0);
    }
  }

  /** As decoded from its own row, a list is no modifier list. */
  function Unmarked(item: Item): Item {
    if item.List? then item.(modifiers := false) else item
  }

  /** The decoded node or list of a row. */
  ghost predicate Done(schema: Schema, item: Item, node: Option<Item>, list: Option<Item>) {
    if item.List? then node.None? && list == Some(Unmarked(Rebuilt(schema, item)))
    else node == Some(Rebuilt(schema, item)) && list.None?
  }

  /** Everything behind row i has been decoded. */
  ghost predicate DoneBehind(schema: Schema, root: Item, i: nat, nodes: seq<Option<Item>>, lists: seq<Option<Item>>)
    requires WellFormed(root) && root.Node?
  {
    && |nodes| == |lists| == SizeAll([root]) + 1
    && forall j :: i < j < |nodes| ==> IsRow(root, j) && Done(schema, ItemOf(root, j), nodes[j], lists[j])
  }

  /** The child indices lead to these decoded children. */
  ghost predicate Loaded(childIndices: seq<nat>, nodes: seq<Option<Item>>, lists: seq<Option<Item>>, kids: seq<Item>) {
    && |childIndices| == |kids| && |nodes| == |lists| > 0
    && forall k :: 0 <= k < |kids| ==> LoadedAt(childIndices[k], nodes, lists, kids[k])
  }

  ghost predicate LoadedAt(ci: nat, nodes: seq<Option<Item>>, lists: seq<Option<Item>>, kid: Item)
    requires |nodes| == |lists|
  {
    && 0 < ci < |nodes|
    && nodes[ci] == (if kid.List? then None else Some(kid))
    && lists[ci] == (if kid.List? then Some(Unmarked(kid)) else None)
  }

  lemma ChildrenLoaded(schema: Schema, root: Item, i: nat, nodes: seq<Option<Item>>, lists: seq<Option<Item>>)
    requires WellFormed(root) && root.Node? && IsRow(root, i) && DoneBehind(schema, root, i, nodes, lists)
    ensures Loaded(ChildIndices(root, i, |ChildrenOf(ItemOf(root, i))|), nodes, lists, Kids(schema, ItemOf(root, i)))
  {
    hide WellFormed, ItemAt, SizeAll, ChildrenOf, Rebuilt, RebuiltAll;
    var children := ChildrenOf(ItemOf(root, i));
    RebuiltAllAt(schema, children);
    if children != [] { IndexAt(root, i, |children|, 0); }
    forall k | 0 <= k < |children|
      ensures LoadedAt(ChildIndices(root, i, |children|)[k], nodes, lists, Kids(schema, ItemOf(root, i))[k]) {
      IndexAt(root, i, |children|, k);
      ChildIsRow(root, i, k);
      assert Done(schema, children[k], nodes[ChildIndex(root, i, k)], lists[ChildIndex(root, i, k)]);
    }
  }

  // ---------- the values of one node's members ----------

  /** nodeAt, nodeListAt, modifierListAt, or the nodes of nodeListAt; nil at index 0. */
  function ValueAt(form: Form, ci: nat, nodes: seq<Option<Item>>, lists: seq<Option<Item>>): Value
    requires ci < |nodes| == |lists|
  {
    if ci == 0 then Empty(form)
    else match form
      case NodeForm => if nodes[ci].Some? then One(nodes[ci].value) else Nil
      case ListForm => if lists[ci].Some? then One(lists[ci].value) else Nil
      case ModifierForm =>
        if lists[ci].Some? && lists[ci].value.List? then One(lists[ci].value.(modifiers := true)) else Nil
      case RawForm => if lists[ci].Some? && lists[ci].value.List? then Raw(lists[ci].value.nodes) else Raw([])
  }

  lemma ValueFetched(form: Form, childIndices: seq<nat>, nodes: seq<Option<Item>>, lists: seq<Option<Item>>,
                     kids: seq<Item>, k: nat)
    requires Loaded(childIndices, nodes, lists, kids) && k <= |kids|
    ensures k < |kids| ==>
      childIndices[k] < |nodes| && ValueAt(form, childIndices[k], nodes, lists) == Fetch(form, kids[k..])
    ensures k == |kids| ==> ValueAt(form, 0, nodes, lists) == Fetch(form, kids[k..])
  {
    if k < |kids| { assert LoadedAt(childIndices[k], nodes, lists, kids[k]); }
  }

  /** One declared child: the first child there is. For a raw list the slice to fill has length 0, so any child
      is out of its range. */
  method DecodeSingle(form: Form, childIndices: seq<nat>, nodes: seq<Option<Item>>, lists: seq<Option<Item>>,
                      ghost kids: seq<Item>)
    returns (value: Option<Value>)
    requires Loaded(childIndices, nodes, lists, kids)
    ensures value == if form.RawForm? && kids != [] then None else Some(Single(form, kids))
  {
    assert kids[0..] == kids;
    ValueFetched(form, childIndices, nodes, lists, kids, 0);
    if form.RawForm? {
      return if |childIndices| > 0 then None else Some(Raw([]));
    }
    var ci := if |childIndices| > 0 then childIndices[0] else 0;
    value := Some(ValueAt(form, ci, nodes, lists));
  }

  /** Several declared children: each takes the next child if its mask bit is set. */
  method DecodeMulti(forms: seq<Form>, mask: bv8, childIndices: seq<nat>, nodes: seq<Option<Item>>,
                     lists: seq<Option<Item>>,
                     ghost kids: seq<Item>)
    returns (values: seq<Value>)
    requires Loaded(childIndices, nodes, lists, kids) && |forms| <= 8
    ensures values == Multi(forms, 0, mask, kids)
  {
    hide Multi, Fetch, Empty, TestBit, ValueAt, LoadedAt;
    var it := new ChildIterator(childIndices);
    values := [];
    assert forms[0..] == forms && kids[0..] == kids;
    for k := 0 to |forms|
      invariant fresh(it) && it.indices == childIndices && it.pos <= |kids| && |values| == k
      invariant Multi(forms, 0, mask, kids) == values + Multi(forms[k..], k, mask, kids[it.pos..])
    {
      ghost var left := kids[it.pos..];
      MultiFirst(forms[k..], k, mask, left);
      assert forms[k..][1..] == forms[k + 1..];
      ValueFetched(forms[k], childIndices, nodes, lists, kids, it.pos);
      NilValue(forms[k], nodes, lists);
      var ci := it.NextIf(mask, k);
      assert kids[it.pos..] == if TestBit(mask, k) then Rest(left) else left;
      values := values + [ValueAt(forms[k], ci, nodes, lists)];
    }
    NoForms(|forms|, mask, kids[it.pos..]);
  }

  lemma MultiFirst(forms: seq<Form>, bit: nat, mask: bv8, kids: seq<Item>)
    requires forms != [] && bit + |forms| <= 8
    ensures Multi(forms, bit, mask, kids) ==
      [if TestBit(mask, bit) then Fetch(forms[0], kids) else Empty(forms[0])] +
      Multi(forms[1..], bit + 1, mask, if TestBit(mask, bit) then Rest(kids) else kids)
  {
    hide Fetch, Empty, TestBit, Rest;
  }

  lemma NoForms(bit: nat, mask: bv8, kids: seq<Item>)
    requires bit <= 8
    ensures Multi([], bit, mask, kids) == []
  {
  }

  lemma NilValue(form: Form, nodes: seq<Option<Item>>, lists: seq<Option<Item>>)
    requires 0 < |nodes| == |lists|
    ensures ValueAt(form, 0, nodes, lists) == Empty(form)
  {
  }

  /** decodeExtendedData_SourceFile: the last list and the last end-of-file token there are. */
  method DecodeSourceFile(rows: seq<Row>, childIndices: seq<nat>, nodes: seq<Option<Item>>, lists: seq<Option<Item>>,
                          ghost kids: seq<Item>)
    returns (values: seq<Value>)
    requires Loaded(childIndices, nodes, lists, kids)
    requires forall k :: 0 <= k < |kids| ==>
      childIndices[k] < |rows| && (rows[childIndices[k]].kind == LIST_KIND <==> kids[k].List?)
    ensures values == [Statements(kids), EndOfFile(kids)]
  {
    var statements := Nil;
    var endOfFile: Option<Item> := None;
    for k := 0 to |childIndices|
      invariant statements == Statements(kids[..k])
      invariant One(if endOfFile.Some? then endOfFile.value else NEW_END_OF_FILE) == EndOfFile(kids[..k])
    {
      var ci := childIndices[k];
      assert LoadedAt(ci, nodes, lists, kids[k]);
      assert kids[..k + 1][..k] == kids[..k];
      if rows[ci].kind == LIST_KIND {
        statements := ValueAt(ListForm, ci, nodes, lists);
      } else if nodes[ci].Some? && nodes[ci].value.Node? && nodes[ci].value.kind == END_OF_FILE_KIND {
        endOfFile := nodes[ci];
      }
    }
    assert kids[..|kids|] == kids;
    values := [statements, One(if endOfFile.Some? then endOfFile.value else NEW_END_OF_FILE)];
  }

  /** A list's elements: the nodes among the children. */
  method DecodeList(childIndices: seq<nat>, nodes: seq<Option<Item>>, ghost lists: seq<Option<Item>>,
                    ghost kids: seq<Item>)
    returns (childNodes: seq<Item>)
    requires Loaded(childIndices, nodes, lists, kids) && forall x :: x in kids ==> x.Node?
    ensures childNodes == kids
  {
    childNodes := [];
    for k := 0 to |childIndices|
      invariant childNodes == kids[..k]
    {
      var ci := childIndices[k];
      assert LoadedAt(ci, nodes, lists, kids[k]) && kids[k] in kids;
      if nodes[ci].Some? {
        childNodes := childNodes + [nodes[ci].value];
      }
    }
  }

  /** The row of a node of its kind whose children have been decoded. */
  ghost predicate Ready(schema: Schema, item: Item, row: Row, kids: seq<Item>) {
    && item.Node? && Declared(schema(item.kind), item) && kids == Kids(schema, item)
    && row == RowOf(item, row.parent, row.next)
  }

  lemma RowParts(schema: Schema, item: Item, row: Row, kids: seq<Item>)
    requires Ready(schema, item, row, kids)
    ensures row.kind == item.kind && row.pos == item.pos && row.end == item.end && row.flags == item.flags
    ensures |Forms(schema(row.kind).members)| <= 8
    ensures PayloadFits(item.payload, schema(item.kind).data)
    ensures row.data == match item.payload
      case Children(common) => NodeData(common, Mask(Properties(item.members)))
      case Text(word) => TextData(word)
      case Extended(word) => RowData.ExtendedData(word)
    ensures schema(item.kind).data.ExtendedData? && item.kind != SOURCE_FILE_KIND ==>
      Forms(schema(item.kind).members) == []
    ensures CrashesAt(schema, item) <==>
      row.data.NodeData? && Forms(schema(item.kind).members) == [RawForm] && kids != []
  {
    hide Properties, Mask, WellFormed;
    DeclaredFits(schema(item.kind), item);
  }

  /** createChildrenNode, up to the call of the factory. */
  method DecodeChildren(forms: seq<Form>, mask: bv8, childIndices: seq<nat>, nodes: seq<Option<Item>>,
                        lists: seq<Option<Item>>, ghost kids: seq<Item>)
    returns (values: Option<seq<Value>>)
    requires Loaded(childIndices, nodes, lists, kids) && |forms| <= 8
    ensures values ==
      if forms == [RawForm] && kids != [] then None
      else Some(if |forms| == 1 then [Single(forms[0], kids)] else Multi(forms, 0, mask, kids))
  {
    hide Loaded, Multi, Single;
    if |forms| == 1 {
      assert forms == [forms[0]];
      var value := DecodeSingle(forms[0], childIndices, nodes, lists, kids);
      values := if value.None? then None else Some([value.value]);
    } else {
      var several := DecodeMulti(forms, mask, childIndices, nodes, lists, kids);
      values := Some(several);
    }
  }

  method CreateNode(row: Row, rows: seq<Row>, childIndices: seq<nat>, nodes: seq<Option<Item>>,
                    lists: seq<Option<Item>>,
                    schema: Schema, ghost item: Item, ghost kids: seq<Item>)
    returns (node: Option<Item>)
    requires Ready(schema, item, row, kids) && Loaded(childIndices, nodes, lists, kids)
    requires forall k :: 0 <= k < |kids| ==>
      childIndices[k] < |rows| && (rows[childIndices[k]].kind == LIST_KIND <==> kids[k].List?)
    ensures node == if CrashesAt(schema, item) then None else Some(Rebuilt(schema, item))
  {
    RowParts(schema, item, row, kids);
    RebuiltFrom(schema, item);
    hide CrashesAt, Rebuilt, Mask, Properties, RebuiltAll, Declared, Loaded, Multi, Single, Statements, EndOfFile,
      Forms, ConformsHere, Ready, Exposed;
    var forms := Forms(schema(row.kind).members);
    match row.data
    case TextData(word) =>
      var values := seq(|forms|, i requires 0 <= i < |forms| => Empty(forms[i]));
      node := Some(Node(row.kind, row.pos, row.end, row.flags, Text(word), Exposed(values), []));
    case ExtendedData(word) =>
      var values := [];
      if row.kind == SOURCE_FILE_KIND {
        values := DecodeSourceFile(rows, childIndices, nodes, lists, kids);
      }
      node := Some(Node(row.kind, row.pos, row.end, row.flags, Extended(word), Exposed(values), []));
    case NodeData(common, mask) =>
      var values := DecodeChildren(forms, mask, childIndices, nodes, lists, kids);
      if values.None? {
        return None;
      }
      node := Some(Node(row.kind, row.pos, row.end, row.flags, Children(common), Exposed(values.value), []));
    case ListLength(_) =>
      assert false;
  }

  // ---------- the whole tree ----------

  lemma {:induction false} WrittenMembersConform(schema: Schema, members: seq<Member>)
    requires forall m :: m in members ==> MemberConforms(schema, m)
    ensures forall x :: x in WrittenOf(members) ==> Conforms(schema, x)
  {
    hide MemberConforms, Written, Conforms;
    if members != [] {
      WrittenMembersConform(schema, members[1..]);
      assert members[0] in members;
      WrittenConforms(schema, members[0]);
    }
  }

  lemma PartsConform(schema: Schema, item: Item)
    requires Conforms(schema, item)
    ensures item.Node? ==> ConformsHere(schema(item.kind), item)
    ensures forall x :: x in ChildrenOf(item) ==> Conforms(schema, x)
  {
    hide ConformsHere, WrittenOf, MemberConforms;
    if item.Node? { WrittenMembersConform(schema, item.members); }
  }

  /** Every item of a conforming tree conforms. */
  lemma {:induction false} ItemsConform(schema: Schema, items: seq<Item>, off: nat)
    requires Writable(items) && off < SizeAll(items) && forall x :: x in items ==> Conforms(schema, x)
    ensures Conforms(schema, ItemAt(items, off))
    decreases SizeAll(items)
  {
    hide Conforms, ItemAt, Size, SizeAll, ChildrenOf, WellFormed;
    ItemAtParts(items, off);
    hide Writable;
    PartsConform(schema, items[0]);
    if off == 0 {
    } else if off < Size(items[0]) {
      ItemsConform(schema, ChildrenOf(items[0]), off - 1);
    } else {
      ItemsConform(schema, items[1..], off - Size(items[0]));
    }
  }

  lemma RowDeclared(schema: Schema, root: Item, i: nat)
    requires WellFormed(root) && root.Node? && Conforms(schema, root) && IsRow(root, i)
    ensures ItemOf(root, i).Node? ==> Declared(schema(ItemOf(root, i).kind), ItemOf(root, i))
    ensures ItemOf(root, i).List? ==> forall x :: x in ChildrenOf(ItemOf(root, i)) ==> x.Node?
  {
    hide Conforms, WellFormed, ItemAt, ConformsHere, SizeAll, ChildrenOf, Writable;
    RootWritable(root);
    var item := ItemOf(root, i);
    if item.List? { ListOfNodes(item); }
    ItemsConform(schema, [root], i - 1);
    PartsConform(schema, item);
  }

  lemma ListOfNodes(item: Item)
    requires WellFormed(item) && item.List?
    ensures forall x :: x in ChildrenOf(item) ==> x.Node?
  {
  }

  /** No row behind i crashes. */
  ghost predicate NoCrashBehind(schema: Schema, root: Item, i: nat)
    requires WellFormed(root) && root.Node?
  {
    forall j :: i < j && IsRow(root, j) ==> !CrashesAt(schema, ItemOf(root, j))
  }

  lemma CrashAtRow(schema: Schema, root: Item, i: nat)
    requires WellFormed(root) && root.Node? && IsRow(root, i) && CrashesAt(schema, ItemOf(root, i))
    ensures Crashes(schema, [root])
  {
    hide WellFormed, ItemAt, CrashesAt, Crashes, SizeAll;
    RootWritable(root);
    CrashesInRow(schema, [root]);
    assert i - 1 < SizeAll([root]) && CrashesAt(schema, ItemAt([root], i - 1));
  }

  lemma NoCrashAtRow(schema: Schema, root: Item)
    requires WellFormed(root) && root.Node? && NoCrashBehind(schema, root, 0)
    ensures !Crashes(schema, [root])
  {
    hide WellFormed, ItemAt, CrashesAt, Crashes, SizeAll;
    RootWritable(root);
    CrashesInRow(schema, [root]);
    forall off: nat | off < SizeAll([root]) ensures !CrashesAt(schema, ItemAt([root], off)) {
      assert IsRow(root, off + 1);
    }
  }

  lemma RowOfList(item: Item, row: Row)
    requires item.List? && row == RowOf(item, row.parent, row.next)
    ensures row.pos == item.pos && row.end == item.end
  {
  }

  lemma RebuiltList(schema: Schema, item: Item)
    requires item.List?
    ensures Unmarked(Rebuilt(schema, item)) == List(item.pos, item.end, false, Kids(schema, item))
  {
    hide RebuiltAll;
  }

  lemma RowsOfKids(rows: seq<Row>, schema: Schema, root: Item, i: nat, childIndices: seq<nat>)
    requires Encodes(rows, root) && IsRow(root, i)
    requires childIndices == ChildIndices(root, i, |ChildrenOf(ItemOf(root, i))|)
    ensures var kids := Kids(schema, ItemOf(root, i));
      |childIndices| == |kids| &&
      forall k :: 0 <= k < |kids| ==>
        childIndices[k] < |rows| && (rows[childIndices[k]].kind == LIST_KIND <==> kids[k].List?)
  {
    hide WellFormed, Writable, ItemAt, SizeAll, Flat, ChildrenOf, Rebuilt, RebuiltAll, RowOf;
    var children := ChildrenOf(ItemOf(root, i));
    RebuiltAllAt(schema, children);
    if children != [] { IndexAt(root, i, |children|, 0); }
    forall k | 0 <= k < |children|
      ensures childIndices[k] < |rows|
      ensures (rows[childIndices[k]].kind == LIST_KIND <==> Kids(schema, ItemOf(root, i))[k].List?) {
      IndexAt(root, i, |children|, k);
      ChildIsRow(root, i, k);
      RowSaysItem(rows, root, childIndices[k]);
      KindTest(children[k], rows[childIndices[k]]);
    }
  }

  /** Rows are decoded back to front, so that children exist before their parents. */
  method DecodeNodes(rows: seq<Row>, schema: Schema, ghost root: Item) returns (result: DecodeResult)
    requires Encodes(rows, root) && Conforms(schema, root)
    ensures result == if Crashes(schema, [root]) then Panicked else Decoded(Rebuilt(schema, root))
  {
    hide WellFormed, ItemAt, Conforms, Flat, RowOf, ChildrenOf, Kids, Rebuilt, CrashesAt, Crashes, Loaded, Declared,
      SizeAll, Encodes;
    var n := |rows|;
    RootRow(rows, root);
    if n < 2 {
      return NothingToDecode;
    }
    var nodes: array<Option<Item>> := new Option<Item>[n](_ => None);
    var lists: array<Option<Item>> := new Option<Item>[n](_ => None);
    var i := n - 1;
    while i >= 1
      invariant 0 <= i < n
      invariant forall j :: 0 <= j <= i ==> nodes[j].None? && lists[j].None?
      invariant DoneBehind(schema, root, i, nodes[..], lists[..]) && NoCrashBehind(schema, root, i)
    {
      ghost var item := ItemOf(root, i);
      ghost var kids := Kids(schema, item);
      RowSaysItem(rows, root, i);
      KindTest(item, rows[i]);
      RowDeclared(schema, root, i);
      var childIndices := CollectChildren(rows, i, root);
      ChildrenLoaded(schema, root, i, nodes[..], lists[..]);
      RowsOfKids(rows, schema, root, i, childIndices);
      ghost var nodes0, lists0 := nodes[..], lists[..];
      if rows[i].kind == LIST_KIND {
        KidsAreNodes(schema, item);
        var childNodes := DecodeList(childIndices, nodes[..], lists[..], kids);
        RowOfList(item, rows[i]);
        RebuiltList(schema, item);
        ListsDoNotCrash(schema, item);
        lists[i] := Some(List(rows[i].pos, rows[i].end, false, childNodes));
      } else {
        var created := CreateNode(rows[i], rows, childIndices, nodes[..], lists[..], schema, item, kids);
        if created.None? {
          CrashAtRow(schema, root, i);
          return Panicked;
        }
        nodes[i] := created;
      }
      assert Done(schema, ItemOf(root, i), nodes[i], lists[i]);
      assert nodes[..] == nodes0[i := nodes[i]] && lists[..] == lists0[i := lists[i]];
      i := i - 1;
    }
    NoCrashAtRow(schema, root);
    assert Done(schema, ItemOf(root, 1), nodes[..][1], lists[..][1]);
    result := Decoded(nodes[1].value);
  }

  lemma KidsAreNodes(schema: Schema, item: Item)
    requires forall x :: x in ChildrenOf(item) ==> x.Node?
    ensures forall x :: x in Kids(schema, item) ==> x.Node?
  {
    hide Rebuilt, RebuiltAll, ChildrenOf;
    RebuiltAllAt(schema, ChildrenOf(item));
  }

  lemma ListsDoNotCrash(schema: Schema, item: Item)
    requires item.List?
    ensures !CrashesAt(schema, item)
  {
  }

  lemma RootRow(rows: seq<Row>, root: Item)
    requires Encodes(rows, root)
    ensures WellFormed(root) && root.Node?
    ensures |rows| == SizeAll([root]) + 1 && |rows| >= 2 && IsRow(root, 1) && ItemOf(root, 1) == root
    ensures forall i: nat :: 1 <= i < |rows| <==> IsRow(root, i)
  {
    RootWritable(root);
    hide WellFormed, Flat;
  }

  /** Writing and decoding panics exactly when a written node crashes the decoder; otherwise it gives the encoded
      members of every node back if the tree is unambiguous, and if no child can pass for another, only then. */
  method RoundTrip(root: Item, schema: Schema) returns (result: DecodeResult)
    requires WellFormed(root) && root.Node? && Conforms(schema, root)
    ensures result == if Crashes(schema, [root]) then Panicked else Decoded(Rebuilt(schema, root))
    ensures !Crashes(schema, [root]) && Unambiguous(schema, root) ==> result == Decoded(Plain(root))
    ensures Apart(root) && result == Decoded(Plain(root)) ==> !Crashes(schema, [root]) && Unambiguous(schema, root)
  {
    hide *;
    var rows := EncodeTree(root);
    result := DecodeNodes(rows, schema, root);
    RebuiltIsPlain(schema, root);
  }
}

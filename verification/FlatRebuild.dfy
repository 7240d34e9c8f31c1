/** What the Go decoder makes of a tree (tsc/internal/api/encoder/decoder.go and the node decoders that
    tools/scripts/tsc/generate-encoder.ts emits), and when that is the tree. */
module FlatRebuild {
  import opened FlatAst
  import opened FlatEncoder
  import opened ChildMask

  // ---------- kinds ----------

  datatype Form = NodeForm | ListForm | ModifierForm | RawForm

  /** How the data word of a kind is used. */
  datatype DataType = StringData | ExtendedData | ChildrenData

  datatype MemberType = MemberType(encoded: bool, form: Form)

  datatype KindInfo = KindInfo(data: DataType, members: seq<MemberType>)

  type Schema = nat -> KindInfo

  const END_OF_FILE_KIND: nat := 1
  const SOURCE_FILE_KIND: nat := 307

  /** The forms of the encoded members. */
  function Forms(members: seq<MemberType>): seq<Form> {
    if members == [] then []
    else if members[0].encoded then [members[0].form] + Forms(members[1..])
    else Forms(members[1..])
  }

  predicate Fits(v: Value, form: Form) {
    match form
    case NodeForm => v.Nil? || (v.One? && v.item.Node?)
    case ListForm => v.Nil? || (v.One? && v.item.List? && !v.item.modifiers)
    case ModifierForm => v.Nil? || (v.One? && v.item.List? && v.item.modifiers)
    case RawForm => v.Raw?
  }

  predicate PayloadFits(payload: Payload, data: DataType) {
    match data
    case StringData => payload.Text?
    case ExtendedData => payload.Extended?
    case ChildrenData => payload.Children?
  }

  /** A node has the members its kind declares. Of the kinds with extended data only source files have any. */
  predicate ConformsHere(info: KindInfo, item: Item)
    requires item.Node?
  {
    && PayloadFits(item.payload, info.data)
    && |item.members| == |info.members|
    && (forall k :: 0 <= k < |item.members| ==>
         item.members[k].encoded == info.members[k].encoded && Fits(item.members[k].value, info.members[k].form))
    && (info.data.ExtendedData? ==>
         info.members ==
           if item.kind == SOURCE_FILE_KIND then [MemberType(true, ListForm), MemberType(true, NodeForm)] else [])
  }

  ghost predicate Conforms(schema: Schema, item: Item) {
    match item
    case Node(kind, _, _, _, _, members, jsDoc) =>
      && ConformsHere(schema(kind), item)
      && (forall m :: m in members ==> MemberConforms(schema, m))
      && (forall j :: j in jsDoc ==> Conforms(schema, j))
    case List(_, _, _, nodes) =>
      forall n :: n in nodes ==> Conforms(schema, n)
  }

  ghost predicate MemberConforms(schema: Schema, m: Member) {
    match m.value
    case Nil => true
    case One(x) => Conforms(schema, x)
    case Raw(xs) => forall x :: x in xs ==> Conforms(schema, x)
  }

  lemma {:induction false} PropertiesFit(members: seq<Member>, types: seq<MemberType>)
    requires |members| == |types|
    requires forall k :: 0 <= k < |members| ==>
      members[k].encoded == types[k].encoded && Fits(members[k].value, types[k].form)
    ensures |Properties(members)| == |Forms(types)|
    ensures forall i :: 0 <= i < |Forms(types)| ==> Fits(Properties(members)[i], Forms(types)[i])
  {
    hide Fits;
    if members != [] {
      PropertiesFit(members[1..], types[1..]);
      PropertiesCons(members);
    }
  }

  // ---------- what the decoder makes of the children of one node ----------

  /** What a nil child pointer or slice is. */
  function Empty(form: Form): Value {
    if form.RawForm? then Raw([]) else Nil
  }

  /** nodeAt, nodeListAt, modifierListAt or the nodes of nodeListAt, of the first of these children. */
  function Fetch(form: Form, kids: seq<Item>): Value {
    if kids == [] then Empty(form)
    else match form
      case NodeForm => if kids[0].Node? then One(kids[0]) else Nil
      case ListForm => if kids[0].List? then One(kids[0].(modifiers := false)) else Nil
      case ModifierForm => if kids[0].List? then One(kids[0].(modifiers := true)) else Nil
      case RawForm => if kids[0].List? then Raw(kids[0].nodes) else Raw([])
  }

  function Rest(kids: seq<Item>): seq<Item> {
    if kids == [] then [] else kids[1..]
  }

  /** One declared child is the first child there is; a raw list takes all of them. */
  function Single(form: Form, kids: seq<Item>): Value {
    if form.RawForm? then Raw(kids) else Fetch(form, kids)
  }

  /** Several declared children: each takes the next child if its mask bit is set. */
  function Multi(forms: seq<Form>, bit: nat, mask: bv8, kids: seq<Item>): (r: seq<Value>)
    requires bit + |forms| <= 8
    ensures |r| == |forms|
    decreases |forms|
  {
    if forms == [] then []
    else if TestBit(mask, bit) then [Fetch(forms[0], kids)] + Multi(forms[1..], bit + 1, mask, Rest(kids))
    else [Empty(forms[0])] + Multi(forms[1..], bit + 1, mask, kids)
  }

  /** The last list among the children. */
  function Statements(kids: seq<Item>): Value {
    if kids == [] then Nil
    else if kids[|kids| - 1].List? then One(kids[|kids| - 1].(modifiers := false))
    else Statements(kids[..|kids| - 1])
  }

  predicate IsEndOfFile(x: Item) {
    x.Node? && x.kind == END_OF_FILE_KIND
  }

  const NEW_END_OF_FILE := Node(END_OF_FILE_KIND, -1, -1, 0, Children(0), [], [])

  /** The last end-of-file token among the children, or else a new one. */
  function EndOfFile(kids: seq<Item>): Value {
    if kids == [] then One(NEW_END_OF_FILE)
    else if IsEndOfFile(kids[|kids| - 1]) then One(kids[|kids| - 1])
    else EndOfFile(kids[..|kids| - 1])
  }

  /** The values of the encoded members that createNode passes to the factory. */
  function Values(info: KindInfo, kind: nat, mask: bv8, kids: seq<Item>): seq<Value>
    requires |Forms(info.members)| <= 8
  {
    var forms := Forms(info.members);
    match info.data
    case StringData => seq(|forms|, i requires 0 <= i < |forms| => Empty(forms[i]))
    case ExtendedData => if kind == SOURCE_FILE_KIND then [Statements(kids), EndOfFile(kids)] else []
    case ChildrenData => if |forms| == 1 then [Single(forms[0], kids)] else Multi(forms, 0, mask, kids)
  }

  /** A node seen through its encoded members. */
  function Exposed(values: seq<Value>): seq<Member> {
    seq(|values|, i requires 0 <= i < |values| => Member(true, values[i]))
  }

  lemma ExposedEqual(a: seq<Value>, b: seq<Value>)
    ensures Exposed(a) == Exposed(b) <==> a == b
  {
    if Exposed(a) == Exposed(b) {
      assert |a| == |Exposed(a)| == |b|;
      forall i | 0 <= i < |a| ensures a[i] == b[i] {
        assert Exposed(a)[i].value == a[i] && Exposed(b)[i].value == b[i];
      }
    }
  }

  /** The tree the decoder builds. Trees with more than eight encoded members in a node are never written. */
  ghost function Rebuilt(schema: Schema, item: Item): (r: Item)
    ensures r.Node? <==> item.Node?
    decreases Size(item), 0
  {
    match item
    case List(pos, end, modifiers, nodes) => List(pos, end, modifiers, RebuiltAll(schema, nodes))
    case Node(kind, pos, end, flags, payload, members, _) =>
      ChildrenSize(item);
      var kids := RebuiltAll(schema, ChildrenOf(item));
      Node(kind, pos, end, flags, payload,
           if |Forms(schema(kind).members)| <= 8
           then Exposed(Values(schema(kind), kind, Mask(Properties(members)), kids)) else [], [])
  }

  ghost function RebuiltAll(schema: Schema, items: seq<Item>): (r: seq<Item>)
    ensures |r| == |items|
    decreases SizeAll(items), 1
  {
    if items == [] then [] else [Rebuilt(schema, items[0])] + RebuiltAll(schema, items[1..])
  }

  lemma {:induction false} RebuiltAllAt(schema: Schema, items: seq<Item>)
    ensures forall k :: 0 <= k < |items| ==> RebuiltAll(schema, items)[k] == Rebuilt(schema, items[k])
  {
    hide Rebuilt;
    if items != [] { RebuiltAllAt(schema, items[1..]); }
  }

  /** A kind whose one encoded member is a raw list gets a slice of length 0 and writes its children into it. */
  predicate CrashesAt(schema: Schema, item: Item) {
    && item.Node? && schema(item.kind).data.ChildrenData?
    && Forms(schema(item.kind).members) == [RawForm] && ChildrenOf(item) != []
  }

  /** Among these trees is such a node, in a comment or elsewhere. */
  ghost predicate Crashes(schema: Schema, items: seq<Item>)
    decreases SizeAll(items)
  {
    items != [] &&
    (ChildrenSize(items[0]);
     CrashesAt(schema, items[0]) || Crashes(schema, ChildrenOf(items[0])) || Crashes(schema, items[1..]))
  }

  lemma {:induction false} CrashesInRow(schema: Schema, items: seq<Item>)
    requires Writable(items)
    ensures Crashes(schema, items) <==> exists off: nat :: off < SizeAll(items) && CrashesAt(schema, ItemAt(items, off))
    decreases SizeAll(items)
  {
    hide WellFormed, Writable, ItemAt, CrashesAt, ChildrenOf;
    if items != [] {
      SplitFirst(items);
      var n := Size(items[0]);
      CrashesInRow(schema, ChildrenOf(items[0]));
      CrashesInRow(schema, items[1..]);
      hide SizeAll, Size;
      if Crashes(schema, items) {
        ItemAtParts(items, 0);
        if CrashesAt(schema, items[0]) {
        } else if Crashes(schema, ChildrenOf(items[0])) {
          var off: nat :| off < SizeAll(ChildrenOf(items[0])) && CrashesAt(schema, ItemAt(ChildrenOf(items[0]), off));
          ItemAtParts(items, off + 1);
        } else {
          var off: nat :| off < SizeAll(items[1..]) && CrashesAt(schema, ItemAt(items[1..], off));
          ItemAtParts(items, off + n);
        }
      }
      if off: nat :| off < SizeAll(items) && CrashesAt(schema, ItemAt(items, off)) {
        ItemAtParts(items, off);
      }
    }
  }

  // ---------- what it should make of the tree ----------

  /** The tree seen through its encoded members, without comments. */
  ghost function Plain(item: Item): (r: Item)
    ensures r.Node? <==> item.Node?
    decreases item
  {
    match item
    case List(pos, end, modifiers, nodes) => List(pos, end, modifiers, PlainAll(nodes))
    case Node(kind, pos, end, flags, payload, members, _) =>
      Node(kind, pos, end, flags, payload, Exposed(PlainValues(members)), [])
  }

  ghost function PlainAll(items: seq<Item>): (r: seq<Item>)
    ensures |r| == |items|
    ensures forall k :: 0 <= k < |items| ==> r[k] == Plain(items[k])
    decreases items
  {
    if items == [] then [] else [Plain(items[0])] + PlainAll(items[1..])
  }

  ghost function PlainValues(members: seq<Member>): seq<Value>
    decreases members
  {
    if members == [] then []
    else if members[0].encoded then [PlainValue(members[0])] + PlainValues(members[1..])
    else PlainValues(members[1..])
  }

  ghost function PlainValue(m: Member): Value
    decreases m
  {
    match m.value
    case Nil => Nil
    case One(x) => if Written(m.value) == [] then Nil else One(Plain(x))
    case Raw(xs) => Raw(PlainAll(xs))
  }

  lemma {:induction false} PlainValuesAt(members: seq<Member>)
    ensures |PlainValues(members)| == |Properties(members)|
    ensures forall i :: 0 <= i < |Properties(members)| ==>
      PlainValues(members)[i] == PlainValue(Member(true, Properties(members)[i]))
  {
    hide PlainValue;
    if members != [] {
      PlainValuesAt(members[1..]);
      if members[0].encoded {
        assert members[0] == Member(true, members[0].value);
        forall i | 0 <= i < |Properties(members)|
          ensures PlainValues(members)[i] == PlainValue(Member(true, Properties(members)[i])) {
          if i > 0 { assert Properties(members)[i] == Properties(members[1..])[i - 1]; }
        }
      }
    }
  }

  // ---------- when the two agree ----------

  /** The decoder takes every encoded member of the node for what it is. */
  ghost predicate ReadsRight(info: KindInfo, item: Item)
    requires item.Node?
  {
    var forms, properties := Forms(info.members), Properties(item.members);
    |forms| == |properties| &&
    match info.data
    case StringData => forall i :: 0 <= i < |properties| ==> !IsWritten(properties[i])
    case ExtendedData =>
      item.kind == SOURCE_FILE_KIND ==> |properties| == 2 && properties[1].One? && IsEndOfFile(properties[1].item)
    case ChildrenData =>
      if |forms| == 1 then SingleReadsRight(forms[0], item)
      else forall i ::
        0 <= i < |properties| && IsWritten(properties[i]) ==> !forms[i].RawForm? && Straight(item.members, i)
  }

  ghost predicate SingleReadsRight(form: Form, item: Item)
    requires item.Node? && |Properties(item.members)| == 1
  {
    var property := Properties(item.members)[0];
    match form
    case NodeForm => if IsWritten(property) then Straight(item.members, 0) else ChildrenOf(item) == []
    case ListForm => IsWritten(property) ==> Straight(item.members, 0)
    case ModifierForm => IsWritten(property) ==> Straight(item.members, 0)
    case RawForm => |ChildrenOf(item)| == |Written(property)|
  }

  /** Every node that is reached through encoded members reads right. */
  ghost predicate Unambiguous(schema: Schema, item: Item) {
    match item
    case Node(kind, _, _, _, _, members, _) =>
      && ReadsRight(schema(kind), item)
      && forall m :: m in members && m.encoded ==> UnambiguousMember(schema, m)
    case List(_, _, _, nodes) =>
      forall n :: n in nodes ==> Unambiguous(schema, n)
  }

  ghost predicate UnambiguousMember(schema: Schema, m: Member) {
    match m.value
    case Nil => true
    case One(x) => Unambiguous(schema, x)
    case Raw(xs) => forall x :: x in xs ==> Unambiguous(schema, x)
  }

  /** No child without a bit could pass for a property of the same node: kind, start or end tells them apart. */
  ghost predicate ApartHere(item: Item)
    requires item.Node?
  {
    forall x, v :: x in Surplus(item.members) && v in Properties(item.members) && v.One? && v.item.Node? ==>
      !(x.Node? && x.kind == v.item.kind && x.pos == v.item.pos && x.end == v.item.end)
  }

  ghost predicate Apart(item: Item) {
    match item
    case Node(_, _, _, _, _, members, _) =>
      ApartHere(item) && forall m :: m in members && m.encoded ==> ApartMember(m)
    case List(_, _, _, nodes) =>
      forall n :: n in nodes ==> Apart(n)
  }

  ghost predicate ApartMember(m: Member) {
    match m.value
    case Nil => true
    case One(x) => Apart(x)
    case Raw(xs) => forall x :: x in xs ==> Apart(x)
  }

  // ---------- one node ----------

  /** Everything written for an encoded member of the node is decoded to what it should be. */
  ghost predicate PartsRight(schema: Schema, item: Item)
    requires item.Node?
  {
    forall v, x :: v in Properties(item.members) && x in Written(v) ==> Rebuilt(schema, x) == Plain(x)
  }

  lemma {:induction false} RankMonotone(properties: seq<Value>, i: nat, j: nat)
    requires i <= j <= |properties|
    ensures Rank(properties, i) <= Rank(properties, j)
  {
    hide IsWritten;
    if i < j { RankMonotone(properties, i, j - 1); }
  }

  lemma {:induction false} RankBounded(members: seq<Member>)
    ensures Rank(Properties(members), |Properties(members)|) <= |WrittenOf(members)|
  {
    hide Written;
    if members != [] {
      var rest := members[1..];
      RankBounded(rest);
      PropertiesCons(members);
      if members[0].encoded { RankCons(members[0].value, Properties(rest), |Properties(rest)|); }
    }
  }

  lemma MultiCons(forms: seq<Form>, bit: nat, mask: bv8, kids: seq<Item>)
    requires forms != [] && bit + |forms| <= 8
    ensures Multi(forms, bit, mask, kids)[0] == if TestBit(mask, bit) then Fetch(forms[0], kids) else Empty(forms[0])
    ensures Multi(forms, bit, mask, kids)[1..] ==
      Multi(forms[1..], bit + 1, mask, if TestBit(mask, bit) then Rest(kids) else kids)
  {
    hide Fetch, Empty, TestBit, Rest;
  }

  /** Consuming the children by mask gives every property the child at its rank: what the reader looks up. */
  lemma {:induction false} MultiAt(forms: seq<Form>, properties: seq<Value>, bit: nat, kids: seq<Item>, i: nat)
    requires bit + |forms| == |properties| <= 8 && i < |forms| && Rank(properties, |properties|) <= |kids|
    ensures Rank(properties, bit) <= |kids| && Rank(properties, bit + i) <= |kids|
    ensures Multi(forms, bit, Mask(properties), kids[Rank(properties, bit)..])[i] ==
      if IsWritten(properties[bit + i]) then Fetch(forms[i], kids[Rank(properties, bit + i)..]) else Empty(forms[i])
    decreases |forms|
  {
    hide Mask, TestBit, Fetch, Empty, IsWritten, Multi, Rank, Rest;
    RankMonotone(properties, bit, |properties|);
    RankMonotone(properties, bit + i, |properties|);
    MaskBit(properties, bit);
    var from := kids[Rank(properties, bit)..];
    MultiCons(forms, bit, Mask(properties), from);
    if i > 0 {
      RankMonotone(properties, bit + 1, |properties|);
      RankStep(properties, bit);
      MultiAt(forms[1..], properties, bit + 1, kids, i - 1);
      if IsWritten(properties[bit]) { RestOfSlice(kids, Rank(properties, bit)); }
      assert Multi(forms, bit, Mask(properties), from)[i] == Multi(forms, bit, Mask(properties), from)[1..][i - 1];
    }
  }

  lemma RestOfSlice(kids: seq<Item>, k: nat)
    requires k < |kids|
    ensures Rest(kids[k..]) == kids[k + 1..]
  {
  }

  lemma RankStep(properties: seq<Value>, i: nat)
    requires i < |properties|
    ensures Rank(properties, i + 1) == Rank(properties, i) + if IsWritten(properties[i]) then 1 else 0
  {
  }

  /** The property's children among all of them, rebuilt. */
  lemma PropertyRebuilt(schema: Schema, item: Item, i: nat)
    requires item.Node? && i < |Properties(item.members)| && IsWritten(Properties(item.members)[i])
    ensures var kids, at := RebuiltAll(schema, ChildrenOf(item)), Offset(item.members, i);
      at < |kids| && kids[at] == Rebuilt(schema, Written(Properties(item.members)[i])[0])
  {
    PropertyIsChild(item.members, i);
    RebuiltAllAt(schema, ChildrenOf(item));
    hide Rebuilt, RebuiltAll, Properties, Offset, WrittenOf;
    var w, from := Written(Properties(item.members)[i]), Offset(item.members, i);
    assert WrittenOf(item.members)[from..from + |w|][0] == w[0];
  }

  /** A node as it is written: well formed and of its kind. */
  ghost predicate Declared(info: KindInfo, item: Item) {
    item.Node? && WellFormed(item) && ConformsHere(info, item)
  }

  lemma DeclaredFits(info: KindInfo, item: Item)
    requires Declared(info, item)
    ensures |Forms(info.members)| == |Properties(item.members)| <= 8
    ensures forall i :: 0 <= i < |Forms(info.members)| ==> Fits(Properties(item.members)[i], Forms(info.members)[i])
    ensures forall j :: j in item.jsDoc ==> j.Node? && j.kind == JSDOC_KIND
  {
    hide Fits;
    PropertiesFit(item.members, info.members);
  }

  /** What a property should become. */
  lemma PlainOf(v: Value, form: Form)
    requires Fits(v, form)
    ensures !IsWritten(v) ==> PlainValue(Member(true, v)) == Empty(form)
    ensures IsWritten(v) && !form.RawForm? ==>
      Written(v) == [v.item] && PlainValue(Member(true, v)) == One(Plain(v.item))
    ensures IsWritten(v) && form.RawForm? ==>
      PlainValue(Member(true, v)) == Raw(PlainAll(v.items)) && PlainAll(v.items) != []
  {
  }

  /** Fetching a property's own child. */
  lemma FetchOwn(schema: Schema, v: Value, form: Form, kids: seq<Item>)
    requires Fits(v, form) && IsWritten(v) && !form.RawForm?
    requires kids != [] && kids[0] == Rebuilt(schema, v.item)
    ensures Fetch(form, kids) == One(Rebuilt(schema, v.item))
  {
  }

  /** Fetching another node for a property. */
  lemma FetchOther(schema: Schema, x: Item, v: Value, form: Form, kids: seq<Item>)
    requires Fits(v, form) && IsWritten(v) && x.Node? && kids != [] && kids[0] == Rebuilt(schema, x)
    requires form.NodeForm? ==> !(x.kind == v.item.kind && x.pos == v.item.pos && x.end == v.item.end)
    ensures Fetch(form, kids) != PlainValue(Member(true, v))
  {
    PlainOf(v, form);
  }

  // ---------- several encoded members ----------

  ghost function Kids(schema: Schema, item: Item): seq<Item> {
    RebuiltAll(schema, ChildrenOf(item))
  }

  lemma MultiValue(schema: Schema, info: KindInfo, item: Item, i: nat)
    requires Declared(info, item) && i < |Properties(item.members)|
    ensures |Forms(info.members)| == |Properties(item.members)| <= 8
    ensures Rank(Properties(item.members), i) <= |Kids(schema, item)|
    ensures Multi(Forms(info.members), 0, Mask(Properties(item.members)), Kids(schema, item))[i] ==
      if IsWritten(Properties(item.members)[i])
      then Fetch(Forms(info.members)[i], Kids(schema, item)[Rank(Properties(item.members), i)..])
      else Empty(Forms(info.members)[i])
  {
    DeclaredFits(info, item);
    hide Properties, Forms, Multi, Fetch, Empty, IsWritten, RebuiltAll, Mask, WrittenOf, WellFormed, ConformsHere;
    RankBounded(item.members);
    RankNone(Properties(item.members));
    var kids := Kids(schema, item);
    assert kids[0..] == kids;
    MultiAt(Forms(info.members), Properties(item.members), 0, kids, i);
  }

  /** A property that stands straight is fetched from its own child. */
  lemma StraightValue(schema: Schema, info: KindInfo, item: Item, i: nat)
    requires Declared(info, item) && i < |Properties(item.members)| && IsWritten(Properties(item.members)[i])
    requires Straight(item.members, i)
    ensures |Forms(info.members)| == |Properties(item.members)| <= 8
    ensures var form, v := Forms(info.members)[i], Properties(item.members)[i];
      var value := Multi(Forms(info.members), 0, Mask(Properties(item.members)), Kids(schema, item))[i];
      && (!form.RawForm? ==> v.One? && Written(v) == [v.item] && value == One(Rebuilt(schema, v.item)))
      && (form.RawForm? ==> value != PlainValue(Member(true, v)))
  {
    DeclaredFits(info, item);
    var v, form := Properties(item.members)[i], Forms(info.members)[i];
    assert form.RawForm? ==> Written(v)[0].Node? by { if form.RawForm? { RawNodes(item, i); } }
    hide Properties, Forms, Multi, Fetch, Empty, RebuiltAll, Rebuilt, Plain, PlainAll, Mask, WrittenOf, WellFormed,
      ConformsHere, Straight, Offset, Rank;
    MultiValue(schema, info, item, i);
    RankIsOffset(item.members, i);
    PropertyRebuilt(schema, item, i);
    PlainOf(v, form);
    var kids := Kids(schema, item)[Rank(Properties(item.members), i)..];
    if !form.RawForm? {
      FetchOwn(schema, v, form, kids);
    } else {
      FetchOther(schema, Written(v)[0], v, form, kids);
    }
  }

  lemma RawNodes(item: Item, i: nat)
    requires item.Node? && WellFormed(item) && i < |Properties(item.members)| && Properties(item.members)[i].Raw?
    ensures forall x :: x in Written(Properties(item.members)[i]) ==> x.Node?
  {
    PropertiesFromMembers(item.members);
    assert Member(true, Properties(item.members)[i]) in item.members;
  }

  lemma {:induction false} PropertiesFromMembers(members: seq<Member>)
    ensures forall m :: m in members && m.encoded ==> m.value in Properties(members)
    ensures forall v :: v in Properties(members) ==> Member(true, v) in members
  {
    if members != [] {
      PropertiesFromMembers(members[1..]);
      assert members == [members[0]] + members[1..];
      PropertiesCons(members);
    }
  }

  lemma {:induction false} SurplusFromMembers(members: seq<Member>)
    requires forall m :: m in members ==> WellFormedMember(m)
    ensures forall x :: x in Surplus(members) ==> x.Node?
  {
    if members != [] {
      SurplusFromMembers(members[1..]);
      assert WellFormedMember(members[0]);
    }
  }

  /** The first property that does not stand straight is fetched wrong. */
  lemma MisplacedValue(schema: Schema, info: KindInfo, item: Item, i: nat)
    requires Declared(info, item) && ApartHere(item)
    requires i < |Properties(item.members)| && IsWritten(Properties(item.members)[i]) && !Straight(item.members, i)
    requires StraightBelow(item.members, i)
    ensures |Forms(info.members)| == |Properties(item.members)| <= 8
    ensures Multi(Forms(info.members), 0, Mask(Properties(item.members)), Kids(schema, item))[i] !=
      PlainValue(Member(true, Properties(item.members)[i]))
  {
    DeclaredFits(info, item);
    SurplusFromMembers(item.members);
    FirstMisplaced(item.members, i);
    RebuiltAllAt(schema, ChildrenOf(item));
    hide Properties, Forms, Multi, Fetch, Empty, RebuiltAll, Rebuilt, PlainValue, Mask, WrittenOf, WellFormed,
      ConformsHere, Straight, Offset, Rank, Surplus;
    MultiValue(schema, info, item, i);
    var rank := Rank(Properties(item.members), i);
    var x := WrittenOf(item.members)[rank];
    assert ChildrenOf(item)[rank] == x;
    FetchOther(schema, x, Properties(item.members)[i], Forms(info.members)[i], Kids(schema, item)[rank..]);
  }

  lemma MultiIsPlain(schema: Schema, info: KindInfo, item: Item)
    requires Declared(info, item) && info.data.ChildrenData? && |Forms(info.members)| != 1
    requires ReadsRight(info, item) && PartsRight(schema, item)
    ensures |Forms(info.members)| <= 8
    ensures Multi(Forms(info.members), 0, Mask(Properties(item.members)), Kids(schema, item)) ==
      PlainValues(item.members)
  {
    DeclaredFits(info, item);
    PlainValuesAt(item.members);
    hide *;
    var values := Multi(Forms(info.members), 0, Mask(Properties(item.members)), Kids(schema, item));
    forall i | 0 <= i < |values| ensures values[i] == PlainValues(item.members)[i] {
      MultiPlainAt(schema, info, item, i);
    }
  }

  lemma MultiPlainAt(schema: Schema, info: KindInfo, item: Item, i: nat)
    requires Declared(info, item) && info.data.ChildrenData? && |Forms(info.members)| != 1
    requires ReadsRight(info, item) && PartsRight(schema, item) && i < |Properties(item.members)|
    ensures |Forms(info.members)| == |Properties(item.members)| <= 8
    ensures Multi(Forms(info.members), 0, Mask(Properties(item.members)), Kids(schema, item))[i] ==
      PlainValue(Member(true, Properties(item.members)[i]))
  {
    DeclaredFits(info, item);
    hide Properties, Forms, Multi, Fetch, Empty, RebuiltAll, Rebuilt, Plain, PlainAll, PlainValue, PlainValues, Mask,
      WrittenOf, WellFormed, ConformsHere, Straight, Fits, Declared, Rank;
    var v, form := Properties(item.members)[i], Forms(info.members)[i];
    PlainOf(v, form);
    MultiValue(schema, info, item, i);
    if IsWritten(v) {
      StraightValue(schema, info, item, i);
      assert v.item in Written(v);
    }
  }

  lemma PlainReadsRight(schema: Schema, info: KindInfo, item: Item)
    requires Declared(info, item) && info.data.ChildrenData? && |Forms(info.members)| != 1 && ApartHere(item)
    requires |Forms(info.members)| <= 8
    requires Multi(Forms(info.members), 0, Mask(Properties(item.members)), Kids(schema, item)) ==
      PlainValues(item.members)
    ensures ReadsRight(info, item) && PartsRight(schema, item)
  {
    DeclaredFits(info, item);
    hide Properties, Forms, Multi, Rebuilt, Plain, PlainValues, Mask, WrittenOf, Declared, WellFormed, ConformsHere,
      Straight, Fits, ApartHere, IsWritten, Kids;
    AllStraight(schema, info, item, |Properties(item.members)|);
    forall i | 0 <= i < |Properties(item.members)| && IsWritten(Properties(item.members)[i])
      ensures !Forms(info.members)[i].RawForm? && Straight(item.members, i)
      ensures forall x :: x in Written(Properties(item.members)[i]) ==> Rebuilt(schema, x) == Plain(x)
    {
      StraightProperty(schema, info, item, i);
    }
    assert forall v, x :: v in Properties(item.members) && x in Written(v) ==> IsWritten(v) by {
      WrittenIsWritten();
    }
    forall v, x | v in Properties(item.members) && x in Written(v) ensures Rebuilt(schema, x) == Plain(x) {
      var i :| 0 <= i < |Properties(item.members)| && Properties(item.members)[i] == v;
    }
  }

  lemma WrittenIsWritten()
    ensures forall v, x :: x in Written(v) ==> IsWritten(v)
  {
  }

  lemma StraightProperty(schema: Schema, info: KindInfo, item: Item, i: nat)
    requires Declared(info, item) && i < |Properties(item.members)| && IsWritten(Properties(item.members)[i])
    requires |Forms(info.members)| == |Properties(item.members)| <= 8
    requires Multi(Forms(info.members), 0, Mask(Properties(item.members)), Kids(schema, item)) ==
      PlainValues(item.members)
    requires Straight(item.members, i)
    ensures !Forms(info.members)[i].RawForm?
    ensures forall x :: x in Written(Properties(item.members)[i]) ==> Rebuilt(schema, x) == Plain(x)
  {
    DeclaredFits(info, item);
    hide Properties, Forms, Multi, Rebuilt, Plain, PlainValue, PlainValues, Mask, WrittenOf, WellFormed, ConformsHere,
      Straight, Fits, IsWritten, Kids;
    PlainValuesAt(item.members);
    StraightValue(schema, info, item, i);
    PlainOf(Properties(item.members)[i], Forms(info.members)[i]);
  }

  lemma {:induction false} AllStraight(schema: Schema, info: KindInfo, item: Item, n: nat)
    requires Declared(info, item) && ApartHere(item) && n <= |Properties(item.members)| == |Forms(info.members)| <= 8
    requires Multi(Forms(info.members), 0, Mask(Properties(item.members)), Kids(schema, item)) ==
      PlainValues(item.members)
    ensures StraightBelow(item.members, n)
  {
    assert item.Node?;
    hide *;
    if n > 0 {
      AllStraight(schema, info, item, n - 1);
      NextStraight(schema, info, item, n - 1);
      StraightBelowStep(item.members, n - 1);
    } else {
      NoneBelow(item.members);
    }
  }

  lemma NextStraight(schema: Schema, info: KindInfo, item: Item, i: nat)
    requires Declared(info, item) && ApartHere(item) && i < |Properties(item.members)| == |Forms(info.members)| <= 8
    requires Multi(Forms(info.members), 0, Mask(Properties(item.members)), Kids(schema, item)) ==
      PlainValues(item.members)
    requires StraightBelow(item.members, i)
    ensures IsWritten(Properties(item.members)[i]) ==> Straight(item.members, i)
  {
    PlainValuesAt(item.members);
    hide *;
    if IsWritten(Properties(item.members)[i]) && !Straight(item.members, i) {
      MisplacedValue(schema, info, item, i);
    }
  }

  lemma StraightBelowStep(members: seq<Member>, i: nat)
    requires i < |Properties(members)| && StraightBelow(members, i)
    requires IsWritten(Properties(members)[i]) ==> Straight(members, i)
    ensures StraightBelow(members, i + 1)
  {
    hide Straight, IsWritten, Properties;
  }

  lemma NoneBelow(members: seq<Member>)
    ensures StraightBelow(members, 0)
  {
  }

  // ---------- one encoded member ----------

  /** The only property of a node and what is fetched for it. */
  lemma SingleDecoded(schema: Schema, info: KindInfo, item: Item)
    requires Declared(info, item) && info.data.ChildrenData? && |Forms(info.members)| == 1
    ensures |Properties(item.members)| == 1
    ensures ReadsRight(info, item) && PartsRight(schema, item) ==>
      [Single(Forms(info.members)[0], Kids(schema, item))] == PlainValues(item.members)
    ensures ApartHere(item) && [Single(Forms(info.members)[0], Kids(schema, item))] == PlainValues(item.members) ==>
      ReadsRight(info, item) && PartsRight(schema, item)
  {
    DeclaredFits(info, item);
    PlainValuesAt(item.members);
    var v, form := Properties(item.members)[0], Forms(info.members)[0];
    hide Properties, Forms, Single, Rebuilt, Plain, PlainValue, PlainValues, WellFormed, ConformsHere, Straight, Fits,
      IsWritten, Kids, SingleReadsRight, ApartHere;
    if form.RawForm? {
      SingleRaw(schema, info, item);
    } else if !IsWritten(v) {
      SingleMissing(schema, info, item);
    } else {
      SingleWritten(schema, info, item);
    }
    OnlyProperty(schema, item);
  }

  lemma OnlyProperty(schema: Schema, item: Item)
    requires item.Node? && |Properties(item.members)| == 1
    ensures PartsRight(schema, item) <==>
      forall x :: x in Written(Properties(item.members)[0]) ==> Rebuilt(schema, x) == Plain(x)
  {
    hide Rebuilt, Plain, Properties, Written;
  }

  lemma SingleWritten(schema: Schema, info: KindInfo, item: Item)
    requires Declared(info, item) && |Forms(info.members)| == |Properties(item.members)| == 1
    requires !Forms(info.members)[0].RawForm? && IsWritten(Properties(item.members)[0])
    ensures var form, v := Forms(info.members)[0], Properties(item.members)[0];
      && v.One? && Written(v) == [v.item]
      && (Straight(item.members, 0) && Rebuilt(schema, v.item) == Plain(v.item) ==>
           Single(form, Kids(schema, item)) == PlainValue(Member(true, v)))
      && (ApartHere(item) && Single(form, Kids(schema, item)) == PlainValue(Member(true, v)) ==>
           Straight(item.members, 0) && Rebuilt(schema, v.item) == Plain(v.item))
  {
    DeclaredFits(info, item);
    var v, form := Properties(item.members)[0], Forms(info.members)[0];
    SurplusFromMembers(item.members);
    RebuiltAllAt(schema, ChildrenOf(item));
    hide Properties, Forms, Fetch, RebuiltAll, Rebuilt, Plain, PlainAll, PlainValue, WrittenOf, WellFormed,
      ConformsHere, Straight, Offset, Rank, Surplus, ApartHere;
    PlainOf(v, form);
    RankNone(Properties(item.members));
    RankIsOffset(item.members, 0);
    var kids := Kids(schema, item);
    if Straight(item.members, 0) {
      PropertyRebuilt(schema, item, 0);
      FetchOwn(schema, v, form, kids);
    } else if ApartHere(item) {
      FirstMisplaced(item.members, 0);
      var x := WrittenOf(item.members)[0];
      assert ChildrenOf(item)[0] == x;
      NotThat(item, x, v);
      FetchOther(schema, x, v, form, kids);
    }
  }

  lemma NotThat(item: Item, x: Item, v: Value)
    requires item.Node? && ApartHere(item) && x in Surplus(item.members) && v in Properties(item.members)
    requires v.One? && x.Node?
    ensures v.item.Node? ==> !(x.kind == v.item.kind && x.pos == v.item.pos && x.end == v.item.end)
  {
  }

  lemma {:induction false} OnlyNodes(members: seq<Member>)
    requires forall m :: m in members ==> WellFormedMember(m)
    requires forall v :: v in Properties(members) ==> !IsWritten(v)
    ensures forall x :: x in WrittenOf(members) ==> x.Node?
  {
    if members != [] {
      PropertiesCons(members);
      assert forall v :: v in Properties(members[1..]) ==> v in Properties(members);
      OnlyNodes(members[1..]);
      assert WellFormedMember(members[0]);
      if members[0].encoded {
        assert Properties(members)[0] in Properties(members);
      }
      assert forall x :: x in Written(members[0].value) ==> x.Node?;
    }
  }

  lemma SingleMissing(schema: Schema, info: KindInfo, item: Item)
    requires Declared(info, item) && |Forms(info.members)| == |Properties(item.members)| == 1
    requires !Forms(info.members)[0].RawForm? && !IsWritten(Properties(item.members)[0])
    ensures Written(Properties(item.members)[0]) == []
    ensures SingleReadsRight(Forms(info.members)[0], item) <==>
      Single(Forms(info.members)[0], Kids(schema, item)) == PlainValue(Member(true, Properties(item.members)[0]))
  {
    DeclaredFits(info, item);
    OnlyNodes(item.members);
    hide Properties, Forms, Rebuilt, Plain, PlainAll, PlainValue, WrittenOf, WellFormed, ConformsHere, Straight;
    PlainOf(Properties(item.members)[0], Forms(info.members)[0]);
    RebuiltAllAt(schema, ChildrenOf(item));
    if ChildrenOf(item) != [] {
      assert ChildrenOf(item)[0] in WrittenOf(item.members) || ChildrenOf(item)[0] in item.jsDoc;
      assert ChildrenOf(item)[0].Node?;
      assert Kids(schema, item)[0].Node?;
    }
  }

  lemma SingleRaw(schema: Schema, info: KindInfo, item: Item)
    requires Declared(info, item) && |Forms(info.members)| == |Properties(item.members)| == 1
    requires Forms(info.members)[0].RawForm?
    ensures var v := Properties(item.members)[0];
      Single(RawForm, Kids(schema, item)) == PlainValue(Member(true, v)) <==>
        |ChildrenOf(item)| == |Written(v)| && forall x :: x in Written(v) ==> Rebuilt(schema, x) == Plain(x)
  {
    DeclaredFits(info, item);
    hide Properties, Forms, Rebuilt, Plain, WrittenOf, WellFormed, ConformsHere, Offset;
    var v := Properties(item.members)[0];
    PropertyIsChild(item.members, 0);
    if |ChildrenOf(item)| == |v.items| {
      assert ChildrenOf(item) == v.items;
      AllEqual(schema, v.items);
    }
  }

  lemma AllEqual(schema: Schema, items: seq<Item>)
    ensures RebuiltAll(schema, items) == PlainAll(items) <==> forall x :: x in items ==> Rebuilt(schema, x) == Plain(x)
  {
    hide Rebuilt, Plain;
    RebuiltAllAt(schema, items);
    forall x | x in items && RebuiltAll(schema, items) == PlainAll(items) ensures Rebuilt(schema, x) == Plain(x) {
      var k :| 0 <= k < |items| && items[k] == x;
    }
    if forall x :: x in items ==> Rebuilt(schema, x) == Plain(x) {
      forall k | 0 <= k < |items| ensures RebuiltAll(schema, items)[k] == PlainAll(items)[k] {
        assert items[k] in items;
      }
      assert RebuiltAll(schema, items) == PlainAll(items);
    }
  }

  // ---------- source files and strings ----------

  lemma {:induction false} LastStatements(kids: seq<Item>, n: nat)
    requires n <= |kids| && forall k :: n <= k < |kids| ==> kids[k].Node?
    ensures Statements(kids) == Statements(kids[..n])
  {
    if n == |kids| {
      assert kids[..n] == kids;
    } else {
      LastStatements(kids[..|kids| - 1], n);
      assert kids[..|kids| - 1][..n] == kids[..n];
    }
  }

  lemma {:induction false} LastEndOfFile(kids: seq<Item>, n: nat)
    requires n <= |kids| && forall k :: n <= k < |kids| ==> !IsEndOfFile(kids[k])
    ensures EndOfFile(kids) == EndOfFile(kids[..n])
  {
    if n == |kids| {
      assert kids[..n] == kids;
    } else {
      LastEndOfFile(kids[..|kids| - 1], n);
      assert kids[..|kids| - 1][..n] == kids[..n];
    }
  }

  ghost predicate IsSourceFile(info: KindInfo, item: Item) {
    Declared(info, item) && info.data.ExtendedData? && item.kind == SOURCE_FILE_KIND
  }

  lemma TwoMembers(members: seq<Member>)
    requires |members| == 2 && members[0].encoded && members[1].encoded
    ensures Properties(members) == [members[0].value, members[1].value]
    ensures WrittenOf(members) == Written(members[0].value) + Written(members[1].value)
  {
    hide Written;
    var rest := members[1..];
    assert rest[1..] == [];
    assert WrittenOf(rest) == Written(members[1].value) + [];
    assert Properties(rest) == [members[1].value];
  }

  /** The statements, the end-of-file token and the comments of a source file. */
  lemma SourceFileParts(schema: Schema, info: KindInfo, item: Item)
    requires IsSourceFile(info, item)
    ensures |Properties(item.members)| == |Forms(info.members)| == 2
    ensures var v, w, kids := Properties(item.members)[0], Properties(item.members)[1], Kids(schema, item);
      && Fits(v, ListForm) && Fits(w, NodeForm) && |kids| >= |Written(v)| + |Written(w)|
      && (IsWritten(v) ==> Written(v) == [v.item] && kids[0] == Rebuilt(schema, v.item))
      && (IsWritten(w) ==> Written(w) == [w.item] && kids[|Written(v)|] == Rebuilt(schema, w.item))
    ensures CommentsBehind(Kids(schema, item),
                           |Written(Properties(item.members)[0])| + |Written(Properties(item.members)[1])|)
  {
    SourceFileMembers(info, item);
    CommentsLast(schema, info, item);
    RebuiltAllAt(schema, ChildrenOf(item));
    hide WellFormed, RebuiltAll, Rebuilt, WrittenOf, Properties, Forms, ConformsHere, Declared, CommentsBehind, Fits;
    var v, w := Properties(item.members)[0], Properties(item.members)[1];
    FitsWritten(v, ListForm);
    FitsWritten(w, NodeForm);
    hide Written, IsWritten;
    assert ChildrenOf(item) == Written(v) + Written(w) + item.jsDoc;
  }

  lemma FitsWritten(v: Value, form: Form)
    requires Fits(v, form) && !form.RawForm?
    ensures IsWritten(v) ==> v.One? && Written(v) == [v.item]
    ensures !IsWritten(v) ==> Written(v) == []
  {
  }

  /** The comments come behind everything written for the members. */
  lemma CommentsLast(schema: Schema, info: KindInfo, item: Item)
    requires Declared(info, item)
    ensures CommentsBehind(Kids(schema, item), |WrittenOf(item.members)|)
  {
    DeclaredFits(info, item);
    RebuiltAllAt(schema, ChildrenOf(item));
    hide WellFormed, RebuiltAll, Rebuilt, WrittenOf, Properties, Forms, ConformsHere, Declared;
    var n, kids := |WrittenOf(item.members)|, Kids(schema, item);
    forall k | n <= k < |kids| ensures kids[k].Node? && kids[k].kind == JSDOC_KIND {
      assert ChildrenOf(item)[k] == item.jsDoc[k - n];
      KeepsKind(schema, item.jsDoc[k - n]);
    }
  }

  lemma SourceFileMembers(info: KindInfo, item: Item)
    requires IsSourceFile(info, item)
    ensures |Properties(item.members)| == |Forms(info.members)| == 2
    ensures var v, w := Properties(item.members)[0], Properties(item.members)[1];
      Fits(v, ListForm) && Fits(w, NodeForm) && WrittenOf(item.members) == Written(v) + Written(w)
  {
    hide Fits, WellFormed, Written;
    DeclaredFits(info, item);
    TwoMembers(item.members);
    assert Forms(info.members[1..]) == [NodeForm] + Forms(info.members[1..][1..]);
  }

  lemma KeepsKind(schema: Schema, x: Item)
    requires x.Node?
    ensures Rebuilt(schema, x).Node? && Rebuilt(schema, x).kind == x.kind
  {
  }

  ghost predicate CommentsBehind(kids: seq<Item>, n: nat) {
    forall k :: n <= k < |kids| ==> kids[k].Node? && kids[k].kind == JSDOC_KIND
  }

  lemma StatementsDecoded(schema: Schema, v: Value, w: Value, kids: seq<Item>)
    requires Fits(v, ListForm) && Fits(w, NodeForm) && |kids| >= |Written(v)| + |Written(w)|
    requires IsWritten(v) ==> Written(v) == [v.item] && kids[0] == Rebuilt(schema, v.item)
    requires IsWritten(w) ==> Written(w) == [w.item] && kids[|Written(v)|] == Rebuilt(schema, w.item)
    requires CommentsBehind(kids, |Written(v)| + |Written(w)|)
    ensures Statements(kids) == PlainValue(Member(true, v)) <==>
      forall x :: x in Written(v) ==> Rebuilt(schema, x) == Plain(x)
  {
    hide Plain, PlainAll, PlainValue, RebuiltAll;
    PlainOf(v, ListForm);
    LastStatements(kids, |Written(v)|);
  }

  lemma EndOfFileDecoded(schema: Schema, v: Value, w: Value, kids: seq<Item>)
    requires Fits(v, ListForm) && Fits(w, NodeForm) && |kids| >= |Written(v)| + |Written(w)|
    requires IsWritten(v) ==> Written(v) == [v.item] && kids[0] == Rebuilt(schema, v.item)
    requires IsWritten(w) ==> Written(w) == [w.item] && kids[|Written(v)|] == Rebuilt(schema, w.item)
    requires CommentsBehind(kids, |Written(v)| + |Written(w)|)
    ensures EndOfFile(kids) == PlainValue(Member(true, w)) <==>
      w.One? && IsEndOfFile(w.item) && forall x :: x in Written(w) ==> Rebuilt(schema, x) == Plain(x)
  {
    hide PlainAll, PlainValues, RebuiltAll, Values;
    PlainOf(w, NodeForm);
    var n := |Written(v)|;
    if w.One? && IsEndOfFile(w.item) {
      LastEndOfFile(kids, n + 1);
    } else {
      LastEndOfFile(kids, 0);
    }
  }

  lemma SourceFileDecoded(schema: Schema, info: KindInfo, item: Item)
    requires IsSourceFile(info, item)
    ensures [Statements(Kids(schema, item)), EndOfFile(Kids(schema, item))] == PlainValues(item.members) <==>
      ReadsRight(info, item) && PartsRight(schema, item)
  {
    SourceFileParts(schema, info, item);
    PlainValuesAt(item.members);
    SourceFileReadsRight(info, item);
    TwoParts(schema, item);
    hide *;
    var v, w, kids := Properties(item.members)[0], Properties(item.members)[1], Kids(schema, item);
    StatementsDecoded(schema, v, w, kids);
    EndOfFileDecoded(schema, v, w, kids);
  }

  lemma SourceFileReadsRight(info: KindInfo, item: Item)
    requires IsSourceFile(info, item) && |Properties(item.members)| == |Forms(info.members)| == 2
    ensures ReadsRight(info, item) <==> var w := Properties(item.members)[1]; w.One? && IsEndOfFile(w.item)
  {
    hide Properties, Forms, Declared;
  }

  lemma TwoParts(schema: Schema, item: Item)
    requires item.Node? && |Properties(item.members)| == 2
    ensures PartsRight(schema, item) <==>
      (forall x :: x in Written(Properties(item.members)[0]) ==> Rebuilt(schema, x) == Plain(x)) &&
      (forall x :: x in Written(Properties(item.members)[1]) ==> Rebuilt(schema, x) == Plain(x))
  {
    hide Properties, Rebuilt, Plain, Written;
  }

  lemma StringDecoded(schema: Schema, info: KindInfo, item: Item)
    requires Declared(info, item) && info.data.StringData? && |Forms(info.members)| <= 8
    ensures ReadsRight(info, item) <==>
      Values(info, item.kind, Mask(Properties(item.members)), Kids(schema, item)) == PlainValues(item.members)
    ensures ReadsRight(info, item) ==> PartsRight(schema, item)
  {
    DeclaredFits(info, item);
    PlainValuesAt(item.members);
    hide Properties, Forms, Plain, PlainAll, PlainValue, PlainValues, WellFormed, ConformsHere, WrittenOf, RebuiltAll,
      Declared, Mask, Fits, Empty;
    var values := Values(info, item.kind, Mask(Properties(item.members)), Kids(schema, item));
    forall i | 0 <= i < |values|
      ensures values[i] == PlainValues(item.members)[i] <==> !IsWritten(Properties(item.members)[i]) {
      WrittenBecomes(Properties(item.members)[i], Forms(info.members)[i]);
    }
  }

  lemma WrittenBecomes(v: Value, form: Form)
    requires Fits(v, form)
    ensures PlainValue(Member(true, v)) == Empty(form) <==> !IsWritten(v)
  {
    hide Plain;
    PlainOf(v, form);
  }

  // ---------- every node ----------

  /** What one node's encoded members are decoded to is right exactly when the node reads right and its parts
      are right. */
  lemma NodeDecoded(schema: Schema, info: KindInfo, item: Item)
    requires Declared(info, item) && |Forms(info.members)| <= 8
    ensures ReadsRight(info, item) && PartsRight(schema, item) ==>
      Values(info, item.kind, Mask(Properties(item.members)), Kids(schema, item)) == PlainValues(item.members)
    ensures ApartHere(item) ==>
      Values(info, item.kind, Mask(Properties(item.members)), Kids(schema, item)) == PlainValues(item.members) ==>
      ReadsRight(info, item) && PartsRight(schema, item)
  {
    hide Properties, Plain, PlainValues, WellFormed, WrittenOf, RebuiltAll, Rebuilt, Mask, Fits, Empty, ReadsRight,
      PartsRight, ApartHere, Multi, Single, Statements, EndOfFile, Kids;
    match info.data
    case StringData =>
      StringDecoded(schema, info, item);
    case ExtendedData =>
      if item.kind == SOURCE_FILE_KIND {
        SourceFileDecoded(schema, info, item);
      } else {
        NoMembers(schema, info, item);
      }
    case ChildrenData =>
      if |Forms(info.members)| == 1 {
        SingleDecoded(schema, info, item);
      } else if ReadsRight(info, item) && PartsRight(schema, item) {
        MultiIsPlain(schema, info, item);
      } else if ApartHere(item) &&
                Multi(Forms(info.members), 0, Mask(Properties(item.members)), Kids(schema, item)) ==
                PlainValues(item.members) {
        PlainReadsRight(schema, info, item);
      }
  }

  lemma NoMembers(schema: Schema, info: KindInfo, item: Item)
    requires Declared(info, item) && info.data.ExtendedData? && item.kind != SOURCE_FILE_KIND
    ensures ReadsRight(info, item) && PartsRight(schema, item) && PlainValues(item.members) == []
  {
  }

  // ---------- the whole tree ----------

  /** The node's parts: everything written for its encoded members. */
  ghost predicate IsPart(item: Item, x: Item)
    requires item.Node?
  {
    exists v :: v in Properties(item.members) && x in Written(v)
  }

  lemma EmptyListIsFine(schema: Schema, x: Item)
    requires x.List? && x.nodes == []
    ensures Unambiguous(schema, x) && Apart(x)
  {
  }

  lemma PartOfMember(schema: Schema, m: Member)
    ensures UnambiguousMember(schema, m) <==> forall x :: x in Written(m.value) ==> Unambiguous(schema, x)
    ensures ApartMember(m) <==> forall x :: x in Written(m.value) ==> Apart(x)
  {
    hide Unambiguous, Apart;
    match m.value
    case Nil =>
    case Raw(xs) =>
      assert Written(m.value) == xs;
    case One(x) =>
      if Written(m.value) == [] {
        EmptyListIsFine(schema, x);
      } else {
        assert Written(m.value) == [x] && x in Written(m.value);
      }
  }

  lemma WrittenConforms(schema: Schema, m: Member)
    ensures WellFormedMember(m) ==> forall x :: x in Written(m.value) ==> WellFormed(x)
    ensures MemberConforms(schema, m) ==> forall x :: x in Written(m.value) ==> Conforms(schema, x)
  {
    hide WellFormed, Conforms;
  }

  lemma {:induction false} SmallerPart(members: seq<Member>, v: Value, x: Item)
    requires v in Properties(members) && x in Written(v)
    ensures Size(x) <= SizeOfMembers(members)
  {
    PropertiesCons(members);
    if members[0].encoded && members[0].value == v {
      match v
      case One(_) =>
      case Raw(xs) => SizesOfAll(xs);
    } else {
      assert v in Properties(members[1..]);
      SmallerPart(members[1..], v, x);
    }
  }

  lemma PartIs(schema: Schema, item: Item, x: Item)
    requires item.Node? && IsPart(item, x)
    ensures Size(x) < Size(item)
    ensures WellFormed(item) ==> WellFormed(x)
    ensures Conforms(schema, item) ==> Conforms(schema, x)
    ensures Unambiguous(schema, item) ==> Unambiguous(schema, x)
    ensures Apart(item) ==> Apart(x)
  {
    var v :| v in Properties(item.members) && x in Written(v);
    PropertiesFromMembers(item.members);
    SmallerPart(item.members, v, x);
    var m := Member(true, v);
    assert m in item.members;
    PartOfMember(schema, m);
    WrittenConforms(schema, m);
    hide Properties, Written, UnambiguousMember, ApartMember, WellFormedMember, MemberConforms, ConformsHere,
      ReadsRight, ApartHere, SizeOfMembers, SizeAll;
  }

  lemma UnambiguousFromParts(schema: Schema, item: Item)
    requires item.Node? && ReadsRight(schema(item.kind), item)
    requires forall x :: IsPart(item, x) ==> Unambiguous(schema, x)
    ensures Unambiguous(schema, item)
  {
    PropertiesFromMembers(item.members);
    hide ReadsRight;
    forall m | m in item.members && m.encoded ensures UnambiguousMember(schema, m) {
      PartOfMember(schema, m);
      assert forall x :: x in Written(m.value) ==> IsPart(item, x);
    }
  }

  lemma PartsRightIs(schema: Schema, item: Item)
    requires item.Node?
    ensures PartsRight(schema, item) <==> forall x :: IsPart(item, x) ==> Rebuilt(schema, x) == Plain(x)
  {
    hide Rebuilt, Plain, Properties, Written;
    if forall x :: IsPart(item, x) ==> Rebuilt(schema, x) == Plain(x) {
      forall v, x | v in Properties(item.members) && x in Written(v) ensures Rebuilt(schema, x) == Plain(x) {
        assert IsPart(item, x);
      }
      assert PartsRight(schema, item);
    }
    if PartsRight(schema, item) {
      forall x | IsPart(item, x) ensures Rebuilt(schema, x) == Plain(x) {
        var v :| v in Properties(item.members) && x in Written(v);
      }
    }
  }

  /** The decoder gives back the encoded members of every node if each node reads right. Where nothing without a
      bit can pass for a property, it does so in no other case. */
  lemma {:induction false} RebuiltIsPlain(schema: Schema, item: Item)
    requires WellFormed(item) && Conforms(schema, item)
    ensures Unambiguous(schema, item) ==> Rebuilt(schema, item) == Plain(item)
    ensures Apart(item) && Rebuilt(schema, item) == Plain(item) ==> Unambiguous(schema, item)
    decreases Size(item), 1
  {
    if item.Node? {
      forall x | IsPart(item, x)
        ensures Unambiguous(schema, item) ==> Rebuilt(schema, x) == Plain(x)
        ensures Apart(item) && Rebuilt(schema, x) == Plain(x) ==> Unambiguous(schema, x)
      {
        hide *;
        PartIs(schema, item, x);
        RebuiltIsPlain(schema, x);
      }
      NodeRebuiltIsPlain(schema, item);
    } else {
      forall x | x in item.nodes
        ensures Unambiguous(schema, x) ==> Rebuilt(schema, x) == Plain(x)
        ensures Apart(x) && Rebuilt(schema, x) == Plain(x) ==> Unambiguous(schema, x)
      {
        SizesOfAll(item.nodes);
        RebuiltIsPlain(schema, x);
      }
      AllEqual(schema, item.nodes);
    }
  }

  lemma NodeRebuiltIsPlain(schema: Schema, item: Item)
    requires WellFormed(item) && Conforms(schema, item) && item.Node?
    requires forall x :: IsPart(item, x) ==>
      (Unambiguous(schema, item) ==> Rebuilt(schema, x) == Plain(x)) &&
      (Apart(item) && Rebuilt(schema, x) == Plain(x) ==> Unambiguous(schema, x))
    ensures Unambiguous(schema, item) ==> Rebuilt(schema, item) == Plain(item)
    ensures Apart(item) && Rebuilt(schema, item) == Plain(item) ==> Unambiguous(schema, item)
  {
    var info := schema(item.kind);
    DeclaredFits(info, item);
    hide Properties, PlainValues, WrittenOf, RebuiltAll, Mask, Fits, ReadsRight, PartsRight, ApartHere, Values, IsPart;
    NodeDecoded(schema, info, item);
    PartsRightIs(schema, item);
    ExposedEqual(Values(info, item.kind, Mask(Properties(item.members)), Kids(schema, item)),
                 PlainValues(item.members));
    if Apart(item) && Rebuilt(schema, item) == Plain(item) {
      UnambiguousFromParts(schema, item);
    }
  }

  // ---------- trees that come back as something else ----------

  const RETURN_STATEMENT: nat := 254
  const JSDOC_LINK: nat := 319

  const RETURN_INFO := KindInfo(ChildrenData, [MemberType(true, NodeForm)])
  const LINK_INFO := KindInfo(StringData, [MemberType(true, NodeForm)])

  lemma OneMember(item: Item, v: Value)
    requires item.Node? && item.members == [Member(true, v)]
    ensures Properties(item.members) == [v] && WrittenOf(item.members) == Written(v)
    ensures Plain(item).members == [Member(true, PlainValue(Member(true, v)))]
  {
    assert item.members[1..] == [];
    assert PlainValues(item.members) == [PlainValue(Member(true, v))];
  }

  lemma OneForm(form: Form)
    ensures Forms([MemberType(true, form)]) == [form]
  {
  }

  /** A documented return without an expression: the comment comes back as the expression. */
  lemma DocumentedEmptyReturn(schema: Schema, item: Item)
    requires Declared(RETURN_INFO, item) && item.kind == RETURN_STATEMENT && schema(RETURN_STATEMENT) == RETURN_INFO
    requires item.members[0].value == Nil && item.jsDoc != []
    ensures Rebuilt(schema, item).members == [Member(true, One(Rebuilt(schema, item.jsDoc[0])))]
    ensures Plain(item).members == [Member(true, Nil)]
  {
    OneMember(item, Nil);
    OneForm(NodeForm);
    RebuiltAllAt(schema, item.jsDoc);
    assert item.jsDoc[0] in item.jsDoc;
    hide RebuiltAll, Forms, Properties, WrittenOf, PlainValues, Plain;
    assert ChildrenOf(item) == item.jsDoc;
  }

  /** A link in a comment comes back without its name. */
  lemma LinkLosesItsName(schema: Schema, item: Item)
    requires Declared(LINK_INFO, item) && item.kind == JSDOC_LINK && schema(JSDOC_LINK) == LINK_INFO
    requires item.members[0].value.One?
    ensures Rebuilt(schema, item).members == [Member(true, Nil)]
    ensures Plain(item).members == [Member(true, One(Plain(item.members[0].value.item)))]
  {
    OneMember(item, item.members[0].value);
    OneForm(NodeForm);
    hide RebuiltAll, Forms, Properties, WrittenOf, PlainValues, Plain, WellFormed;
    assert |Rebuilt(schema, item).members| == 1;
  }

  /** A member without a bit comes back in the place of the property behind it: of a function to which a comment
      gives a full signature, the signature comes back as the body. */
  lemma SignatureForBody(schema: Schema, item: Item, order: nat)
    requires item.Node? && Declared(schema(item.kind), item) && |Forms(schema(item.kind).members)| != 1
    requires schema(item.kind).data.ChildrenData? && order + 1 < |item.members|
    requires forall m :: m in item.members[..order] ==> m.encoded && |Written(m.value)| <= 1
    requires !item.members[order].encoded && item.members[order].value.One?
    requires item.members[order + 1].encoded && item.members[order + 1].value.One?
    requires item.members[order + 1].value.item.Node?
    ensures order < |Rebuilt(schema, item).members| == |Plain(item).members|
    ensures Rebuilt(schema, item).members[order] == Member(true, One(Rebuilt(schema, item.members[order].value.item)))
    ensures Plain(item).members[order] == Member(true, One(Plain(item.members[order + 1].value.item)))
  {
    hide RebuiltAll, Rebuilt, Forms, Properties, WrittenOf, PlainValues, PlainValue, Multi, Written, Rank, Fits;
    var signature, body := item.members[order].value.item, item.members[order + 1].value.item;
    SignatureIsFirst(schema, item, order);
    DeclaredFits(schema(item.kind), item);
    hide WellFormed, ConformsHere, Declared;
    PlainValuesAt(item.members);
    OnlyNodeForm(One(body), Forms(schema(item.kind).members)[order]);
    PlainOf(One(body), NodeForm);
    MultiValue(schema, schema(item.kind), item, order);
    RebuiltFrom(schema, item);
  }

  lemma OnlyNodeForm(v: Value, form: Form)
    requires v.One? && v.item.Node? && Fits(v, form)
    ensures form == NodeForm && Fits(v, NodeForm)
  {
  }

  lemma RebuiltFrom(schema: Schema, item: Item)
    requires item.Node? && |Forms(schema(item.kind).members)| <= 8
    ensures Rebuilt(schema, item) == Node(item.kind, item.pos, item.end, item.flags, item.payload,
      Exposed(Values(schema(item.kind), item.kind, Mask(Properties(item.members)), Kids(schema, item))), [])
  {
    hide RebuiltAll, Values, Exposed;
  }

  /** The signature is the child at the rank of the body. */
  lemma SignatureIsFirst(schema: Schema, item: Item, order: nat)
    requires item.Node? && WellFormed(item) && order + 1 < |item.members|
    requires forall m :: m in item.members[..order] ==> m.encoded && |Written(m.value)| <= 1
    requires !item.members[order].encoded && item.members[order].value.One?
    requires item.members[order + 1].encoded && item.members[order + 1].value.One?
    requires item.members[order + 1].value.item.Node?
    ensures order < |Properties(item.members)| && Properties(item.members)[order] == item.members[order + 1].value
    ensures IsWritten(Properties(item.members)[order])
    ensures var rank, kids := Rank(Properties(item.members), order), Kids(schema, item);
      rank < |kids| && kids[rank] == Rebuilt(schema, item.members[order].value.item)
    ensures item.members[order].value.item.Node?
  {
    var signature, body := item.members[order].value.item, item.members[order + 1].value.item;
    assert WellFormedMember(item.members[order]) by { assert item.members[order] in item.members; }
    RebuiltAllAt(schema, ChildrenOf(item));
    hide RebuiltAll, Rebuilt, Properties, WrittenOf, WellFormed, Written, Rank, Straight, Offset;
    NodeIsWritten(body);
    var before, after := item.members[..order], item.members[order + 2..];
    assert item.members == before + ([Member(false, One(signature)), Member(true, One(body))] + after);
    HiddenMemberIsAnswered(before, signature, body, after);
  }
}

/** Deep cloning through "update only if changed" (tsc/internal/ast/deepclone.go, the visitor of
    tsc/internal/ast/visitor.go and the node methods tools/scripts/tsc/generate-go-ast.ts emits). */
module DeepClone {

  datatype TextRange = TextRange(pos: int, end: int)

  const SYNTHETIC := TextRange(-1, -1)
  const SYNTHETIC_BEFORE_COMMA := TextRange(-2, -2)

  // ---------- trees as values ----------

  datatype Tree = Tree(kind: nat, flags: bv32, loc: TextRange, data: string, slots: seq<Part>)

  /** A child member: nil, a node, a node list or modifier list, or a raw slice of nodes. */
  datatype Part =
    | Nil
    | Sub(t: Tree)
    | SubList(loc: TextRange, nodes: seq<Tree>)
    | Raw(nodes: seq<Tree>)

  predicate TrailingComma(loc: TextRange, nodes: seq<Tree>) {
    nodes != [] && nodes[|nodes| - 1].loc.end < loc.end
  }

  /** The tree a deep clone stands for. */
  ghost function Cloned(t: Tree, synthetic: bool): Tree
    decreases t
  {
    Tree(t.kind, t.flags, if synthetic then SYNTHETIC else t.loc, t.data, ClonedParts(t.slots, synthetic))
  }

  ghost function ClonedParts(parts: seq<Part>, synthetic: bool): (r: seq<Part>)
    ensures |r| == |parts|
    decreases parts
  {
    if parts == [] then [] else [ClonedPart(parts[0], synthetic)] + ClonedParts(parts[1..], synthetic)
  }

  ghost function ClonedPart(part: Part, synthetic: bool): Part
    decreases part
  {
    match part
    case Nil => Nil
    case Sub(t) => Sub(Cloned(t, synthetic))
    case SubList(loc, nodes) =>
      if synthetic then SubList(SYNTHETIC, MarkLast(ClonedAll(nodes, synthetic), TrailingComma(loc, nodes)))
      else SubList(loc, ClonedAll(nodes, synthetic))
    case Raw(nodes) => Raw(ClonedAll(nodes, synthetic))
  }

  ghost function ClonedAll(nodes: seq<Tree>, synthetic: bool): (r: seq<Tree>)
    ensures |r| == |nodes|
    decreases nodes
  {
    if nodes == [] then [] else [Cloned(nodes[0], synthetic)] + ClonedAll(nodes[1..], synthetic)
  }

  function MarkLast(nodes: seq<Tree>, marked: bool): seq<Tree> {
    if marked && nodes != [] then nodes[|nodes| - 1 := nodes[|nodes| - 1].(loc := SYNTHETIC_BEFORE_COMMA)] else nodes
  }

  lemma {:induction false} ClonedPartsAt(parts: seq<Part>, synthetic: bool, i: nat)
    requires i < |parts|
    ensures ClonedParts(parts, synthetic)[i] == ClonedPart(parts[i], synthetic)
  {
    if i > 0 { ClonedPartsAt(parts[1..], synthetic, i - 1); }
  }

  lemma {:induction false} ClonedAllAt(nodes: seq<Tree>, synthetic: bool, i: nat)
    requires i < |nodes|
    ensures ClonedAll(nodes, synthetic)[i] == Cloned(nodes[i], synthetic)
  {
    if i > 0 { ClonedAllAt(nodes[1..], synthetic, i - 1); }
  }

  // ---------- the clone is the same tree, locations aside ----------

  /** The tree with every location forgotten. */
  ghost function Shape(t: Tree): Tree
    decreases t
  {
    Tree(t.kind, t.flags, SYNTHETIC, t.data, PartShapes(t.slots))
  }

  ghost function PartShapes(parts: seq<Part>): seq<Part>
    decreases parts
  {
    if parts == [] then [] else [PartShape(parts[0])] + PartShapes(parts[1..])
  }

  ghost function PartShape(part: Part): Part
    decreases part
  {
    match part
    case Nil => Nil
    case Sub(t) => Sub(Shape(t))
    case SubList(_, nodes) => SubList(SYNTHETIC, Shapes(nodes))
    case Raw(nodes) => Raw(Shapes(nodes))
  }

  ghost function Shapes(nodes: seq<Tree>): (r: seq<Tree>)
    ensures |r| == |nodes|
    decreases nodes
  {
    if nodes == [] then [] else [Shape(nodes[0])] + Shapes(nodes[1..])
  }

  lemma {:induction false} ShapesAt(nodes: seq<Tree>, i: nat)
    requires i < |nodes|
    ensures Shapes(nodes)[i] == Shape(nodes[i])
  {
    if i > 0 { ShapesAt(nodes[1..], i - 1); }
  }

  lemma MarkLastKeepsShapes(nodes: seq<Tree>, marked: bool)
    ensures Shapes(MarkLast(nodes, marked)) == Shapes(nodes)
  {
    var m := MarkLast(nodes, marked);
    forall i | 0 <= i < |nodes| ensures Shapes(m)[i] == Shapes(nodes)[i] {
      ShapesAt(m, i);
      ShapesAt(nodes, i);
    }
  }

  /** Deep cloning gives an isomorphic tree. */
  lemma {:induction false} ClonedShape(t: Tree, synthetic: bool)
    ensures Shape(Cloned(t, synthetic)) == Shape(t)
    decreases t
  {
    ClonedPartShapes(t.slots, synthetic);
  }

  lemma {:induction false} ClonedPartShapes(parts: seq<Part>, synthetic: bool)
    ensures PartShapes(ClonedParts(parts, synthetic)) == PartShapes(parts)
    decreases parts
  {
    if parts != [] {
      ClonedPartShape(parts[0], synthetic);
      ClonedPartShapes(parts[1..], synthetic);
    }
  }

  lemma {:induction false} ClonedPartShape(part: Part, synthetic: bool)
    ensures PartShape(ClonedPart(part, synthetic)) == PartShape(part)
    decreases part
  {
    match part
    case Nil =>
    case Sub(t) => ClonedShape(t, synthetic);
    case SubList(loc, nodes) =>
      ClonedShapes(nodes, synthetic);
      MarkLastKeepsShapes(ClonedAll(nodes, synthetic), TrailingComma(loc, nodes));
    case Raw(nodes) => ClonedShapes(nodes, synthetic);
  }

  lemma {:induction false} ClonedShapes(nodes: seq<Tree>, synthetic: bool)
    ensures Shapes(ClonedAll(nodes, synthetic)) == Shapes(nodes)
    decreases nodes
  {
    if nodes != [] {
      ClonedShape(nodes[0], synthetic);
      ClonedShapes(nodes[1..], synthetic);
    }
  }

  /** Without synthetic locations the clone stands for the very same tree. */
  lemma {:induction false} PlainClone(t: Tree)
    ensures Cloned(t, false) == t
    decreases t
  {
    PlainParts(t.slots);
  }

  lemma {:induction false} PlainParts(parts: seq<Part>)
    ensures ClonedParts(parts, false) == parts
    decreases parts
  {
    if parts != [] {
      PlainPart(parts[0]);
      PlainParts(parts[1..]);
    }
  }

  lemma {:induction false} PlainPart(part: Part)
    ensures ClonedPart(part, false) == part
    decreases part
  {
    match part
    case Nil =>
    case Sub(t) => PlainClone(t);
    case SubList(_, nodes) => PlainAll(nodes);
    case Raw(nodes) => PlainAll(nodes);
  }

  lemma {:induction false} PlainAll(nodes: seq<Tree>)
    ensures ClonedAll(nodes, false) == nodes
    decreases nodes
  {
    if nodes != [] {
      PlainClone(nodes[0]);
      PlainAll(nodes[1..]);
    }
  }

  /** A synthetic list still says whether it has a trailing comma. */
  lemma TrailingCommaSurvives(loc: TextRange, nodes: seq<Tree>)
    ensures var clone := ClonedPart(SubList(loc, nodes), true);
      clone.SubList? && (TrailingComma(clone.loc, clone.nodes) <==> TrailingComma(loc, nodes))
  {
    if nodes != [] { ClonedAllAt(nodes, true, |nodes| - 1); }
  }

  // ---------- where the clone is located ----------

  ghost predicate At(loc: TextRange, p: int) {
    loc.pos == p && loc.end == p
  }

  /** The clone is at p, and below it every node and every list is at -1, except that a node is at -2 which is the
      last of a list whose original ended behind the end of its last node. */
  ghost predicate Located(clone: Tree, t: Tree, p: int)
    decreases t
  {
    && At(clone.loc, p)
    && |clone.slots| == |t.slots|
    && forall i :: 0 <= i < |t.slots| ==> PartLocated(clone.slots[i], t.slots[i])
  }

  ghost predicate PartLocated(clone: Part, part: Part)
    decreases part
  {
    match part
    case Nil => clone.Nil?
    case Sub(t) => clone.Sub? && Located(clone.t, t, -1)
    case SubList(loc, nodes) =>
      clone.SubList? && At(clone.loc, -1) && AllLocated(clone.nodes, nodes, if EndsBehindLast(part) then -2 else -1)
    case Raw(nodes) => clone.Raw? && AllLocated(clone.nodes, nodes, -1)
  }

  ghost predicate AllLocated(clones: seq<Tree>, nodes: seq<Tree>, last: int)
    decreases nodes
  {
    && |clones| == |nodes|
    && forall i :: 0 <= i < |nodes| ==> Located(clones[i], nodes[i], if i == |nodes| - 1 then last else -1)
  }

  ghost predicate EndsBehindLast(list: Part)
    requires list.SubList?
  {
    exists init, last :: list.nodes == init + [last] && list.loc.end > last.loc.end
  }

  lemma EndsBehindLastIsTrailingComma(loc: TextRange, nodes: seq<Tree>)
    ensures EndsBehindLast(SubList(loc, nodes)) <==> TrailingComma(loc, nodes)
  {
    if nodes != [] { assert nodes == nodes[..|nodes| - 1] + [nodes[|nodes| - 1]]; }
  }

  /** A clone with synthetic locations is nowhere in the source, at any depth. */
  lemma {:induction false} CloneIsLocated(t: Tree)
    ensures Located(Cloned(t, true), t, -1)
    decreases t
  {
    forall i | 0 <= i < |t.slots| ensures PartLocated(Cloned(t, true).slots[i], t.slots[i]) {
      ClonedPartsAt(t.slots, true, i);
      ClonedPartIsLocated(t.slots[i]);
    }
  }

  lemma {:induction false} ClonedPartIsLocated(part: Part)
    ensures PartLocated(ClonedPart(part, true), part)
    decreases part
  {
    match part
    case Nil =>
    case Sub(t) => CloneIsLocated(t);
    case SubList(loc, nodes) =>
      EndsBehindLastIsTrailingComma(loc, nodes);
      ClonedAllIsLocated(nodes, TrailingComma(loc, nodes));
    case Raw(nodes) => ClonedAllIsLocated(nodes, false);
  }

  lemma {:induction false} ClonedAllIsLocated(nodes: seq<Tree>, marked: bool)
    ensures AllLocated(MarkLast(ClonedAll(nodes, true), marked), nodes, if marked then -2 else -1)
    decreases nodes
  {
    var clones := MarkLast(ClonedAll(nodes, true), marked);
    forall i | 0 <= i < |nodes|
      ensures Located(clones[i], nodes[i], if i < |nodes| - 1 || !marked then -1 else -2) {
      ClonedAllAt(nodes, true, i);
      CloneIsLocated(nodes[i]);
    }
  }

  // ---------- nodes in memory ----------

  class Node {
    const kind: nat
    const data: string
    const slots: seq<Slot>
    var flags: bv32
    var loc: TextRange

    constructor (kind: nat, data: string, slots: seq<Slot>)
      ensures this.kind == kind && this.data == data && this.slots == slots
    {
      this.kind, this.data, this.slots := kind, data, slots;
    }
  }

  class NodeList {
    const nodes: seq<Node>
    var loc: TextRange

    constructor (nodes: seq<Node>, loc: TextRange)
      ensures this.nodes == nodes && this.loc == loc
    {
      this.nodes, this.loc := nodes, loc;
    }
  }

  datatype Slot = NoChild | NodeChild(node: Node) | ListChild(list: NodeList) | RawChild(nodes: seq<Node>)

  /** The node and what hangs below it, all within fp, stand for the tree. */
  ghost predicate Rep(n: Node, t: Tree, fp: set<object>)
    reads fp
    decreases t
  {
    && n in fp
    && n.kind == t.kind && n.flags == t.flags && n.loc == t.loc && n.data == t.data
    && |n.slots| == |t.slots|
    && forall i :: 0 <= i < |t.slots| ==> RepSlot(n.slots[i], t.slots[i], fp - {n})
  }

  ghost predicate RepSlot(s: Slot, part: Part, fp: set<object>)
    reads fp
    decreases part
  {
    match part
    case Nil => s.NoChild?
    case Sub(t) => s.NodeChild? && Rep(s.node, t, fp)
    case SubList(loc, nodes) =>
      && s.ListChild? && s.list in fp && s.list.loc == loc
      && RepAll(s.list.nodes, nodes, fp - {s.list})
    case Raw(nodes) => s.RawChild? && RepAll(s.nodes, nodes, fp)
  }

  ghost predicate RepAll(ns: seq<Node>, ts: seq<Tree>, fp: set<object>)
    reads fp
    decreases ts
  {
    |ns| == |ts| && forall i :: 0 <= i < |ts| ==> Rep(ns[i], ts[i], fp)
  }

  lemma {:induction false} RepMonotone(n: Node, t: Tree, fp: set<object>, fp': set<object>)
    requires Rep(n, t, fp) && fp <= fp'
    ensures Rep(n, t, fp')
    decreases t
  {
    forall i | 0 <= i < |t.slots| ensures RepSlot(n.slots[i], t.slots[i], fp' - {n}) {
      RepSlotMonotone(n.slots[i], t.slots[i], fp - {n}, fp' - {n});
    }
  }

  lemma {:induction false} RepSlotMonotone(s: Slot, part: Part, fp: set<object>, fp': set<object>)
    requires RepSlot(s, part, fp) && fp <= fp'
    ensures RepSlot(s, part, fp')
    decreases part
  {
    match part
    case Nil =>
    case Sub(t) => RepMonotone(s.node, t, fp, fp');
    case SubList(_, nodes) => RepAllMonotone(s.list.nodes, nodes, fp - {s.list}, fp' - {s.list});
    case Raw(nodes) => RepAllMonotone(s.nodes, nodes, fp, fp');
  }

  lemma {:induction false} RepAllMonotone(ns: seq<Node>, ts: seq<Tree>, fp: set<object>, fp': set<object>)
    requires RepAll(ns, ts, fp) && fp <= fp'
    ensures RepAll(ns, ts, fp')
    decreases ts
  {
    forall i | 0 <= i < |ts| ensures Rep(ns[i], ts[i], fp') {
      RepMonotone(ns[i], ts[i], fp, fp');
    }
  }

  // ---------- what a tree in memory is made of ----------

  /** The node and everything below it, as often as it is reached. */
  ghost function Reached(n: Node, t: Tree): multiset<object>
    decreases t
  {
    multiset{n} + ReachedSlots(n.slots, t.slots)
  }

  ghost function ReachedSlots(slots: seq<Slot>, parts: seq<Part>): multiset<object>
    decreases parts
  {
    if slots == [] || parts == [] then multiset{}
    else ReachedSlots(slots[..|slots| - 1], parts[..|parts| - 1]) + ReachedSlot(slots[|slots| - 1], parts[|parts| - 1])
  }

  ghost function ReachedSlot(s: Slot, part: Part): multiset<object>
    decreases part
  {
    match part
    case Nil => multiset{}
    case Sub(t) => if s.NodeChild? then Reached(s.node, t) else multiset{}
    case SubList(_, nodes) => if s.ListChild? then multiset{s.list} + ReachedAll(s.list.nodes, nodes) else multiset{}
    case Raw(nodes) => if s.RawChild? then ReachedAll(s.nodes, nodes) else multiset{}
  }

  ghost function ReachedAll(ns: seq<Node>, ts: seq<Tree>): multiset<object>
    decreases ts
  {
    if ns == [] || ts == [] then multiset{}
    else ReachedAll(ns[..|ns| - 1], ts[..|ts| - 1]) + Reached(ns[|ns| - 1], ts[|ts| - 1])
  }

  /** Nothing is reached twice, and nothing outside fp. */
  ghost predicate Once(reached: multiset<object>, fp: set<object>) {
    reached <= multiset(fp)
  }

  lemma ReachedNode(n: Node, t: Tree, out: set<object>)
    requires n !in out && Once(ReachedSlots(n.slots, t.slots), out)
    ensures Once(Reached(n, t), out + {n})
  {
    hide ReachedSlots;
    OnceUnion(ReachedSlots(n.slots, t.slots), out, multiset{n}, {n});
  }

  lemma ReachedList(list: NodeList, loc: TextRange, ts: seq<Tree>, marked: bool, out: set<object>)
    requires list !in out && |list.nodes| == |ts| && Once(ReachedAll(list.nodes, ts), out)
    ensures Once(ReachedSlot(ListChild(list), SubList(loc, MarkLast(ts, marked))), out + {list})
  {
    hide ReachedAll, MarkLast;
    ReachedMarked(list.nodes, ts, marked);
    OnceUnion(ReachedAll(list.nodes, ts), out, multiset{list}, {list});
  }

  lemma OnceUnion(a: multiset<object>, fa: set<object>, b: multiset<object>, fb: set<object>)
    requires Once(a, fa) && Once(b, fb) && fa !! fb
    ensures Once(a + b, fa + fb)
  {
  }

  /** Where a tree is located plays no part. */
  lemma ReachedMarked(ns: seq<Node>, ts: seq<Tree>, marked: bool)
    requires |ns| == |ts|
    ensures ReachedAll(ns, MarkLast(ts, marked)) == ReachedAll(ns, ts)
  {
    if marked && ts != [] {
      assert MarkLast(ts, marked)[..|ts| - 1] == ts[..|ts| - 1];
    }
  }

  lemma {:induction false} NothingReached(slots: seq<Slot>, parts: seq<Part>)
    requires |slots| == |parts| && forall i :: 0 <= i < |parts| ==> Unvisited(parts[i])
    ensures ReachedSlots(slots, parts) == multiset{}
  {
    if parts != [] {
      NothingReached(slots[..|slots| - 1], parts[..|parts| - 1]);
      assert Unvisited(parts[|parts| - 1]) && ReachedSlot(slots[|parts| - 1], parts[|parts| - 1]) == multiset{};
    }
  }

  /** Nothing in the part is freshly allocated by a visit: it is nil, or an empty slice. */
  predicate Unvisited(part: Part) {
    part.Nil? || (part.Raw? && part.nodes == [])
  }

  // ---------- the visitor ----------

  /** The visit callback: a rebuilt node as it is, an unchanged one cloned by force. */
  method Visit(node: Node, synthetic: bool, ghost t: Tree, ghost fp: set<object>)
    returns (r: Node, ghost out: set<object>)
    requires Rep(node, t, fp)
    ensures fresh(out) && r in out && Rep(r, Cloned(t, synthetic), out)
    ensures Once(Reached(r, Cloned(t, synthetic)), out)
    decreases t, 1
  {
    var visited, made := VisitEachChild(node, synthetic, t, fp);
    if visited != node {
      r, out := visited, made;
    } else {
      r := Clone(node);
      out := {r};
      UnvisitedParts(node, r, t, synthetic, fp, out);
      NothingReached(r.slots, ClonedParts(t.slots, synthetic));
    }
    if synthetic {
      r.loc := SYNTHETIC;
    }
  }

  /** Node.Clone: a new node over the same members, flags and location copied. */
  method Clone(node: Node) returns (c: Node)
    ensures fresh(c) && c.kind == node.kind && c.data == node.data && c.slots == node.slots
    ensures c.flags == node.flags && c.loc == node.loc
  {
    c := new Node(node.kind, node.data, node.slots);
    c.flags := node.flags;
    c.loc := node.loc;
  }

  /** A node none of whose parts is visited shares nothing that could be aliased when it is cloned. */
  lemma UnvisitedParts(node: Node, c: Node, t: Tree, synthetic: bool, fp: set<object>, out: set<object>)
    requires Rep(node, t, fp) && c in out && c.slots == node.slots
    requires forall i :: 0 <= i < |t.slots| ==> Unvisited(t.slots[i])
    ensures forall i :: 0 <= i < |t.slots| ==> Unvisited(ClonedParts(t.slots, synthetic)[i])
    ensures forall i :: 0 <= i < |t.slots| ==> RepSlot(c.slots[i], ClonedParts(t.slots, synthetic)[i], out - {c})
  {
    forall i | 0 <= i < |t.slots| ensures Unvisited(ClonedParts(t.slots, synthetic)[i]) {
      ClonedPartsAt(t.slots, synthetic, i);
    }
    forall i | 0 <= i < |t.slots| ensures RepSlot(c.slots[i], ClonedParts(t.slots, synthetic)[i], out - {c}) {
      ClonedPartsAt(t.slots, synthetic, i);
      assert RepSlot(node.slots[i], t.slots[i], fp - {node});
      if t.slots[i].Raw? {
        assert RepAll(node.slots[i].nodes, [], fp - {node});
        assert RepAll([], ClonedAll([], synthetic), out - {c});
      }
    }
  }

  /** VisitEachChild followed by Update: the node itself when no member changed, else a new node
      with the flags and the location of the old. */
  method VisitEachChild(node: Node, synthetic: bool, ghost t: Tree, ghost fp: set<object>)
    returns (r: Node, ghost out: set<object>)
    requires Rep(node, t, fp)
    ensures r == node ==> forall i :: 0 <= i < |t.slots| ==> Unvisited(t.slots[i])
    ensures r != node ==> fresh(out) && r in out
    ensures r != node ==> Rep(r, t.(slots := ClonedParts(t.slots, synthetic)), out)
    ensures r != node ==> Once(Reached(r, t.(slots := ClonedParts(t.slots, synthetic))), out)
    decreases t, 0
  {
    hide Once, Reached, ReachedSlots, ReachedSlot, AreSlots;
    var slots: seq<Slot> := [];
    out := {};
    NoSlots(ClonedParts(t.slots, synthetic));
    for i := 0 to |node.slots|
      invariant |slots| == i && fresh(out)
      invariant AreSlots(slots, ClonedParts(t.slots, synthetic), out)
      invariant forall j :: 0 <= j < i ==> (slots[j] == node.slots[j] <==> Unvisited(t.slots[j]))
    {
      assert RepSlot(node.slots[i], t.slots[i], fp - {node});
      ClonedPartsAt(t.slots, synthetic, i);
      var s, made := VisitSlot(node.slots[i], synthetic, t.slots[i], fp - {node});
      OneMoreSlot(slots, s, ClonedParts(t.slots, synthetic), out, made);
      out := out + made;
      slots := slots + [s];
    }
    AllSlots(slots, ClonedParts(t.slots, synthetic), out);
    if slots != node.slots {
      r := new Node(node.kind, node.data, slots);
      r.flags := node.flags;
      r.loc := node.loc;
      assert out + {r} - {r} == out;
      ReachedNode(r, t.(slots := ClonedParts(t.slots, synthetic)), out);
      out := out + {r};
    } else {
      r := node;
    }
  }

  /** Visited members, in place and sharing nothing. */
  ghost predicate AreSlots(slots: seq<Slot>, parts: seq<Part>, out: set<object>)
    reads out
  {
    && |slots| <= |parts|
    && (forall j :: 0 <= j < |slots| ==> RepSlot(slots[j], parts[j], out))
    && Once(ReachedSlots(slots, parts[..|slots|]), out)
  }

  lemma NoSlots(parts: seq<Part>)
    ensures AreSlots([], parts, {})
  {
  }

  lemma OneMoreSlot(slots: seq<Slot>, s: Slot, parts: seq<Part>, out: set<object>, made: set<object>)
    requires |slots| < |parts| && AreSlots(slots, parts, out) && out !! made
    requires RepSlot(s, parts[|slots|], made) && Once(ReachedSlot(s, parts[|slots|]), made)
    ensures AreSlots(slots + [s], parts, out + made)
  {
    hide ReachedSlot, RepSlot, Once;
    var i := |slots|;
    forall j | 0 <= j < i ensures RepSlot(slots[j], parts[j], out + made) {
      RepSlotMonotone(slots[j], parts[j], out, out + made);
    }
    RepSlotMonotone(s, parts[i], made, out + made);
    assert (slots + [s])[..i] == slots && parts[..i + 1][..i] == parts[..i];
    OnceUnion(ReachedSlots(slots, parts[..i]), out, ReachedSlot(s, parts[i]), made);
  }

  lemma AllSlots(slots: seq<Slot>, parts: seq<Part>, out: set<object>)
    requires AreSlots(slots, parts, out) && |slots| == |parts|
    ensures forall j :: 0 <= j < |slots| ==> RepSlot(slots[j], parts[j], out)
    ensures Once(ReachedSlots(slots, parts), out)
  {
    assert parts[..|slots|] == parts;
  }

  lemma OneMoreNode(ns: seq<Node>, n: Node, ts: seq<Tree>, i: nat, out: set<object>, made: set<object>)
    requires i == |ns| < |ts| && out !! made
    requires Once(ReachedAll(ns, ts[..i]), out) && Once(Reached(n, ts[i]), made)
    ensures Once(ReachedAll(ns + [n], ts[..i + 1]), out + made)
  {
    hide Reached;
    assert (ns + [n])[..i] == ns && ts[..i + 1][..i] == ts[..i];
    OnceUnion(ReachedAll(ns, ts[..i]), out, Reached(n, ts[i]), made);
  }

  /** One member: nil stays nil, a node or a list is visited, a raw slice is mapped. */
  method VisitSlot(s: Slot, synthetic: bool, ghost part: Part, ghost fp: set<object>)
    returns (r: Slot, ghost out: set<object>)
    requires RepSlot(s, part, fp)
    ensures fresh(out) && RepSlot(r, ClonedPart(part, synthetic), out)
    ensures Once(ReachedSlot(r, ClonedPart(part, synthetic)), out)
    ensures r == s <==> Unvisited(part)
    decreases part, 1
  {
    match s
    case NoChild =>
      r, out := NoChild, {};
    case NodeChild(node) =>
      var visited, made := Visit(node, synthetic, part.t, fp);
      r, out := NodeChild(visited), made;
    case ListChild(list) =>
      var visited, made := VisitNodes(list, synthetic, part, fp);
      r, out := ListChild(visited), made;
    case RawChild(nodes) =>
      var mapped, made, last := VisitSlice(nodes, synthetic, part.nodes, fp);
      AllOfSlice(mapped, ClonedAll(part.nodes, synthetic), made, last);
      r, out := RawChild(mapped), made + last;
  }

  /** Visits every node of a slice.  The footprint of the last result is kept apart from the others'. */
  method VisitSlice(nodes: seq<Node>, synthetic: bool, ghost ts: seq<Tree>, ghost fp: set<object>)
    returns (r: seq<Node>, ghost before: set<object>, ghost last: set<object>)
    requires RepAll(nodes, ts, fp)
    ensures fresh(before) && fresh(last) && |r| == |nodes| == |ts|
    ensures IsSlice(r, ClonedAll(ts, synthetic), before, last)
    ensures r != [] ==> r != nodes
    decreases ts, 0
  {
    hide RepAll, Rep, Once, Reached, Cloned, ClonedAll, IsSlice;
    SameLength(nodes, ts, fp);
    r, before, last := [], {}, {};
    NoSlice(ClonedAll(ts, synthetic));
    for i := 0 to |nodes|
      invariant |r| == i && fresh(before) && fresh(last)
      invariant IsSlice(r, ClonedAll(ts, synthetic), before, last)
      invariant i > 0 ==> r[0] != nodes[0]
    {
      ElementOf(nodes, ts, i, fp);
      ClonedAllAt(ts, synthetic, i);
      var visited, made := Visit(nodes[i], synthetic, ts[i], fp);
      LongerSlice(r, visited, ClonedAll(ts, synthetic), before, last, made);
      r := r + [visited];
      before, last := before + last, made;
    }
  }

  /** Clones of the first trees, the last of them apart from the others. */
  ghost predicate IsSlice(r: seq<Node>, ts: seq<Tree>, before: set<object>, last: set<object>)
    reads before + last
  {
    && |r| <= |ts| && before !! last
    && (r != [] ==> RepAll(r[..|r| - 1], ts[..|r| - 1], before) && Rep(r[|r| - 1], ts[|r| - 1], last))
    && Once(ReachedAll(r, ts[..|r|]), before + last)
  }

  lemma NoSlice(ts: seq<Tree>)
    ensures IsSlice([], ts, {}, {})
  {
  }

  lemma LongerSlice(r: seq<Node>, n: Node, ts: seq<Tree>, before: set<object>, last: set<object>, made: set<object>)
    requires |r| < |ts| && IsSlice(r, ts, before, last) && made !! before + last
    requires Rep(n, ts[|r|], made) && Once(Reached(n, ts[|r|]), made)
    ensures IsSlice(r + [n], ts, before + last, made)
  {
    hide Rep, RepAll, Once, Reached, ReachedAll;
    WholeSlice(r, ts, before, last);
    assert (r + [n])[..|r|] == r;
    OneMoreNode(r, n, ts, |r|, before + last, made);
  }

  lemma WholeSlice(r: seq<Node>, ts: seq<Tree>, before: set<object>, last: set<object>)
    requires IsSlice(r, ts, before, last)
    ensures RepAll(r, ts[..|r|], before + last)
  {
    hide Rep, Once;
    var i := |r|;
    if i > 0 {
      RepAllMonotone(r[..i - 1], ts[..i - 1], before, before + last);
      RepMonotone(r[i - 1], ts[i - 1], last, before + last);
      forall k | 0 <= k < i ensures Rep(r[k], ts[..i][k], before + last) {
        if k < i - 1 { assert Rep(r[..i - 1][k], ts[..i - 1][k], before + last); }
      }
    }
  }

  lemma SameLength(ns: seq<Node>, ts: seq<Tree>, fp: set<object>)
    requires RepAll(ns, ts, fp)
    ensures |ns| == |ts|
  {
  }

  lemma ElementOf(ns: seq<Node>, ts: seq<Tree>, i: nat, fp: set<object>)
    requires RepAll(ns, ts, fp) && i < |ns|
    ensures |ns| == |ts| && Rep(ns[i], ts[i], fp)
  {
  }

  /** The VisitNodes hook: always a new list, marked when its locations are made synthetic. */
  method VisitNodes(list: NodeList, synthetic: bool, ghost part: Part, ghost fp: set<object>)
    returns (newList: NodeList, ghost out: set<object>)
    requires part.SubList? && RepSlot(ListChild(list), part, fp)
    ensures fresh(out) && newList != list && RepSlot(ListChild(newList), ClonedPart(part, synthetic), out)
    ensures Once(ReachedSlot(ListChild(newList), ClonedPart(part, synthetic)), out)
    decreases part, 0
  {
    assert RepAll(list.nodes, part.nodes, fp - {list});
    CommaIs(list, part.loc, part.nodes, fp - {list});
    hide Once, Reached, ReachedAll, ReachedSlot, IsSlice, Rep, RepAll, TrailingComma, MarkLast, Cloned, ClonedAll;
    var visited, before, last := VisitSlice(list.nodes, synthetic, part.nodes, fp - {list});
    if visited != list.nodes {
      newList := new NodeList(visited, list.loc);
    } else {
      newList := new NodeList(list.nodes, list.loc);
    }
    out := before + last + {newList};
    ghost var clones := ClonedAll(part.nodes, synthetic);
    if synthetic {
      var trailingComma := list.nodes != [] && list.nodes[|list.nodes| - 1].loc.end < list.loc.end;
      MakeSynthetic(newList, trailingComma, clones, before, last);
    } else {
      AllOfSlice(visited, clones, before, last);
      Unmarked(clones);
      ListInPlace(newList, list.loc, clones, false, before + last);
    }
  }

  /** The list's own location, and a marker in its last node's if there was a trailing comma. */
  method MakeSynthetic(newList: NodeList, trailingComma: bool, ghost clones: seq<Tree>, ghost before: set<object>,
                       ghost last: set<object>)
    requires IsSlice(newList.nodes, clones, before, last) && |newList.nodes| == |clones| && newList !in before + last
    requires trailingComma ==> newList.nodes != []
    modifies newList`loc, last
    ensures var part := SubList(SYNTHETIC, MarkLast(clones, trailingComma));
      && RepSlot(ListChild(newList), part, before + last + {newList})
      && Once(ReachedSlot(ListChild(newList), part), before + last + {newList})
  {
    hide Once, Reached, ReachedAll, ReachedSlot, IsSlice, Rep, RepAll, MarkLast;
    newList.loc := SYNTHETIC;
    AllOfSlice(newList.nodes, clones, before, last);
    Unmarked(clones);
    if trailingComma {
      LastIsIn(newList.nodes, clones, before, last);
      MarkLastNode(newList.nodes[|newList.nodes| - 1], newList.nodes, before, last, clones);
    }
    ListInPlace(newList, SYNTHETIC, clones, trailingComma, before + last);
  }

  lemma LastIsIn(r: seq<Node>, ts: seq<Tree>, before: set<object>, last: set<object>)
    requires IsSlice(r, ts, before, last) && r != []
    ensures r[|r| - 1] in last
  {
  }

  lemma ListInPlace(list: NodeList, loc: TextRange, ts: seq<Tree>, marked: bool, out: set<object>)
    requires list !in out && list.loc == loc && |list.nodes| == |ts|
    requires RepAll(list.nodes, MarkLast(ts, marked), out) && Once(ReachedAll(list.nodes, ts), out)
    ensures RepSlot(ListChild(list), SubList(loc, MarkLast(ts, marked)), out + {list})
    ensures Once(ReachedSlot(ListChild(list), SubList(loc, MarkLast(ts, marked))), out + {list})
  {
    hide Once, ReachedAll, RepAll, MarkLast;
    assert out + {list} - {list} == out;
    ReachedList(list, loc, ts, marked, out);
  }

  lemma Unmarked(ts: seq<Tree>)
    ensures MarkLast(ts, false) == ts
  {
  }

  lemma CommaIs(list: NodeList, loc: TextRange, ts: seq<Tree>, fp: set<object>)
    requires RepAll(list.nodes, ts, fp) && list.loc == loc
    ensures TrailingComma(loc, ts) <==> list.nodes != [] && list.nodes[|list.nodes| - 1].loc.end < list.loc.end
  {
    if list.nodes != [] { assert Rep(list.nodes[|list.nodes| - 1], ts[|list.nodes| - 1], fp); }
  }

  lemma AllOfSlice(r: seq<Node>, ts: seq<Tree>, before: set<object>, last: set<object>)
    requires IsSlice(r, ts, before, last) && |r| == |ts|
    ensures RepAll(r, ts, before + last) && Once(ReachedAll(r, ts), before + last)
  {
    hide Rep, RepAll, Once, ReachedAll;
    assert ts[..|r|] == ts;
    WholeSlice(r, ts, before, last);
  }

  method MarkLastNode(node: Node, ghost nodes: seq<Node>, ghost before: set<object>, ghost last: set<object>,
                      ghost ts: seq<Tree>)
    requires nodes != [] && node == nodes[|nodes| - 1] && |nodes| == |ts| && IsSlice(nodes, ts, before, last)
    modifies node`loc
    ensures RepAll(nodes, MarkLast(ts, true), before + last)
  {
    ghost var n := |nodes|;
    hide Once, Reached, ReachedAll;
    node.loc := SYNTHETIC_BEFORE_COMMA;
    ghost var marked := MarkLast(ts, true);
    assert Rep(node, marked[n - 1], last);
    RepMonotone(node, marked[n - 1], last, before + last);
    RepAllMonotone(nodes[..n - 1], ts[..n - 1], before, before + last);
    forall i | 0 <= i < n ensures Rep(nodes[i], marked[i], before + last) {
      if i < n - 1 { assert Rep(nodes[..n - 1][i], ts[..n - 1][i], before + last); }
    }
  }

  // ---------- the entry points ----------

  /** A fresh copy of the whole tree with synthetic locations. Whatever the original shares, no node or list is
      twice in the copy, and the original is left as it was. */
  method DeepCloneNode(node: Node, ghost t: Tree, ghost fp: set<object>) returns (r: Node, ghost out: set<object>)
    requires Rep(node, t, fp)
    ensures fresh(out) && Rep(r, Cloned(t, true), out) && Shape(Cloned(t, true)) == Shape(t)
    ensures Located(Cloned(t, true), t, -1)
    ensures Once(Reached(r, Cloned(t, true)), out)
    ensures Rep(node, t, fp)
  {
    r, out := Visit(node, true, t, fp);
    ClonedShape(t, true);
    CloneIsLocated(t);
  }

  const NODE_FLAGS_REPARSED: bv32 := 8

  /** A fresh copy of the whole tree, locations included, whose root is flagged as reparsed. */
  method DeepCloneReparse(node: Node, ghost t: Tree, ghost fp: set<object>) returns (r: Node, ghost out: set<object>)
    requires Rep(node, t, fp)
    ensures fresh(out) && Rep(r, t.(flags := t.flags | NODE_FLAGS_REPARSED), out)
    ensures Once(Reached(r, t), out)
    ensures Rep(node, t, fp)
  {
    r, out := Visit(node, false, t, fp);
    PlainClone(t);
    r.flags := r.flags | NODE_FLAGS_REPARSED;
  }
}

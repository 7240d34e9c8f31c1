/** Can an assignment to a shadowing variable flow to a use of the shadowed one?
    (tools/customlint/shadow.go) */
module Shadow {

  datatype AstNode = AstNode(pos: int, end: int)

  datatype Block = Block(nodes: seq<AstNode>, succs: seq<nat>)

  /** A control-flow graph, cycles and unreachable blocks included. */
  ghost predicate Graph(blocks: seq<Block>) {
    forall b, k :: 0 <= b < |blocks| && 0 <= k < |blocks[b].succs| ==> blocks[b].succs[k] < |blocks|
  }

  predicate PosInBlock(b: Block, pos: int) {
    b.nodes != [] && b.nodes[0].pos <= pos <= b.nodes[|b.nodes| - 1].end
  }

  /** A block whose nodes follow one another holds what any of its nodes holds, its bounds included, and nothing
      in front of the first or behind the last. */
  lemma NodesAreInBlock(b: Block, k: nat, pos: int)
    requires k < |b.nodes| && forall i, j :: 0 <= i < j < |b.nodes| ==> b.nodes[i].end <= b.nodes[j].pos
    requires forall i :: 0 <= i < |b.nodes| ==> b.nodes[i].pos <= b.nodes[i].end
    ensures b.nodes[k].pos <= pos <= b.nodes[k].end ==> PosInBlock(b, pos)
    ensures (forall i :: 0 <= i < |b.nodes| ==> pos < b.nodes[i].pos) ==> !PosInBlock(b, pos)
    ensures (forall i :: 0 <= i < |b.nodes| ==> b.nodes[i].end < pos) ==> !PosInBlock(b, pos)
  {
    var last := |b.nodes| - 1;
    assert k > 0 ==> b.nodes[0].end <= b.nodes[k].pos;
    assert k < last ==> b.nodes[k].end <= b.nodes[last].pos;
  }

  /** The first of the uses that lies in the block. */
  function FirstUse(b: Block, uses: seq<int>): (i: nat)
    ensures i <= |uses|
    ensures i < |uses| ==> PosInBlock(b, uses[i])
    ensures forall j :: 0 <= j < i ==> !PosInBlock(b, uses[j])
  {
    if uses == [] then 0
    else if PosInBlock(b, uses[0]) then 0
    else
      var r := 1 + FirstUse(b, uses[1..]);
      assert forall j :: 0 < j < r ==> uses[j] == uses[1..][j - 1];
      r
  }

  ghost function Below(n: nat): (r: set<nat>)
    ensures forall x: nat :: x in r <==> x < n
  {
    if n == 0 then {} else Below(n - 1) + {n - 1}
  }

  datatype Query = Query(blocks: seq<Block>, decl: int, uses: seq<int>) {

    predicate Declares(b: nat)
      requires b < |blocks|
    {
      PosInBlock(blocks[b], decl)
    }

    predicate HasUse(b: nat)
      requires b < |blocks|
    {
      FirstUse(blocks[b], uses) < |uses|
    }

    /** Consecutive blocks are linked and none of them contains the declaration. */
    ghost predicate FreePath(path: seq<nat>) {
      && path != []
      && (forall i :: 0 <= i < |path| ==> path[i] < |blocks| && !Declares(path[i]))
      && (forall i :: 0 < i < |path| ==> path[i] in blocks[path[i - 1]].succs)
    }

    ghost predicate Leads(b: nat, path: seq<nat>) {
      FreePath(path) && path[0] == b && HasUse(path[|path| - 1])
    }

    /** A free path from b ends in a block with a use. */
    ghost predicate ReachesUse(b: nat) {
      exists path :: Leads(b, path)
    }

    /** Nothing is to be found from b as long as nothing is to be found from the blocks in `seen`. */
    ghost predicate Settled(b: nat, seen: set<nat>)
      requires b < |blocks|
    {
      Declares(b) || (!HasUse(b) && forall s :: s in blocks[b].succs ==> s in seen)
    }

    /** Everything in `seen` beyond `from` is settled. */
    ghost predicate SettledSince(from: set<nat>, seen: set<nat>) {
      forall x :: x in seen && x !in from ==> x < |blocks| && Settled(x, seen)
    }

    lemma SettledLater(from: set<nat>, seen: set<nat>, later: set<nat>)
      requires SettledSince(from, seen) && seen <= later && SettledSince(seen, later)
      ensures SettledSince(from, later)
    {
      forall x | x in later && x !in from ensures x < |blocks| && Settled(x, later) {
        if x in seen { assert Settled(x, seen); }
      }
    }

    lemma {:induction false} SettledFindsNothing(path: seq<nat>, seen: set<nat>)
      requires FreePath(path) && path[0] in seen
      requires SettledSince({}, seen)
      ensures !HasUse(path[|path| - 1])
    {
      assert Settled(path[0], seen);
      if |path| > 1 {
        assert path[1] in blocks[path[0]].succs;
        var rest := path[1..];
        assert forall i :: 0 < i < |rest| ==> rest[i] == path[i + 1] && rest[i - 1] == path[i];
        SettledFindsNothing(rest, seen);
      }
    }

    lemma Extend(b: nat, s: nat, path: seq<nat>)
      requires b < |blocks| && !Declares(b) && s in blocks[b].succs && Leads(s, path)
      ensures Leads(b, [b] + path)
    {
      var longer := [b] + path;
      assert forall i :: 0 < i < |longer| ==> longer[i] == path[i - 1];
      assert longer[|longer| - 1] == path[|path| - 1];
    }
  }

  /** The position reported: the first use in the block the path ends in. */
  ghost predicate Reports(q: Query, b: nat, path: seq<nat>, pos: int) {
    q.Leads(b, path) && pos == q.uses[FirstUse(q.blocks[path[|path| - 1]], q.uses)]
  }

  class Search {
    const q: Query
    var seen: set<nat>

    constructor (q: Query)
      ensures this.q == q && seen == {}
    {
      this.q, seen := q, {};
    }

    method Reachable(b: nat) returns (pos: int, found: bool)
      requires Graph(q.blocks) && b < |q.blocks|
      modifies this
      ensures old(seen) <= seen && b in seen
      ensures found ==> exists path :: Reports(q, b, path, pos)
      ensures !found ==> q.SettledSince(old(seen), seen)
      decreases Below(|q.blocks|) - seen
    {
      if b in seen {
        return 0, false;
      }
      seen := seen + {b};
      if q.Declares(b) {
        return 0, false;
      }
      var blk := q.blocks[b];
      for i := 0 to |q.uses|
        invariant forall j :: 0 <= j < i ==> !PosInBlock(blk, q.uses[j])
      {
        if PosInBlock(blk, q.uses[i]) {
          assert FirstUse(blk, q.uses) == i;
          assert Reports(q, b, [b], q.uses[i]);
          return q.uses[i], true;
        }
      }
      for i := 0 to |blk.succs|
        invariant old(seen) + {b} <= seen
        invariant forall j :: 0 <= j < i ==> blk.succs[j] in seen
        invariant q.SettledSince(old(seen) + {b}, seen)
      {
        ghost var before := seen;
        var p, ok := Reachable(blk.succs[i]);
        if ok {
          ghost var path :| Reports(q, blk.succs[i], path, p);
          q.Extend(b, blk.succs[i], path);
          assert Reports(q, b, [b] + path, p);
          return p, true;
        }
        q.SettledLater(old(seen) + {b}, before, seen);
      }
      assert q.Settled(b, seen);
      return 0, false;
    }
  }

  /** The search finds a use exactly when a free path from a successor of the assignment's block leads to one. */
  method PositionIsReachable(blocks: seq<Block>, ident: int, decl: int, uses: seq<int>)
    returns (pos: int, found: bool, start: nat)
    requires Graph(blocks)
    requires exists b :: 0 <= b < |blocks| && PosInBlock(blocks[b], ident)
    ensures start < |blocks| && PosInBlock(blocks[start], ident)
    ensures forall b :: 0 <= b < start ==> !PosInBlock(blocks[b], ident)
    ensures found <==> exists s :: s in blocks[start].succs && Query(blocks, decl, uses).ReachesUse(s)
    ensures found ==> exists s, path :: s in blocks[start].succs && Reports(Query(blocks, decl, uses), s, path, pos)
  {
    var q := Query(blocks, decl, uses);
    start := 0;
    while !PosInBlock(blocks[start], ident)
      invariant start < |blocks|
      invariant forall b :: 0 <= b < start ==> !PosInBlock(blocks[b], ident)
      decreases |blocks| - start
    {
      start := start + 1;
    }
    var search := new Search(q);
    var succs := blocks[start].succs;
    for i := 0 to |succs|
      invariant search.q == q && fresh(search)
      invariant forall j :: 0 <= j < i ==> succs[j] in search.seen
      invariant q.SettledSince({}, search.seen)
    {
      ghost var before := search.seen;
      var p, ok := search.Reachable(succs[i]);
      if ok {
        ghost var path :| Reports(q, succs[i], path, p);
        assert succs[i] in succs && q.ReachesUse(succs[i]);
        return p, true, start;
      }
      q.SettledLater({}, before, search.seen);
    }
    forall s, path | s in succs && q.Leads(s, path) ensures false {
      q.SettledFindsNothing(path, search.seen);
    }
    return 0, false, start;
  }
}

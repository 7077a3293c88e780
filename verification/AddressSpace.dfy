/** The address space handled by scripts/nodeset_address_space_utils.py, seen as a
    labelled graph: every node carries an ordered list of typed references, each one
    forward (the node is the source) or inverse (the node is the target).

    A NodeId text is kept as its namespace index and the rest of the text; a text
    without the `ns=<k>;` prefix has index 0, so `ns=0;i=85` and `i=85` are one value.
 */
module AddressSpace {
  import opened Basics

  datatype NodeId = NodeId(ns: nat, text: string)

  datatype Kind =
    | UAObject | UAVariable | UAMethod | UAView
    | UAObjectType | UAVariableType | UADataType | UAReferenceType

  datatype Ref = Ref(refType: NodeId, target: NodeId, forward: bool)

  datatype Node = Node(kind: Kind, refs: seq<Ref>, parent: Option<NodeId>, dataType: Option<NodeId>)

  type Graph = map<NodeId, Node>

  /** The element tree of the merger, with the alias table. `_find_node_with_nid` is a lookup in `nodes`. */
  class Tree {
    var nodes: Graph
    var aliases: map<NodeId, NodeId>

    constructor (nodes: Graph, aliases: map<NodeId, NodeId>)
      ensures this.nodes == nodes && this.aliases == aliases
    {
      this.nodes, this.aliases := nodes, aliases;
    }

    /** `_remove_refs_to_nids`: every node drops its references to `nids`. */
    method RemoveRefsTo(nids: set<NodeId>)
      modifies this`nodes
      ensures nodes == DropRefsTo(old(nodes), nids)
    {
      var todo := nodes.Keys;
      while todo != {}
        invariant todo <= nodes.Keys == old(nodes).Keys
        invariant forall n :: n in todo ==> nodes[n] == old(nodes)[n]
        invariant forall n :: n in nodes && n !in todo ==>
          nodes[n] == old(nodes)[n].(refs := RefsOutside(old(nodes)[n].refs, nids))
      {
        var n :| n in todo;
        todo := todo - {n};
        var kept := RefsNotTo(nodes[n].refs, nids);
        nodes := nodes[n := nodes[n].(refs := kept)];
      }
    }
  }

  function Unalias(aliases: map<NodeId, NodeId>, nid: NodeId): NodeId {
    if nid in aliases then aliases[nid] else nid
  }

  /** An alias is a name: neither a node of the tree nor the value of an alias is itself an alias. */
  ghost predicate AliasesAreNames(g: Graph, aliases: map<NodeId, NodeId>) {
    aliases.Keys !! g.Keys && aliases.Keys !! aliases.Values
  }

  method RefsNotTo(refs: seq<Ref>, nids: set<NodeId>) returns (kept: seq<Ref>)
    ensures kept == RefsOutside(refs, nids)
  {
    kept := [];
    for i := 0 to |refs|
      invariant kept == RefsOutside(refs[..i], nids)
    {
      assert refs[..i + 1] == refs[..i] + [refs[i]];
      RefsOutsideSnoc(refs[..i], refs[i], nids);
      if refs[i].target !in nids {
        kept := kept + [refs[i]];
      }
    }
    assert refs[..|refs|] == refs;
  }

  // ----- References (a, t, b) of section 4.3.4 of OPC UA Part 3 -----

  /** The reference (a, t, b) is stored in its source node. */
  predicate Forward(g: Graph, a: NodeId, t: NodeId, b: NodeId) {
    a in g && Ref(t, b, true) in g[a].refs
  }

  /** The reference (a, t, b) is stored in its target node. */
  predicate Inverse(g: Graph, a: NodeId, t: NodeId, b: NodeId) {
    b in g && Ref(t, a, false) in g[b].refs
  }

  ghost predicate Reciprocal(g: Graph) {
    forall a, t, b :: a in g && b in g ==> (Forward(g, a, t, b) <==> Inverse(g, a, t, b))
  }

  /** Every reference of every node satisfies the same membership in both graphs. */
  ghost predicate SameRefs(g: Graph, h: Graph) {
    g.Keys == h.Keys && forall n, r :: n in g ==> (r in g[n].refs <==> r in h[n].refs)
  }

  // ----- Removing nodes together with every reference to them -----

  function RefsOutside(refs: seq<Ref>, gone: set<NodeId>): seq<Ref> {
    if refs == [] then []
    else (if refs[0].target in gone then [] else [refs[0]]) + RefsOutside(refs[1..], gone)
  }

  lemma {:induction false} RefsOutsideMembers(refs: seq<Ref>, gone: set<NodeId>)
    ensures forall r :: r in RefsOutside(refs, gone) <==> r in refs && r.target !in gone
  {
    if refs != [] {
      RefsOutsideMembers(refs[1..], gone);
      assert refs == [refs[0]] + refs[1..];
    }
  }

  lemma {:induction false} RefsOutsideTwice(refs: seq<Ref>, a: set<NodeId>, b: set<NodeId>)
    ensures RefsOutside(RefsOutside(refs, a), b) == RefsOutside(refs, a + b)
  {
    if refs != [] {
      RefsOutsideTwice(refs[1..], a, b);
      var rest := RefsOutside(refs[1..], a);
      if refs[0].target in a {
        assert [] + rest == rest;
      } else {
        assert ([refs[0]] + rest)[1..] == rest;
      }
    }
  }

  lemma {:induction false} RefsOutsideSnoc(refs: seq<Ref>, r: Ref, gone: set<NodeId>)
    ensures RefsOutside(refs + [r], gone) == RefsOutside(refs, gone) + (if r.target in gone then [] else [r])
  {
    if refs == [] {
      assert refs + [r] == [r];
      assert [r][1..] == [];
    } else {
      var head := if refs[0].target in gone then [] else [refs[0]];
      assert (refs + [r])[1..] == refs[1..] + [r];
      RefsOutsideSnoc(refs[1..], r, gone);
      var rest := RefsOutside(refs[1..], gone);
      assert forall tail :: head + (rest + tail) == head + rest + tail;
    }
  }

  function DropRefsTo(g: Graph, gone: set<NodeId>): Graph {
    map n | n in g :: g[n].(refs := RefsOutside(g[n].refs, gone))
  }

  /** `g` without the nodes of `gone` and without the references that lead to them. */
  function Prune(g: Graph, gone: set<NodeId>): Graph {
    map n | n in g && n !in gone :: g[n].(refs := RefsOutside(g[n].refs, gone))
  }

  lemma PruneTwice(g: Graph, a: set<NodeId>, b: set<NodeId>)
    ensures Prune(Prune(g, a), b) == Prune(g, a + b)
  {
    forall n | n in g && n !in a + b
      ensures Prune(Prune(g, a), b)[n] == Prune(g, a + b)[n]
    {
      RefsOutsideTwice(g[n].refs, a, b);
    }
  }

  lemma {:induction false} RefsOutsideNothing(refs: seq<Ref>)
    ensures RefsOutside(refs, {}) == refs
  {
    if refs != [] {
      RefsOutsideNothing(refs[1..]);
    }
  }

  lemma PruneNothing(g: Graph)
    ensures Prune(g, {}) == g
  {
    forall n | n in g
      ensures Prune(g, {})[n] == g[n]
    {
      RefsOutsideNothing(g[n].refs);
    }
  }

  /** The reference lists of a pruned graph, as sets. */
  lemma PruneMembers(g: Graph, gone: set<NodeId>)
    ensures forall n, r :: n in Prune(g, gone) ==>
      (r in Prune(g, gone)[n].refs <==> r in g[n].refs && r.target !in gone)
  {
    forall n | n in g && n !in gone
      ensures forall r :: r in Prune(g, gone)[n].refs <==> r in g[n].refs && r.target !in gone
    {
      RefsOutsideMembers(g[n].refs, gone);
    }
  }

  /** `h` is `g` after some removals: nothing else changed and no reference leads to a removed node. */
  predicate Pruning(g: Graph, h: Graph) {
    h.Keys <= g.Keys && h == Prune(g, g.Keys - h.Keys)
  }

  lemma PruningOfPrune(g: Graph, gone: set<NodeId>)
    requires gone <= g.Keys
    ensures Pruning(g, Prune(g, gone))
  {
    var h := Prune(g, gone);
    assert h.Keys == g.Keys - gone;
    assert g.Keys - h.Keys == gone;
  }

  lemma PruningReflexive(g: Graph)
    ensures Pruning(g, g)
  {
    assert g.Keys - g.Keys == {};
    PruneNothing(g);
  }

  lemma PruningTransitive(g: Graph, h: Graph, k: Graph)
    requires Pruning(g, h) && Pruning(h, k)
    ensures Pruning(g, k)
  {
    PruneTwice(g, g.Keys - h.Keys, h.Keys - k.Keys);
    assert g.Keys - h.Keys + (h.Keys - k.Keys) == g.Keys - k.Keys;
  }

  lemma PruningMembers(g: Graph, h: Graph)
    requires Pruning(g, h)
    ensures forall n :: n in h ==> h[n].kind == g[n].kind && h[n].parent == g[n].parent && h[n].dataType == g[n].dataType
    ensures forall n, r :: n in h ==> (r in h[n].refs <==> r in g[n].refs && (r.target in g ==> r.target in h))
  {
    forall n | n in h
      ensures h[n].kind == g[n].kind && h[n].parent == g[n].parent && h[n].dataType == g[n].dataType
      ensures forall r :: r in h[n].refs <==> r in g[n].refs && (r.target in g ==> r.target in h)
    {
      RefsOutsideMembers(g[n].refs, g.Keys - h.Keys);
    }
  }

  /** Removals keep references reciprocal and leave none, in either direction, to a removed node. */
  lemma PruningKeepsReciprocal(g: Graph, h: Graph)
    requires Reciprocal(g) && Pruning(g, h)
    ensures Reciprocal(h)
    ensures forall n, r :: n in h && r in h[n].refs ==> r.target !in g.Keys - h.Keys
  {
    PruningMembers(g, h);
    forall a, t, b | a in h && b in h
      ensures Forward(h, a, t, b) <==> Inverse(h, a, t, b)
    {
      assert Forward(g, a, t, b) <==> Inverse(g, a, t, b);
      assert Forward(h, a, t, b) <==> Forward(g, a, t, b);
      assert Inverse(h, a, t, b) <==> Inverse(g, a, t, b);
    }
  }
}

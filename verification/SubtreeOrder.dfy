/** The survivors of a subtree removal depend on the order in which a level looks at its
    siblings, which is the iteration order of a Python set.
 */
module SubtreeOrder {
  import opened Basics
  import opened AddressSpace
  import opened Subtree

  lemma {:induction false} TableShrinks(g: Graph, hier: set<NodeId>, s: LevelState, order: seq<NodeId>, n: NodeId)
    requires n !in s.gone && !(Parents(g, hier, n) <= s.subtree.Keys)
    ensures LookAtAll(g, hier, false, s, order).subtree.Keys <= s.subtree.Keys
    ensures n !in LookAtAll(g, hier, false, s, order).gone
  {
    if order != [] {
      TableShrinks(g, hier, s, order[..|order| - 1], n);
    }
  }

  lemma {:induction false} GoneGrows(g: Graph, hier: set<NodeId>, s: LevelState, order: seq<NodeId>, more: seq<NodeId>)
    ensures LookAtAll(g, hier, false, s, order).gone <= LookAtAll(g, hier, false, s, order + more).gone
  {
    if more == [] {
      assert order + more == order;
    } else {
      GoneGrows(g, hier, s, order, more[..|more| - 1]);
      assert (order + more)[..|order + more| - 1] == order + more[..|more| - 1];
    }
  }

  lemma {:induction false} EnumerationExists(siblings: set<NodeId>) returns (order: seq<NodeId>)
    ensures Enumerates(order, siblings)
  {
    if siblings == {} {
      order := [];
    } else {
      var x :| x in siblings;
      var rest := EnumerationExists(siblings - {x});
      order := rest + [x];
    }
  }

  /** A sibling still in the table survives the level whatever the order if and only if, when the level
      starts, one of its parents is outside the table; an ancestor further away does not protect it. */
  lemma SurvivesEveryOrderIff(g: Graph, hier: set<NodeId>, table: map<NodeId, set<NodeId>>, siblings: set<NodeId>, n: NodeId)
    requires n in siblings && n in table && n in g
    ensures (forall order :: Enumerates(order, siblings) ==>
               n !in LookAtAll(g, hier, false, LevelState(table, {}, {}), order).gone)
            <==> !(Parents(g, hier, n) <= table.Keys)
  {
    var s := LevelState(table, {}, {});
    if !(Parents(g, hier, n) <= table.Keys) {
      forall order | Enumerates(order, siblings)
        ensures n !in LookAtAll(g, hier, false, s, order).gone
      {
        TableShrinks(g, hier, s, order, n);
      }
    } else {
      var rest := EnumerationExists(siblings - {n});
      assert Enumerates([n] + rest, siblings);
      assert [n][..0] == [];
      assert n in LookAtAll(g, hier, false, s, [n]).gone;
      GoneGrows(g, hier, s, [n], rest);
    }
  }

  /** Root, its children A and B, B also above A, and an outer parent O of B. */
  const ROOT := NodeId(1, "s=Root")
  const A := NodeId(1, "s=A")
  const B := NodeId(1, "s=B")
  const O := NodeId(1, "s=O")
  const HAS_COMPONENT := NodeId(0, "HasComponent")

  function Sample(): Graph {
    map[
      ROOT := Node(UAObject, [Ref(HAS_COMPONENT, A, true), Ref(HAS_COMPONENT, B, true)], None, None),
      A := Node(UAObject, [Ref(HAS_COMPONENT, ROOT, false), Ref(HAS_COMPONENT, B, false)], None, None),
      B := Node(UAObject, [Ref(HAS_COMPONENT, ROOT, false), Ref(HAS_COMPONENT, O, false), Ref(HAS_COMPONENT, A, true)], None, None),
      O := Node(UAObject, [Ref(HAS_COMPONENT, B, true)], None, None)
    ]
  }

  /** A has another ancestry (O above B above A), yet its only parents are in the table when the level
      {A, B} starts, so some order removes it: another ancestry alone does not protect a node. */
  lemma OtherAncestryMayBeRemoved()
    ensures Reciprocal(Sample())
    ensures OtherAncestry(Sample(), {HAS_COMPONENT}, ROOT, A)
    ensures IsSubtree(Sample(), {HAS_COMPONENT}, ROOT, SampleTable())
    ensures exists order ::
              && Enumerates(order, {A, B})
              && A in LookAtAll(Prune(Sample(), {ROOT}), {HAS_COMPONENT}, false, LevelState(SampleTable(), {}, {}), order).gone
  {
    hide Reciprocal, OtherAncestry, Reachable, LookAtAll;
    var g, hier := Sample(), {HAS_COMPONENT};
    SampleReciprocal();
    SampleFamily();
    SampleSubtree();
    OtherAncestryDirect(g, hier, ROOT, B, O);
    OtherAncestryInherited(g, hier, ROOT, A, B);
    ParentsOfPruned(g, hier, {ROOT}, A);
    SurvivesEveryOrderIff(Prune(g, {ROOT}), hier, SampleTable(), {A, B}, A);
  }

  function SampleTable(): map<NodeId, set<NodeId>> {
    map[ROOT := {A, B}, A := {}, B := {A}]
  }

  lemma SampleSubtree()
    ensures IsSubtree(Sample(), {HAS_COMPONENT}, ROOT, SampleTable())
  {
    var g, hier, table := Sample(), {HAS_COMPONENT}, SampleTable();
    SampleFamily();
    forall x | Reachable(g, hier, ROOT, x)
      ensures x in table
    {
      var p :| IsPath(g, hier, p) && p[0] == ROOT && p[|p| - 1] == x;
      PathStaysInside(g, hier, p, table.Keys);
    }
    ReachableSelf(g, hier, ROOT);
    ReachableStep(g, hier, ROOT, ROOT, A);
    ReachableStep(g, hier, ROOT, ROOT, B);
  }

  lemma SampleReciprocal()
    ensures Reciprocal(Sample())
  {
  }

  lemma SampleFamily()
    ensures var g, hier := Sample(), {HAS_COMPONENT};
      && Children(g, hier, ROOT) == {A, B} && Children(g, hier, A) == {} && Children(g, hier, B) == {A}
      && Parents(g, hier, A) == {ROOT, B} && Parents(g, hier, B) == {ROOT, O}
  {
    var g, hier := Sample(), {HAS_COMPONENT};
    assert Ref(HAS_COMPONENT, A, true) in g[ROOT].refs && Ref(HAS_COMPONENT, B, true) in g[ROOT].refs;
    assert Ref(HAS_COMPONENT, A, true) in g[B].refs;
    assert Ref(HAS_COMPONENT, ROOT, false) in g[A].refs && Ref(HAS_COMPONENT, B, false) in g[A].refs;
    assert Ref(HAS_COMPONENT, ROOT, false) in g[B].refs && Ref(HAS_COMPONENT, O, false) in g[B].refs;
  }
}

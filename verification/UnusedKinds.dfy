/** `remove_unused` treats the kinds of types one after another. A later loop can remove the last use of a type of an
    earlier kind, which then stays.
 */
module UnusedKinds {
  import opened Basics
  import opened AddressSpace
  import opened Subtree
  import opened Unused

  // ----- When the types of an earlier kind are still needed -----

  predicate HasRef(node: Node, refType: NodeId) {
    exists r | r in node.refs :: r.refType == refType
  }

  /** The node may be the reason to keep a type of the kind: a subtype, an instance, or a variable with a data type. */
  predicate MayUse(g: Graph, kind: Kind, x: NodeId)
    requires x in g
  {
    || (g[x].kind == kind && HasRef(g[x], HAS_SUBTYPE))
    || (kind == UAObjectType && g[x].kind == UAObject && HasRef(g[x], HAS_TYPE_DEFINITION))
    || (kind == UAVariableType && g[x].kind == UAVariable && HasRef(g[x], HAS_TYPE_DEFINITION))
    || (kind == UADataType && g[x].kind == UAVariable && g[x].dataType.Some?)
  }

  /** The names of a type are its id and aliases, which are no nodes. */
  ghost predicate ProperNames(g: Graph, aliases: map<NodeId, NodeId>, o: Options) {
    && aliases.Keys !! g.Keys
    && (forall n :: n in o.aliasOf ==> o.aliasOf[n] in aliases)
  }

  /** References to a type that is still there are not lost. */
  lemma NamedRefKept(g: Graph, h: Graph, aliases: map<NodeId, NodeId>, o: Options, n: NodeId, x: NodeId, r: Ref)
    requires Pruning(g, h) && ProperNames(g, aliases, o) && n in h && x in h && r in g[x].refs
    requires r.target in Names(o, n) || Unalias(aliases, r.target) in Names(o, n)
    ensures r in h[x].refs
  {
    PruningMembers(g, h);
  }

  lemma SubtypedStill(g: Graph, h: Graph, aliases: map<NodeId, NodeId>, o: Options, kind: Kind, n: NodeId)
    requires Pruning(g, h) && ProperNames(g, aliases, o) && n in h && Subtyped(g, kind, Names(o, n))
    requires forall x :: x in g && MayUse(g, kind, x) ==> x in h
    ensures Subtyped(h, kind, Names(o, n))
  {
    hide Pruning;
    PruningMembers(g, h);
    var x, r :| x in g && r in g[x].refs && g[x].kind == kind && r.refType == HAS_SUBTYPE && !r.forward && r.target in Names(o, n);
    assert MayUse(g, kind, x);
    NamedRefKept(g, h, aliases, o, n, x, r);
  }

  lemma TypedStill(g: Graph, h: Graph, aliases: map<NodeId, NodeId>, o: Options, n: NodeId, x: NodeId)
    requires Pruning(g, h) && ProperNames(g, aliases, o) && n in h && x in h && TypedBy(aliases, g[x], Names(o, n))
    ensures TypedBy(aliases, h[x], Names(o, n))
  {
    hide Pruning;
    PruningKeys(g, h);
    var r :| r in g[x].refs && r.refType == HAS_TYPE_DEFINITION && Unalias(aliases, r.target) in Names(o, n);
    NamedRefKept(g, h, aliases, o, n, x, r);
  }

  lemma FewerDeclarations(g: Graph, h: Graph, kind: Kind)
    requires Pruning(g, h)
    ensures Declarations(h, kind) <= Declarations(g, kind)
  {
    PruningMembers(g, h);
  }

  lemma UsedStill(g: Graph, h: Graph, aliases: map<NodeId, NodeId>, o: Options, kind: Kind, n: NodeId)
    requires Pruning(g, h) && ProperNames(g, aliases, o) && n in h && kind != UAReferenceType
    requires Used(g, aliases, kind, Names(o, n), Declarations(g, kind))
    requires forall x :: x in g && MayUse(g, kind, x) ==> x in h
    ensures Used(h, aliases, kind, Names(o, n), Declarations(h, kind))
  {
    hide Pruning, Names, Declarations, TypedBy;
    PruningMembers(g, h);
    FewerDeclarations(g, h, kind);
    match kind {
      case UADataType =>
      case UAObjectType =>
        var x :| x in g && g[x].kind == UAObject && TypedBy(aliases, g[x], Names(o, n)) && x !in Declarations(g, kind);
        TypedHasRef(aliases, g[x], Names(o, n));
        TypedStill(g, h, aliases, o, n, x);
      case UAVariableType =>
        var x :| x in g && g[x].kind == UAVariable && TypedBy(aliases, g[x], Names(o, n)) && x !in Declarations(g, kind);
        TypedHasRef(aliases, g[x], Names(o, n));
        TypedStill(g, h, aliases, o, n, x);
      case _ =>
    }
  }

  lemma TypedHasRef(aliases: map<NodeId, NodeId>, node: Node, names: set<NodeId>)
    requires TypedBy(aliases, node, names)
    ensures HasRef(node, HAS_TYPE_DEFINITION)
  {
  }

  /** If no possible use is lost, all types that are left are still needed. */
  lemma StillNeeded(g: Graph, h: Graph, aliases: map<NodeId, NodeId>, o: Options, kind: Kind)
    requires Pruning(g, h) && ProperNames(g, aliases, o) && kind != UAReferenceType && AllNeeded(g, aliases, o, kind)
    requires forall x :: x in g && MayUse(g, kind, x) ==> x in h
    ensures AllNeeded(h, aliases, o, kind)
  {
    hide Pruning, ProperNames, Used, Subtyped, MayUse;
    PruningMembers(g, h);
    PruningKeys(g, h);
    forall n | n in h && h[n].kind == kind
      ensures Needed(h, aliases, o, kind, n)
    {
      assert n in g && Needed(g, aliases, o, kind, n);
      if Subtyped(g, kind, Names(o, n)) {
        SubtypedStill(g, h, aliases, o, kind, n);
      } else if !Retained(o, n) {
        UsedStill(g, h, aliases, o, kind, n);
      }
    }
  }

  // ----- What the later loops can remove -----

  /** A type of the kind, or an instance declaration that goes with one. */
  ghost predicate Root(g: Graph, kind: Kind, n: NodeId) {
    n in g && (g[n].kind == kind || n in Declarations(g, kind))
  }

  ghost predicate Below(g: Graph, hier: set<NodeId>, kind: Kind, x: NodeId) {
    exists root :: Root(g, kind, root) && Reachable(g, hier, root, x)
  }

  lemma BelowBefore(g: Graph, h: Graph, hier: set<NodeId>, kind: Kind, x: NodeId)
    requires Pruning(g, h) && Below(h, hier, kind, x)
    ensures Below(g, hier, kind, x)
  {
    hide Pruning, Declarations, Reachable;
    var root :| Root(h, kind, root) && Reachable(h, hier, root, x);
    PruningMembers(g, h);
    FewerDeclarations(g, h, kind);
    ReachableBeforePruning(g, h, hier, root, x);
    PruningKeys(g, h);
    assert Root(g, kind, root);
  }

  lemma PruningKeys(g: Graph, h: Graph)
    requires Pruning(g, h)
    ensures h.Keys <= g.Keys
  {
  }

  /** Every node that a loop removes is below a type of its kind or below one of its instance declarations. */
  lemma {:induction false} LostInRun(
    hier: set<NodeId>, aliases: map<NodeId, NodeId>, o: Options, kind: Kind, g: Graph, record: seq<Removal>, h: Graph, x: NodeId)
    requires JustifiedRun(hier, aliases, o, kind, g, record, h) && x in g && x !in h
    ensures Below(g, hier, kind, x)
    decreases |record|
  {
    hide Below, LostBelow, Pruning, Declarations, Subtyped, Used;
    var last := record[|record| - 1];
    if x !in last.before {
      LostInRun(hier, aliases, o, kind, g, record[..|record| - 1], last.before, x);
    } else {
      RunIsPruning(hier, aliases, o, kind, g, record[..|record| - 1], last.before);
      LostInRemoval(hier, aliases, o, kind, g, last, x);
    }
  }

  lemma LostInRemoval(hier: set<NodeId>, aliases: map<NodeId, NodeId>, o: Options, kind: Kind, g: Graph, r: Removal, x: NodeId)
    requires Justified(hier, aliases, o, kind, r) && Pruning(g, r.start) && Pruning(g, r.before) && x in r.before && x !in r.after
    ensures Below(g, hier, kind, x)
  {
    hide Pruning, Subtyped, Used, Reachable, Declarations;
    assert LostBelow(r.before, r.after, hier, r.decls + {r.nid});
    var root :| root in r.decls + {r.nid} && Reachable(r.before, hier, root, x);
    ReachableBeforePruning(g, r.before, hier, root, x);
    PruningMembers(g, r.before);
    PruningKeys(g, r.before);
    FewerDeclarations(g, r.start, kind);
    assert Root(g, kind, root);
  }

  /** No possible use of a type is below the roots of a later kind. */
  ghost predicate Apart(g: Graph, hier: set<NodeId>) {
    forall i, j, x :: 0 <= i < j < |TypeKinds()| && x in g && MayUse(g, TypeKinds()[i], x) ==> !Below(g, hier, TypeKinds()[j], x)
  }

  lemma MayUseBefore(g: Graph, h: Graph, kind: Kind, x: NodeId)
    requires Pruning(g, h) && x in h && MayUse(h, kind, x)
    ensures x in g && MayUse(g, kind, x)
  {
    PruningMembers(g, h);
  }

  lemma {:induction false} StagesPrune(
    hier: set<NodeId>, aliases: map<NodeId, NodeId>, o: Options, stages: seq<Graph>, records: seq<seq<Removal>>, i: nat, j: nat)
    requires UnusedStages(hier, aliases, o, stages, records) && i <= j < |stages|
    ensures Pruning(stages[i], stages[j])
    decreases j
  {
    hide Pruning, JustifiedRun, AllNeeded;
    if i == j {
      PruningReflexive(stages[i]);
    } else {
      StagesPrune(hier, aliases, o, stages, records, i, j - 1);
      RunIsPruning(hier, aliases, o, TypeKinds()[j - 1], stages[j - 1], records[j - 1], stages[j]);
      PruningTransitive(stages[i], stages[j - 1], stages[j]);
    }
  }

  /** A possible use of kind i is not lost in a later loop. */
  lemma {:induction false} UseKept(
    hier: set<NodeId>, aliases: map<NodeId, NodeId>, o: Options, stages: seq<Graph>, records: seq<seq<Removal>>, i: nat, j: nat, x: NodeId)
    requires UnusedStages(hier, aliases, o, stages, records) && Apart(stages[0], hier) && i < j < |stages|
    requires x in stages[i + 1] && MayUse(stages[i + 1], TypeKinds()[i], x)
    ensures x in stages[j]
    decreases j
  {
    hide Pruning, JustifiedRun, AllNeeded, MayUse, Below;
    if j > i + 1 {
      UseKept(hier, aliases, o, stages, records, i, j - 1, x);
      StagesPrune(hier, aliases, o, stages, records, 0, i + 1);
      MayUseBefore(stages[0], stages[i + 1], TypeKinds()[i], x);
      if x !in stages[j] {
        LostInRun(hier, aliases, o, TypeKinds()[j - 1], stages[j - 1], records[j - 1], stages[j], x);
        StagesPrune(hier, aliases, o, stages, records, 0, j - 1);
        BelowBefore(stages[0], stages[j - 1], hier, TypeKinds()[j - 1], x);
        assert false;
      }
    }
  }

  /** When the kinds are apart, at the end every type of every kind is needed. */
  lemma AllKindsNeeded(
    hier: set<NodeId>, aliases: map<NodeId, NodeId>, o: Options, stages: seq<Graph>, records: seq<seq<Removal>>, i: nat)
    requires UnusedStages(hier, aliases, o, stages, records) && Apart(stages[0], hier) && i < |TypeKinds()|
    requires ProperNames(stages[0], aliases, o)
    ensures AllNeeded(stages[|stages| - 1], aliases, o, TypeKinds()[i])
  {
    hide Pruning, JustifiedRun, AllNeeded, MayUse, Apart;
    var last := |stages| - 1;
    if i + 1 < last {
      StagesPrune(hier, aliases, o, stages, records, i + 1, last);
      StagesPrune(hier, aliases, o, stages, records, 0, i + 1);
      PruningKeys(stages[0], stages[i + 1]);
      forall x | x in stages[i + 1] && MayUse(stages[i + 1], TypeKinds()[i], x)
        ensures x in stages[last]
      {
        UseKept(hier, aliases, o, stages, records, i, last, x);
      }
      StillNeeded(stages[i + 1], stages[last], aliases, o, TypeKinds()[i]);
    }
  }

  // ----- A type that is left behind -----

  const T := NodeId(1, "i=1")
  const V := NodeId(1, "i=2")
  const X := NodeId(1, "i=3")
  const HAS_COMPONENT := NodeId(0, "HasComponent")

  /** An unused variable type V with a component X, an object of type T. */
  function Sample(): Graph {
    map[
      T := Node(UAObjectType, [Ref(HAS_TYPE_DEFINITION, X, false)], None, None),
      V := Node(UAVariableType, [Ref(HAS_COMPONENT, X, true)], None, None),
      X := Node(UAObject, [Ref(HAS_COMPONENT, V, false), Ref(HAS_TYPE_DEFINITION, T, true)], None, None)
    ]
  }

  lemma SampleFacts()
    ensures T != V && T != X && V != X && HAS_COMPONENT != HAS_TYPE_DEFINITION
    ensures HAS_TYPE_DEFINITION != HAS_SUBTYPE && HAS_COMPONENT != HAS_SUBTYPE
    ensures HAS_COMPONENT != HAS_MODELLING_RULE && HAS_TYPE_DEFINITION != HAS_MODELLING_RULE
  {
    assert T.text[2] != V.text[2] && T.text[2] != X.text[2] && V.text[2] != X.text[2];
    assert HAS_COMPONENT.text[3] != HAS_TYPE_DEFINITION.text[3] && HAS_TYPE_DEFINITION.text[3] != HAS_SUBTYPE.text[3];
    assert HAS_COMPONENT.text[3] != HAS_SUBTYPE.text[3] && HAS_COMPONENT.text[3] != HAS_MODELLING_RULE.text[3];
    assert HAS_TYPE_DEFINITION.text[3] != HAS_MODELLING_RULE.text[3];
  }

  lemma SampleReciprocal()
    ensures Reciprocal(Sample())
  {
    SampleFacts();
  }

  lemma SampleFamily()
    ensures Parents(Sample(), {HAS_COMPONENT}, X) == {V}
    ensures Children(Sample(), {HAS_COMPONENT}, V) == {X} && Children(Sample(), {HAS_COMPONENT}, X) == {}
  {
    SampleFacts();
    assert Sample()[X].refs[0] == Ref(HAS_COMPONENT, V, false) && Sample()[V].refs[0] == Ref(HAS_COMPONENT, X, true);
  }

  /** A loop that removes something starts with a removal that is justified in the tree it was given. */
  lemma {:induction false} FirstRemoval(
    hier: set<NodeId>, aliases: map<NodeId, NodeId>, o: Options, kind: Kind, g: Graph, record: seq<Removal>, h: Graph)
    requires JustifiedRun(hier, aliases, o, kind, g, record, h)
    ensures record == [] ==> h == g
    ensures record != [] ==>
      record[0].before == g && Justified(hier, aliases, o, kind, record[0]) && Pruning(g, record[0].start)
    decreases |record|
  {
    hide Justified, Pruning;
    if |record| > 1 {
      FirstRemoval(hier, aliases, o, kind, g, record[..|record| - 1], record[|record| - 1].before);
    } else if |record| == 1 {
      assert record[..0] == [];
    }
  }

  lemma NothingOfKind(
    hier: set<NodeId>, aliases: map<NodeId, NodeId>, o: Options, kind: Kind, g: Graph, record: seq<Removal>, h: Graph)
    requires JustifiedRun(hier, aliases, o, kind, g, record, h) && forall n :: n in g ==> g[n].kind != kind
    ensures h == g
  {
    hide JustifiedRun, Pruning, LostBelow, Subtyped, Used, Declarations;
    FirstRemoval(hier, aliases, o, kind, g, record, h);
  }

  /** The first loop finds that X uses T. */
  lemma FirstLoop(hier: set<NodeId>, o: Options, record: seq<Removal>, h: Graph)
    requires JustifiedRun(hier, map[], o, UAObjectType, Sample(), record, h)
    ensures h == Sample()
  {
    hide JustifiedRun, LostBelow, Reciprocal;
    var g := Sample();
    FirstRemoval(hier, map[], o, UAObjectType, g, record, h);
    if record != [] {
      var r := record[0];
      SampleFacts();
      SameGraph(g, r.start);
      SampleUsed(o, r.nid);
      assert false;
    }
  }

  lemma SameGraph(g: Graph, h: Graph)
    requires Pruning(g, h) && Pruning(h, g)
    ensures g == h
  {
    PruneNothing(g);
    assert g.Keys - h.Keys == {};
  }

  lemma SampleUsed(o: Options, n: NodeId)
    requires n in Sample() && Sample()[n].kind == UAObjectType
    ensures Used(Sample(), map[], UAObjectType, Names(o, n), Declarations(Sample(), UAObjectType))
  {
    SampleFacts();
    var g := Sample();
    var r := Ref(HAS_TYPE_DEFINITION, T, true);
    assert n == T && g[X].refs[1] == r;
    assert TypedBy(map[], g[X], Names(o, n));
    assert X !in Declarations(g, UAObjectType);
  }

  /** The second loop removes V, and X with it, but not T. */
  lemma SecondLoop(o: Options, record: seq<Removal>, h: Graph)
    requires o.retainTypes == {} && !o.retainNs0 && o.aliasOf == map[]
    requires JustifiedRun({HAS_COMPONENT}, map[], o, UAVariableType, Sample(), record, h)
    requires AllNeeded(h, map[], o, UAVariableType)
    ensures T in h && V !in h && X !in h && Pruning(Sample(), h)
  {
    hide JustifiedRun, Reciprocal, Pruning, Below, AllNeeded;
    var g := Sample();
    RunIsPruning({HAS_COMPONENT}, map[], o, UAVariableType, g, record, h);
    SampleReciprocal();
    SampleFamily();
    if V in h {
      UnneededV(o, h);
    }
    OrphanGone(h);
    if T !in h {
      LostInRun({HAS_COMPONENT}, map[], o, UAVariableType, g, record, h, T);
      NotBelowV();
    }
  }

  lemma UnneededV(o: Options, h: Graph)
    requires o.retainTypes == {} && !o.retainNs0 && o.aliasOf == map[] && Pruning(Sample(), h) && V in h
    ensures !AllNeeded(h, map[], o, UAVariableType)
  {
    hide Pruning;
    SampleFacts();
    PruningMembers(Sample(), h);
    PruningKeys(Sample(), h);
    assert !Needed(h, map[], o, UAVariableType, V);
  }

  lemma OrphanGone(h: Graph)
    requires Pruning(Sample(), h) && KeepsParents(Sample(), h, {HAS_COMPONENT}) && V !in h
    ensures X !in h
  {
    hide Pruning;
    SampleFamily();
    PruningMembers(Sample(), h);
  }

  lemma NotBelowV()
    ensures !Below(Sample(), {HAS_COMPONENT}, UAVariableType, T)
  {
    var g, hier := Sample(), {HAS_COMPONENT};
    SampleFacts();
    SampleFamily();
    if Below(g, hier, UAVariableType, T) {
      var root :| Root(g, UAVariableType, root) && Reachable(g, hier, root, T);
      var p :| IsPath(g, hier, p) && p[0] == root && p[|p| - 1] == T;
      PathStaysInside(g, hier, p, {V, X});
      assert false;
    }
  }

  lemma UnneededT(o: Options, h: Graph)
    requires o.retainTypes == {} && !o.retainNs0 && o.aliasOf == map[] && Pruning(Sample(), h) && T in h && X !in h
    ensures !AllNeeded(h, map[], o, UAObjectType)
  {
    hide Pruning;
    SampleFacts();
    PruningMembers(Sample(), h);
    PruningKeys(Sample(), h);
    assert !Needed(h, map[], o, UAObjectType, T);
  }

  lemma LastLoops(o: Options, stages: seq<Graph>, records: seq<seq<Removal>>)
    requires UnusedStages({HAS_COMPONENT}, map[], o, stages, records)
    requires Pruning(Sample(), stages[2]) && V !in stages[2] && X !in stages[2]
    ensures stages[4] == stages[2]
  {
    hide JustifiedRun, AllNeeded, Pruning;
    PruningMembers(Sample(), stages[2]);
    PruningKeys(Sample(), stages[2]);
    NothingOfKind({HAS_COMPONENT}, map[], o, UADataType, stages[2], records[2], stages[3]);
    NothingOfKind({HAS_COMPONENT}, map[], o, UAReferenceType, stages[3], records[3], stages[4]);
  }

  /** In every run on the sample the object type stays, although nothing needs it at the end. */
  lemma LeftBehind(o: Options, stages: seq<Graph>, records: seq<seq<Removal>>)
    requires o.retainTypes == {} && !o.retainNs0 && o.aliasOf == map[]
    requires UnusedStages({HAS_COMPONENT}, map[], o, stages, records) && stages[0] == Sample()
    ensures T in stages[4] && !AllNeeded(stages[4], map[], o, UAObjectType)
  {
    hide JustifiedRun, AllNeeded, Pruning, Reciprocal, KeepsParents;
    FirstLoop({HAS_COMPONENT}, o, records[0], stages[1]);
    SecondLoop(o, records[1], stages[2]);
    LastLoops(o, stages, records);
    UnneededT(o, stages[4]);
  }

  method RemoveFromSample() returns (t: Tree, o: Options, ghost stages: seq<Graph>, ghost records: seq<seq<Removal>>)
    ensures UnusedStages({HAS_COMPONENT}, t.aliases, o, stages, records)
    ensures stages[0] == Sample() && stages[4] == t.nodes && Reciprocal(Sample())
    ensures T in t.nodes && !AllNeeded(t.nodes, t.aliases, o, UAObjectType)
  {
    hide JustifiedRun, AllNeeded, Pruning, Reciprocal, KeepsParents;
    SampleReciprocal();
    t := new Tree(Sample(), map[]);
    o, stages, records := RemoveUnused(t, {HAS_COMPONENT}, false, {});
    assert o.aliasOf == map[];
    LeftBehind(o, stages, records);
  }
}

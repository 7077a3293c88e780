/** What `remove_unused` means for the tree: which types it may take, which it must leave, and that no survivor is
    left with a type that was taken.
 */
module UnusedLaws {
  import opened Basics
  import opened AddressSpace
  import opened Subtree
  import opened Unused
  import opened UnusedKinds

  // ----- Names of a type -----

  /** `aliasOf` gives an id one of its aliases. */
  ghost predicate Inverts(aliases: map<NodeId, NodeId>, o: Options) {
    && (forall n :: n in o.aliasOf <==> n in aliases.Values)
    && (forall n :: n in o.aliasOf ==> o.aliasOf[n] in aliases && aliases[o.aliasOf[n]] == n)
  }

  /** The text stands for the type: it is the id, or the alias that the script looks for. */
  predicate StandsFor(o: Options, x: NodeId, nid: NodeId) {
    x == nid || (nid in o.aliasOf && o.aliasOf[nid] == x)
  }

  /** The script recognises every text that resolves to a type if and only if the type has at most one alias. */
  lemma NamesExactIff(aliases: map<NodeId, NodeId>, o: Options, nid: NodeId)
    requires Inverts(aliases, o) && nid !in aliases
    ensures (forall x :: StandsFor(o, x, nid) <==> Unalias(aliases, x) == nid) <==>
      forall a, b :: a in aliases && b in aliases && aliases[a] == nid && aliases[b] == nid ==> a == b
  {
    if forall x :: StandsFor(o, x, nid) <==> Unalias(aliases, x) == nid {
      forall a, b | a in aliases && b in aliases && aliases[a] == nid && aliases[b] == nid
        ensures a == b
      {
        assert Unalias(aliases, a) == nid && Unalias(aliases, b) == nid;
        assert StandsFor(o, a, nid) && StandsFor(o, b, nid);
      }
    } else {
      var x :| StandsFor(o, x, nid) != (Unalias(aliases, x) == nid);
      assert nid in aliases.Values && x in aliases && aliases[x] == nid;
      assert o.aliasOf[nid] in aliases && aliases[o.aliasOf[nid]] == nid && o.aliasOf[nid] != x;
    }
  }

  // ----- What is taken -----

  ghost predicate NoSubtypeOf(g: Graph, o: Options, kind: Kind, nid: NodeId) {
    forall n, x :: n in g && g[n].kind == kind && Ref(HAS_SUBTYPE, x, false) in g[n].refs ==> !StandsFor(o, x, nid)
  }

  ghost predicate NoVariableOf(g: Graph, o: Options, nid: NodeId) {
    forall v :: v in g && g[v].kind == UAVariable && g[v].dataType.Some? ==> !StandsFor(o, g[v].dataType.value, nid)
  }

  ghost predicate NoReferenceOf(g: Graph, o: Options, nid: NodeId) {
    forall n, q :: n in g && q in g[n].refs ==> !StandsFor(o, q.refType, nid)
  }

  ghost predicate IsTyped(g: Graph, aliases: map<NodeId, NodeId>, instance: Kind, nid: NodeId, x: NodeId) {
    && x in g && g[x].kind == instance
    && exists q :: q in g[x].refs && q.refType == HAS_TYPE_DEFINITION && Unalias(aliases, q.target) == nid
  }

  /** A type that is taken was not asked to be retained, and no type of its kind has it as a supertype. */
  lemma RemovedNotRetained(hier: set<NodeId>, aliases: map<NodeId, NodeId>, o: Options, kind: Kind, r: Removal)
    requires Justified(hier, aliases, o, kind, r)
    ensures !(o.retainNs0 && r.nid.ns == 0) && r.nid !in o.retainTypes
    ensures NoSubtypeOf(r.before, o, kind, r.nid)
  {
    hide LostBelow, Pruning, Used;
  }

  /** No variable has a data type that is taken. */
  lemma RemovedDataType(hier: set<NodeId>, aliases: map<NodeId, NodeId>, o: Options, r: Removal)
    requires Justified(hier, aliases, o, UADataType, r)
    ensures NoVariableOf(r.before, o, r.nid)
  {
    hide LostBelow, Pruning, Subtyped;
  }

  /** No reference has a type that is taken. */
  lemma RemovedReferenceType(hier: set<NodeId>, aliases: map<NodeId, NodeId>, o: Options, r: Removal)
    requires Justified(hier, aliases, o, UAReferenceType, r)
    ensures NoReferenceOf(r.before, o, r.nid)
  {
    hide LostBelow, Pruning, Subtyped;
  }

  /** The instances of an object or variable type that is taken had a modelling rule when the pass began, and are taken
      with it. */
  lemma RemovedInstanceType(hier: set<NodeId>, aliases: map<NodeId, NodeId>, o: Options, kind: Kind, r: Removal, x: NodeId)
    requires Justified(hier, aliases, o, kind, r)
    requires || (kind == UAObjectType && IsTyped(r.before, aliases, UAObject, r.nid, x))
             || (kind == UAVariableType && IsTyped(r.before, aliases, UAVariable, r.nid, x))
    ensures x in r.start && (exists m :: m in r.start[x].refs && m.refType == HAS_MODELLING_RULE) && x !in r.after
  {
    hide LostBelow, Pruning, Subtyped;
    assert TypedBy(aliases, r.before[x], Names(o, r.nid));
    assert x in Declarations(r.start, kind);
  }

  // ----- What is left -----

  predicate Asked(o: Options, nid: NodeId) {
    (o.retainNs0 && nid.ns == 0) || nid in o.retainTypes
  }

  lemma SubtypedMeans(g: Graph, o: Options, kind: Kind, nid: NodeId)
    requires Subtyped(g, kind, Names(o, nid))
    ensures !NoSubtypeOf(g, o, kind, nid)
  {
    var n, r :| n in g && r in g[n].refs && g[n].kind == kind && r.refType == HAS_SUBTYPE && !r.forward && r.target in Names(o, nid);
    assert r == Ref(HAS_SUBTYPE, r.target, false);
  }

  /** A data type that is left was asked for, or has a subtype, or a variable. */
  lemma LeftDataType(g: Graph, aliases: map<NodeId, NodeId>, o: Options, nid: NodeId)
    requires AllNeeded(g, aliases, o, UADataType) && nid in g && g[nid].kind == UADataType
    ensures Asked(o, nid) || !NoSubtypeOf(g, o, UADataType, nid) || !NoVariableOf(g, o, nid)
  {
    hide Subtyped;
    assert Needed(g, aliases, o, UADataType, nid);
    if Subtyped(g, UADataType, Names(o, nid)) {
      SubtypedMeans(g, o, UADataType, nid);
    }
  }

  /** A reference type that is left was asked for, or has a subtype, or a reference. */
  lemma LeftReferenceType(g: Graph, aliases: map<NodeId, NodeId>, o: Options, nid: NodeId)
    requires AllNeeded(g, aliases, o, UAReferenceType) && nid in g && g[nid].kind == UAReferenceType
    ensures Asked(o, nid) || !NoSubtypeOf(g, o, UAReferenceType, nid) || !NoReferenceOf(g, o, nid)
  {
    hide Subtyped;
    assert Needed(g, aliases, o, UAReferenceType, nid);
    if Subtyped(g, UAReferenceType, Names(o, nid)) {
      SubtypedMeans(g, o, UAReferenceType, nid);
    }
  }

  /** The node is typed by the type, and has no modelling rule. */
  ghost predicate IsRealInstance(g: Graph, aliases: map<NodeId, NodeId>, o: Options, instance: Kind, nid: NodeId, x: NodeId) {
    && x in g && g[x].kind == instance && (forall m :: m in g[x].refs ==> m.refType != HAS_MODELLING_RULE)
    && exists q :: q in g[x].refs && q.refType == HAS_TYPE_DEFINITION && StandsFor(o, Unalias(aliases, q.target), nid)
  }

  /** An object type that is left was asked for, or has a subtype, or an instance that is no instance declaration. */
  lemma LeftObjectType(g: Graph, aliases: map<NodeId, NodeId>, o: Options, nid: NodeId)
    requires AllNeeded(g, aliases, o, UAObjectType) && nid in g && g[nid].kind == UAObjectType
    ensures Asked(o, nid) || !NoSubtypeOf(g, o, UAObjectType, nid) || exists x :: IsRealInstance(g, aliases, o, UAObject, nid, x)
  {
    hide Subtyped;
    assert Needed(g, aliases, o, UAObjectType, nid);
    if Subtyped(g, UAObjectType, Names(o, nid)) {
      SubtypedMeans(g, o, UAObjectType, nid);
    } else if Used(g, aliases, UAObjectType, Names(o, nid), Declarations(g, UAObjectType)) {
      var x :| x in g && g[x].kind == UAObject && TypedBy(aliases, g[x], Names(o, nid)) && x !in Declarations(g, UAObjectType);
      assert IsRealInstance(g, aliases, o, UAObject, nid, x);
    }
  }

  /** The same for a variable type. */
  lemma LeftVariableType(g: Graph, aliases: map<NodeId, NodeId>, o: Options, nid: NodeId)
    requires AllNeeded(g, aliases, o, UAVariableType) && nid in g && g[nid].kind == UAVariableType
    ensures Asked(o, nid) || !NoSubtypeOf(g, o, UAVariableType, nid) || exists x :: IsRealInstance(g, aliases, o, UAVariable, nid, x)
  {
    hide Subtyped;
    assert Needed(g, aliases, o, UAVariableType, nid);
    if Subtyped(g, UAVariableType, Names(o, nid)) {
      SubtypedMeans(g, o, UAVariableType, nid);
    } else if Used(g, aliases, UAVariableType, Names(o, nid), Declarations(g, UAVariableType)) {
      var x :| x in g && g[x].kind == UAVariable && TypedBy(aliases, g[x], Names(o, nid)) && x !in Declarations(g, UAVariableType);
      assert IsRealInstance(g, aliases, o, UAVariable, nid, x);
    }
  }

  // ----- No survivor is left with a type that was taken -----

  /** Nothing in the tree says that it is of the type or derived from it. */
  ghost predicate Unnamed(g: Graph, aliases: map<NodeId, NodeId>, o: Options, kind: Kind, nid: NodeId) {
    && nid !in g && NoSubtypeOf(g, o, kind, nid)
    && (kind == UADataType ==> NoVariableOf(g, o, nid))
    && (kind == UAReferenceType ==> NoReferenceOf(g, o, nid))
    && (kind == UAObjectType ==> forall x :: !IsTyped(g, aliases, UAObject, nid, x))
    && (kind == UAVariableType ==> forall x :: !IsTyped(g, aliases, UAVariable, nid, x))
  }

  lemma UnnamedLater(g: Graph, h: Graph, aliases: map<NodeId, NodeId>, o: Options, kind: Kind, nid: NodeId)
    requires Unnamed(g, aliases, o, kind, nid) && Pruning(g, h)
    ensures Unnamed(h, aliases, o, kind, nid)
  {
    hide Pruning, StandsFor;
    PruningKeys(g, h);
    PruningMembers(g, h);
    forall i, x
      ensures IsTyped(h, aliases, i, nid, x) ==> IsTyped(g, aliases, i, nid, x)
    {
    }
  }

  lemma NoSubtypeLater(g: Graph, h: Graph, o: Options, kind: Kind, nid: NodeId)
    requires NoSubtypeOf(g, o, kind, nid) && Pruning(g, h)
    ensures NoSubtypeOf(h, o, kind, nid)
  {
    hide Pruning, StandsFor;
    PruningKeys(g, h);
    PruningMembers(g, h);
  }

  lemma UnnamedAfterRemoval(hier: set<NodeId>, aliases: map<NodeId, NodeId>, o: Options, kind: Kind, r: Removal)
    requires Justified(hier, aliases, o, kind, r)
    ensures Unnamed(r.after, aliases, o, kind, r.nid)
  {
    hide Justified, Pruning, StandsFor, NoSubtypeOf, IsTyped;
    RemovedFacts(hier, aliases, o, kind, r);
    RemovedNotRetained(hier, aliases, o, kind, r);
    NoSubtypeLater(r.before, r.after, o, kind, r.nid);
    PruningMembers(r.before, r.after);
    PruningKeys(r.before, r.after);
    match kind {
      case UADataType => RemovedDataType(hier, aliases, o, r);
      case UAReferenceType => RemovedReferenceType(hier, aliases, o, r);
      case _ => InstancesGone(hier, aliases, o, kind, r);
    }
  }

  lemma InstancesGone(hier: set<NodeId>, aliases: map<NodeId, NodeId>, o: Options, kind: Kind, r: Removal)
    requires Justified(hier, aliases, o, kind, r)
    ensures kind == UAObjectType ==> forall x :: !IsTyped(r.after, aliases, UAObject, r.nid, x)
    ensures kind == UAVariableType ==> forall x :: !IsTyped(r.after, aliases, UAVariable, r.nid, x)
  {
    hide Justified, Pruning;
    RemovedFacts(hier, aliases, o, kind, r);
    PruningMembers(r.before, r.after);
    PruningKeys(r.before, r.after);
    forall x | x in r.after
      ensures kind == UAObjectType ==> !IsTyped(r.after, aliases, UAObject, r.nid, x)
      ensures kind == UAVariableType ==> !IsTyped(r.after, aliases, UAVariable, r.nid, x)
    {
      if || (kind == UAObjectType && IsTyped(r.before, aliases, UAObject, r.nid, x))
         || (kind == UAVariableType && IsTyped(r.before, aliases, UAVariable, r.nid, x)) {
        RemovedInstanceType(hier, aliases, o, kind, r, x);
      }
    }
  }

  lemma RemovedFacts(hier: set<NodeId>, aliases: map<NodeId, NodeId>, o: Options, kind: Kind, r: Removal)
    requires Justified(hier, aliases, o, kind, r)
    ensures Pruning(r.before, r.after) && r.nid !in r.after
  {
    hide LostBelow, Pruning, Used, Subtyped;
  }

  lemma {:induction false} UnnamedAfterRun(hier: set<NodeId>, aliases: map<NodeId, NodeId>, o: Options, kind: Kind,
                                           g: Graph, record: seq<Removal>, h: Graph, i: nat)
    requires JustifiedRun(hier, aliases, o, kind, g, record, h) && i < |record|
    ensures Unnamed(h, aliases, o, kind, record[i].nid)
    decreases |record|
  {
    hide Justified, Unnamed, Pruning;
    var last := record[|record| - 1];
    if i == |record| - 1 {
      UnnamedAfterRemoval(hier, aliases, o, kind, last);
    } else {
      UnnamedAfterRun(hier, aliases, o, kind, g, record[..|record| - 1], last.before, i);
      RemovedFacts(hier, aliases, o, kind, last);
      UnnamedLater(last.before, h, aliases, o, kind, record[i].nid);
    }
  }

  /** At the end, whatever the four loops did, nothing says that it is of a type that was taken. */
  lemma NothingNamesRemoved(
    hier: set<NodeId>, aliases: map<NodeId, NodeId>, o: Options, stages: seq<Graph>, records: seq<seq<Removal>>, k: nat, i: nat)
    requires UnusedStages(hier, aliases, o, stages, records) && k < |records| && i < |records[k]|
    ensures Unnamed(stages[|stages| - 1], aliases, o, TypeKinds()[k], records[k][i].nid)
  {
    hide JustifiedRun, Unnamed, Pruning, AllNeeded;
    UnnamedAfterRun(hier, aliases, o, TypeKinds()[k], stages[k], records[k], stages[k + 1], i);
    StagesPrune(hier, aliases, o, stages, records, k + 1, |stages| - 1);
    UnnamedLater(stages[k + 1], stages[|stages| - 1], aliases, o, TypeKinds()[k], records[k][i].nid);
  }
}

/** `remove_unused`: per kind of type, removal of the types nothing uses, until a pass removes nothing. */
module Unused {
  import opened AddressSpace
  import opened Subtree

  const HAS_SUBTYPE := NodeId(0, "HasSubtype")
  const HAS_TYPE_DEFINITION := NodeId(0, "HasTypeDefinition")
  const HAS_MODELLING_RULE := NodeId(0, "HasModellingRule")

  /** The options of the command, and the alias of a NodeId if it has one. */
  datatype Options = Options(retainNs0: bool, retainTypes: set<NodeId>, aliasOf: map<NodeId, NodeId>)

  /** `__get_aliases`: for a NodeId with several aliases any of them may be kept. */
  method GetAliases(aliases: map<NodeId, NodeId>) returns (aliasOf: map<NodeId, NodeId>)
    ensures forall n :: n in aliasOf <==> n in aliases.Values
    ensures forall n :: n in aliasOf ==> aliasOf[n] in aliases && aliases[aliasOf[n]] == n
  {
    aliasOf := map[];
    var todo := aliases.Keys;
    while todo != {}
      invariant todo <= aliases.Keys
      invariant forall a :: a in aliases && a !in todo ==> aliases[a] in aliasOf
      invariant forall n :: n in aliasOf ==> aliasOf[n] in aliases && aliases[aliasOf[n]] == n
    {
      var a :| a in todo;
      todo := todo - {a};
      aliasOf := aliasOf[aliases[a] := a];
    }
  }

  /** The texts that name a type: its NodeId and its alias. */
  function Names(o: Options, nid: NodeId): set<NodeId> {
    {nid} + (if nid in o.aliasOf then {o.aliasOf[nid]} else {})
  }

  predicate Retained(o: Options, nid: NodeId) {
    (o.retainNs0 && nid.ns == 0) || nid in o.retainTypes
  }

  predicate Subtyped(g: Graph, kind: Kind, names: set<NodeId>) {
    exists n, r | n in g && r in g[n].refs ::
      g[n].kind == kind && r.refType == HAS_SUBTYPE && !r.forward && r.target in names
  }

  // ----- Uses of a type by data -----

  predicate TypedBy(aliases: map<NodeId, NodeId>, node: Node, names: set<NodeId>) {
    exists r | r in node.refs :: r.refType == HAS_TYPE_DEFINITION && Unalias(aliases, r.target) in names
  }

  function InstanceKind(kind: Kind): Kind
    requires kind == UAObjectType || kind == UAVariableType
  {
    if kind == UAObjectType then UAObject else UAVariable
  }

  predicate IsInstanceDeclaration(node: Node) {
    exists r | r in node.refs :: r.refType == HAS_MODELLING_RULE
  }

  /** The data that counts as a use: instances other than declarations for object and variable types,
      the DataType attribute of variables for data types, any reference for reference types. */
  predicate Used(g: Graph, aliases: map<NodeId, NodeId>, kind: Kind, names: set<NodeId>, declarations: set<NodeId>) {
    match kind
    case UAObjectType => exists n | n in g :: g[n].kind == UAObject && TypedBy(aliases, g[n], names) && n !in declarations
    case UAVariableType => exists n | n in g :: g[n].kind == UAVariable && TypedBy(aliases, g[n], names) && n !in declarations
    case UADataType => exists n | n in g :: g[n].kind == UAVariable && g[n].dataType.Some? && g[n].dataType.value in names
    case UAReferenceType => exists n, r | n in g && r in g[n].refs :: r.refType in names
    case _ => false
  }

  function Declarations(g: Graph, kind: Kind): set<NodeId> {
    if kind == UAObjectType || kind == UAVariableType then
      set n | n in g && g[n].kind == InstanceKind(kind) && IsInstanceDeclaration(g[n])
    else {}
  }

  /** The type is retained, subtyped, or used by something other than an instance declaration. */
  predicate Needed(g: Graph, aliases: map<NodeId, NodeId>, o: Options, kind: Kind, nid: NodeId) {
    || Retained(o, nid)
    || Subtyped(g, kind, Names(o, nid))
    || Used(g, aliases, kind, Names(o, nid), Declarations(g, kind))
  }

  ghost predicate AllNeeded(g: Graph, aliases: map<NodeId, NodeId>, o: Options, kind: Kind) {
    forall n :: n in g && g[n].kind == kind ==> Needed(g, aliases, o, kind, n)
  }

  /** `__exists_typedef_ref`: a use other than a declaration, or else the declarations of the type. */
  method ExistsTypedefRef(g: Graph, aliases: map<NodeId, NodeId>, kind: Kind, names: set<NodeId>, declarations: set<NodeId>)
    returns (found: bool, decls: seq<NodeId>)
    requires kind == UAObjectType || kind == UAVariableType
    ensures found <==> Used(g, aliases, kind, names, declarations)
    ensures found ==> decls == []
    ensures forall n :: n in decls ==> n in declarations
    ensures !found ==> forall n :: n in decls <==> n in g && g[n].kind == InstanceKind(kind) && TypedBy(aliases, g[n], names)
  {
    found, decls := false, [];
    var todo := g.Keys;
    while todo != {}
      invariant todo <= g.Keys
      invariant forall n :: n in decls <==> n in g && n !in todo && g[n].kind == InstanceKind(kind) && TypedBy(aliases, g[n], names)
      invariant forall n :: n in decls ==> n in declarations
    {
      var n :| n in todo;
      todo := todo - {n};
      if g[n].kind == InstanceKind(kind) && TypedBy(aliases, g[n], names) {
        if n !in declarations {
          return true, [];
        }
        decls := decls + [n];
      }
    }
  }

  // ----- The record of what was removed, and why -----

  /** The removal of type `nid` and of its instance declarations `decls`; `start` is the tree at the
      start of the pass, `before` and `after` are the trees around the removal. */
  datatype Removal = Removal(nid: NodeId, decls: set<NodeId>, start: Graph, before: Graph, after: Graph)

  /** All instances of the type among the nodes of `g`, if it is an object or variable type, are in `decls`. */
  ghost predicate AllInstances(g: Graph, aliases: map<NodeId, NodeId>, kind: Kind, names: set<NodeId>, decls: set<NodeId>) {
    kind == UAObjectType || kind == UAVariableType ==>
      forall d :: d in g && g[d].kind == InstanceKind(kind) && TypedBy(aliases, g[d], names) ==> d in decls
  }

  /** Nothing needed the type when it was removed, what went with its declarations was below them,
      and nothing outside those subtrees was lost. */
  ghost predicate Justified(hier: set<NodeId>, aliases: map<NodeId, NodeId>, o: Options, kind: Kind, r: Removal) {
    var names, declarations := Names(o, r.nid), Declarations(r.start, kind);
    && Pruning(r.start, r.before) && Pruning(r.before, r.after)
    && r.nid in r.before && r.before[r.nid].kind == kind
    && !Retained(o, r.nid) && !Subtyped(r.before, kind, names) && !Used(r.before, aliases, kind, names, declarations)
    && r.nid !in r.after
    && (forall d :: d in r.decls ==> d in r.before && d in declarations && TypedBy(aliases, r.before[d], names) && d !in r.after)
    && AllInstances(r.before, aliases, kind, names, r.decls)
    && LostBelow(r.before, r.after, hier, r.decls + {r.nid})
    && (Reciprocal(r.before) ==> KeepsParents(r.before, r.after, hier))
  }

  /** `g` becomes `h` by the justified removals of `record`, one after another, and by nothing else. */
  ghost predicate JustifiedRun(hier: set<NodeId>, aliases: map<NodeId, NodeId>, o: Options, kind: Kind,
                               g: Graph, record: seq<Removal>, h: Graph)
  {
    if record == [] then g == h
    else
      var last := record[|record| - 1];
      && Justified(hier, aliases, o, kind, last) && last.after == h && Pruning(g, last.start)
      && JustifiedRun(hier, aliases, o, kind, g, record[..|record| - 1], last.before)
  }

  lemma RunStarts(hier: set<NodeId>, aliases: map<NodeId, NodeId>, o: Options, kind: Kind, g: Graph)
    ensures JustifiedRun(hier, aliases, o, kind, g, [], g)
  {
  }

  lemma RemovalJustified(hier: set<NodeId>, aliases: map<NodeId, NodeId>, o: Options, kind: Kind, r: Removal)
    requires Pruning(r.start, r.before) && Pruning(r.before, r.after)
    requires r.nid in r.before && r.start[r.nid].kind == kind
    requires !Retained(o, r.nid) && !Subtyped(r.before, kind, Names(o, r.nid))
    requires !Used(r.before, aliases, kind, Names(o, r.nid), Declarations(r.start, kind))
    requires r.nid !in r.after
    requires forall d :: d in r.decls ==>
      && d in r.before && d in Declarations(r.start, kind) && TypedBy(aliases, r.before[d], Names(o, r.nid)) && d !in r.after
    requires AllInstances(r.before, aliases, kind, Names(o, r.nid), r.decls)
    requires LostBelow(r.before, r.after, hier, r.decls + {r.nid})
    requires Reciprocal(r.before) ==> KeepsParents(r.before, r.after, hier)
    ensures Justified(hier, aliases, o, kind, r)
  {
    PruningMembers(r.start, r.before);
  }

  lemma {:induction false} RunsConcatenate(hier: set<NodeId>, aliases: map<NodeId, NodeId>, o: Options, kind: Kind,
                                           g: Graph, first: seq<Removal>, h: Graph, second: seq<Removal>, k: Graph)
    requires JustifiedRun(hier, aliases, o, kind, g, first, h)
    requires JustifiedRun(hier, aliases, o, kind, h, second, k)
    ensures JustifiedRun(hier, aliases, o, kind, g, first + second, k)
    decreases |second|
  {
    hide Justified, Pruning;
    if second == [] {
      assert first + second == first;
    } else {
      var last := second[|second| - 1];
      RunIsPruning(hier, aliases, o, kind, g, first, h);
      PruningTransitive(g, h, last.start);
      RunsConcatenate(hier, aliases, o, kind, g, first, h, second[..|second| - 1], last.before);
      assert (first + second)[..|first + second| - 1] == first + second[..|second| - 1];
    }
  }

  lemma RunExtended(hier: set<NodeId>, aliases: map<NodeId, NodeId>, o: Options, kind: Kind,
                    g: Graph, record: seq<Removal>, r: Removal)
    requires JustifiedRun(hier, aliases, o, kind, g, record, r.before)
    requires Justified(hier, aliases, o, kind, r) && Pruning(g, r.start)
    ensures JustifiedRun(hier, aliases, o, kind, g, record + [r], r.after)
  {
    hide Justified;
    assert (record + [r])[..|record|] == record;
  }

  lemma {:induction false} RunIsPruning(hier: set<NodeId>, aliases: map<NodeId, NodeId>, o: Options, kind: Kind,
                                        g: Graph, record: seq<Removal>, h: Graph)
    requires JustifiedRun(hier, aliases, o, kind, g, record, h)
    ensures Pruning(g, h)
    ensures Reciprocal(g) ==> KeepsParents(g, h, hier)
    ensures record != [] ==> h.Keys < g.Keys
    decreases |record|
  {
    hide Reciprocal;
    if record == [] {
      PruningReflexive(g);
    } else {
      var last := record[|record| - 1];
      RunIsPruning(hier, aliases, o, kind, g, record[..|record| - 1], last.before);
      PruningTransitive(g, last.before, h);
      if Reciprocal(g) {
        PruningKeepsReciprocal(g, last.before);
        KeepsParentsTransitive(g, last.before, h, hier);
      }
    }
  }

  // ----- The removals -----

  /** The removals of one unused type: first its instance declarations, then the type itself. */
  method RemoveType(t: Tree, hier: set<NodeId>, decls: seq<NodeId>, nid: NodeId)
    modifies t`nodes
    ensures Pruning(old(t.nodes), t.nodes)
    ensures LostBelow(old(t.nodes), t.nodes, hier, (set p | p in decls) + {nid})
    ensures Reciprocal(old(t.nodes)) ==> KeepsParents(old(t.nodes), t.nodes, hier)
    ensures nid !in t.nodes && forall p :: p in decls ==> p !in t.nodes
  {
    hide LostBelow, SubtreeRemoval, Pruning, Reciprocal;
    ghost var roots := (set p | p in decls) + {nid};
    PruningReflexive(t.nodes);
    LostNothing(t.nodes, hier, roots);
    for i := 0 to |decls|
      invariant Pruning(old(t.nodes), t.nodes)
      invariant LostBelow(old(t.nodes), t.nodes, hier, roots)
      invariant Reciprocal(old(t.nodes)) ==> KeepsParents(old(t.nodes), t.nodes, hier)
      invariant forall j :: 0 <= j < i ==> decls[j] !in t.nodes
    {
      RemoveOneOf(t, hier, roots, decls[i], old(t.nodes));
    }
    RemoveOneOf(t, hier, roots, nid, old(t.nodes));
  }

  method RemoveOneOf(t: Tree, hier: set<NodeId>, ghost roots: set<NodeId>, nid: NodeId, ghost start: Graph)
    requires nid in roots && Pruning(start, t.nodes) && LostBelow(start, t.nodes, hier, roots)
    requires Reciprocal(start) ==> KeepsParents(start, t.nodes, hier)
    modifies t`nodes
    ensures Pruning(start, t.nodes) && LostBelow(start, t.nodes, hier, roots)
    ensures Reciprocal(start) ==> KeepsParents(start, t.nodes, hier)
    ensures nid !in t.nodes && t.nodes.Keys <= old(t.nodes).Keys
  {
    hide LostBelow, SubtreeRemoval, Reciprocal;
    ghost var g := t.nodes;
    ghost var _ := RemoveSubtree(t, hier, nid);
    LostBelowMore(start, g, t.nodes, hier, roots, nid);
    PruningTransitive(start, g, t.nodes);
    if Reciprocal(start) {
      PruningKeepsReciprocal(start, g);
      KeepsParentsTransitive(start, g, t.nodes, hier);
    }
  }

  /** One pass over the types of a kind. Removing elements while the tree is iterated makes the
      iteration miss some of them, so after a removal any of the types still to come may be skipped. */
  method Pass(t: Tree, hier: set<NodeId>, o: Options, kind: Kind)
    returns (removed: set<NodeId>, ghost record: seq<Removal>)
    requires kind in {UAObjectType, UAVariableType, UADataType, UAReferenceType}
    modifies t`nodes
    ensures JustifiedRun(hier, t.aliases, o, kind, old(t.nodes), record, t.nodes)
    ensures removed == {} <==> record == []
    ensures removed == {} ==> AllNeeded(t.nodes, t.aliases, o, kind)
  {
    hide Justified, JustifiedRun, LostBelow, Pruning, Reciprocal, KeepsParents, Subtyped, Names, Retained;
    RunStarts(hier, t.aliases, o, kind, t.nodes);
    removed, record := {}, [];
    var declarations := Declarations(t.nodes, kind);
    var todo := set n | n in t.nodes && t.nodes[n].kind == kind;
    while todo != {}
      invariant JustifiedRun(hier, t.aliases, o, kind, old(t.nodes), record, t.nodes)
      invariant removed == {} <==> record == []
      invariant removed == {} ==> t.nodes == old(t.nodes)
      invariant forall n :: n in todo ==> n in old(t.nodes) && old(t.nodes)[n].kind == kind
      invariant removed == {} ==>
        forall n :: n in t.nodes && t.nodes[n].kind == kind && n !in todo ==> Needed(t.nodes, t.aliases, o, kind, n)
    {
      var nid :| nid in todo;
      todo := todo - {nid};
      if nid !in t.nodes || Retained(o, nid) || Subtyped(t.nodes, kind, Names(o, nid)) {
        continue;
      }
      var found, decls;
      if kind == UAObjectType || kind == UAVariableType {
        found, decls := ExistsTypedefRef(t.nodes, t.aliases, kind, Names(o, nid), declarations);
      } else {
        found, decls := Used(t.nodes, t.aliases, kind, Names(o, nid), declarations), [];
      }
      if found {
        continue;
      }
      ghost var g := t.nodes;
      RemoveType(t, hier, decls, nid);
      ghost var r := Removal(nid, (set p | p in decls), old(t.nodes), g, t.nodes);
      RunIsPruning(hier, t.aliases, o, kind, old(t.nodes), record, g);
      RemovalJustified(hier, t.aliases, o, kind, r);
      PruningReflexive(old(t.nodes));
      RunExtended(hier, t.aliases, o, kind, old(t.nodes), record, r);
      record := record + [r];
      removed := removed + {nid} + set p | p in decls;
      var skipped: set<NodeId> := *;
      todo := todo - skipped;
    }
  }

  /** The loop for one kind of type ends because every pass but the last removes a node. */
  method RemoveUnusedOfKind(t: Tree, hier: set<NodeId>, o: Options, kind: Kind) returns (ghost record: seq<Removal>)
    requires kind in {UAObjectType, UAVariableType, UADataType, UAReferenceType}
    modifies t`nodes
    ensures JustifiedRun(hier, t.aliases, o, kind, old(t.nodes), record, t.nodes)
    ensures AllNeeded(t.nodes, t.aliases, o, kind)
  {
    record := [];
    while true
      invariant JustifiedRun(hier, t.aliases, o, kind, old(t.nodes), record, t.nodes)
      decreases t.nodes.Keys
    {
      ghost var g := t.nodes;
      var removed, more := Pass(t, hier, o, kind);
      RunIsPruning(hier, t.aliases, o, kind, g, more, t.nodes);
      RunsConcatenate(hier, t.aliases, o, kind, old(t.nodes), record, g, more, t.nodes);
      record := record + more;
      if |removed| == 0 {
        break;
      }
    }
  }

  function TypeKinds(): seq<Kind> {
    [UAObjectType, UAVariableType, UADataType, UAReferenceType]
  }

  /** `stages` are the trees before and after the loop of each kind, `records` what each loop removed. */
  ghost predicate UnusedStages(hier: set<NodeId>, aliases: map<NodeId, NodeId>, o: Options,
                               stages: seq<Graph>, records: seq<seq<Removal>>)
  {
    && |stages| == |TypeKinds()| + 1 && |records| == |TypeKinds()|
    && (forall i :: 0 <= i < |records| ==> JustifiedRun(hier, aliases, o, TypeKinds()[i], stages[i], records[i], stages[i + 1]))
    && (forall i :: 0 <= i < |records| ==> AllNeeded(stages[i + 1], aliases, o, TypeKinds()[i]))
  }

  /** `remove_unused` */
  method RemoveUnused(t: Tree, hier: set<NodeId>, retainNs0: bool, retainTypes: set<NodeId>)
    returns (o: Options, ghost stages: seq<Graph>, ghost records: seq<seq<Removal>>)
    modifies t`nodes
    ensures o.retainNs0 == retainNs0 && o.retainTypes == retainTypes
    ensures forall n :: n in o.aliasOf <==> n in t.aliases.Values
    ensures forall n :: n in o.aliasOf ==> o.aliasOf[n] in t.aliases && t.aliases[o.aliasOf[n]] == n
    ensures UnusedStages(hier, t.aliases, o, stages, records)
    ensures stages[0] == old(t.nodes) && stages[|stages| - 1] == t.nodes
    ensures Pruning(old(t.nodes), t.nodes)
    ensures Reciprocal(old(t.nodes)) ==> KeepsParents(old(t.nodes), t.nodes, hier)
  {
    hide JustifiedRun, AllNeeded, Pruning, Reciprocal;
    PruningReflexive(t.nodes);
    var aliasOf := GetAliases(t.aliases);
    o := Options(retainNs0, retainTypes, aliasOf);
    stages, records := [t.nodes], [];
    var kinds := TypeKinds();
    for i := 0 to |kinds|
      invariant |stages| == i + 1 && |records| == i && stages[0] == old(t.nodes) && stages[i] == t.nodes
      invariant forall j :: 0 <= j < i ==> JustifiedRun(hier, t.aliases, o, kinds[j], stages[j], records[j], stages[j + 1])
      invariant forall j :: 0 <= j < i ==> AllNeeded(stages[j + 1], t.aliases, o, kinds[j])
      invariant Pruning(old(t.nodes), t.nodes)
      invariant Reciprocal(old(t.nodes)) ==> KeepsParents(old(t.nodes), t.nodes, hier)
    {
      ghost var g := t.nodes;
      var record := RemoveUnusedOfKind(t, hier, o, kinds[i]);
      RunIsPruning(hier, t.aliases, o, kinds[i], g, record, t.nodes);
      PruningTransitive(old(t.nodes), g, t.nodes);
      if Reciprocal(old(t.nodes)) {
        PruningKeepsReciprocal(old(t.nodes), g);
        KeepsParentsTransitive(old(t.nodes), g, t.nodes, hier);
      }
      stages, records := stages + [t.nodes], records + [record];
    }
  }
}

/** Merging address space files one after another: namespaces, aliases and nodes. */
module Merge {
  import opened Basics
  import opened AddressSpace
  import opened Namespaces

  /** A node element of a file; `browseName` holds the prefix index and the name, `typeIds` are the
      NodeIds found in its value. */
  datatype Element = Element(
    nid: NodeId,
    browseName: NodeId,
    methodDeclaration: Option<NodeId>,
    typeIds: seq<NodeId>,
    node: Node)

  datatype File = File(uris: Option<seq<string>>, aliases: map<NodeId, NodeId>, elements: seq<Element>) {
    function Uris(): seq<string> {
      if uris.Some? then uris.value else []
    }
  }

  /** The contents of the merged tree. */
  datatype Document = Document(uris: seq<string>, aliases: map<NodeId, NodeId>, elements: seq<Element>)

  datatype Outcome = Merged | Undeclared | AliasConflict | DuplicateNodeIds

  // ----- Renumbering a node element -----

  function RenumberOption(m: map<nat, nat>, id: Option<NodeId>): Option<NodeId> {
    if id.Some? then Some(Renumber(m, id.value)) else None
  }

  function RenumberAll(m: map<nat, nat>, ids: seq<NodeId>): seq<NodeId> {
    seq(|ids|, i requires 0 <= i < |ids| => Renumber(m, ids[i]))
  }

  function RenumberRef(m: map<nat, nat>, r: Ref): Ref {
    Ref(Renumber(m, r.refType), Renumber(m, r.target), r.forward)
  }

  function RenumberRefs(m: map<nat, nat>, refs: seq<Ref>): seq<Ref> {
    seq(|refs|, i requires 0 <= i < |refs| => RenumberRef(m, refs[i]))
  }

  /** `reassign_node_ns_index` */
  function RenumberElement(m: map<nat, nat>, e: Element): Element {
    Element(
      Renumber(m, e.nid),
      Renumber(m, e.browseName),
      RenumberOption(m, e.methodDeclaration),
      RenumberAll(m, e.typeIds),
      Node(e.node.kind, RenumberRefs(m, e.node.refs), RenumberOption(m, e.node.parent), RenumberOption(m, e.node.dataType)))
  }

  // ----- Meaning across files -----

  ghost predicate Same(ua: seq<string>, a: NodeId, ub: seq<string>, b: NodeId) {
    Declared(ua, a) && Declared(ub, b) && Meaning(ua, a) == Meaning(ub, b)
  }

  ghost predicate SameOption(ua: seq<string>, a: Option<NodeId>, ub: seq<string>, b: Option<NodeId>) {
    a.Some? == b.Some? && (a.Some? ==> Same(ua, a.value, ub, b.value))
  }

  ghost predicate SameRef(ua: seq<string>, a: Ref, ub: seq<string>, b: Ref) {
    Same(ua, a.refType, ub, b.refType) && Same(ua, a.target, ub, b.target) && a.forward == b.forward
  }

  /** Under the URIs of its file each element says the same as the other: every id it holds, its own,
      those of its attributes, references and values, names the same URI and the same text. */
  ghost predicate SameElement(ua: seq<string>, a: Element, ub: seq<string>, b: Element) {
    && Same(ua, a.nid, ub, b.nid)
    && Same(ua, a.browseName, ub, b.browseName)
    && SameOption(ua, a.methodDeclaration, ub, b.methodDeclaration)
    && SameOption(ua, a.node.parent, ub, b.node.parent)
    && SameOption(ua, a.node.dataType, ub, b.node.dataType)
    && a.node.kind == b.node.kind
    && |a.typeIds| == |b.typeIds|
    && (forall i :: 0 <= i < |a.typeIds| ==> Same(ua, a.typeIds[i], ub, b.typeIds[i]))
    && |a.node.refs| == |b.node.refs|
    && (forall i :: 0 <= i < |a.node.refs| ==> SameRef(ua, a.node.refs[i], ub, b.node.refs[i]))
  }

  /** Every id of the element is declared. */
  ghost predicate ElementDeclared(uris: seq<string>, e: Element) {
    SameElement(uris, e, uris, e)
  }

  lemma RenumberSame(m: map<nat, nat>, newUris: seq<string>, merged: seq<string>, id: NodeId)
    requires Translates(m, newUris, merged) && Declared(newUris, id)
    ensures Same(merged, Renumber(m, id), newUris, id)
  {
    RenumberKeepsMeaning(m, newUris, merged, id);
  }

  /** Renumbering an element keeps its meaning. */
  lemma RenumberElementSame(m: map<nat, nat>, newUris: seq<string>, merged: seq<string>, e: Element)
    requires Translates(m, newUris, merged) && ElementDeclared(newUris, e)
    ensures SameElement(merged, RenumberElement(m, e), newUris, e)
  {
    hide Translates;
    forall id: NodeId | Declared(newUris, id)
      ensures Same(merged, Renumber(m, id), newUris, id)
    {
      RenumberSame(m, newUris, merged, id);
    }
    var q := RenumberElement(m, e);
    forall i | 0 <= i < |e.node.refs|
      ensures SameRef(merged, q.node.refs[i], newUris, e.node.refs[i])
    {
      assert SameRef(newUris, e.node.refs[i], newUris, e.node.refs[i]);
    }
    forall i | 0 <= i < |e.typeIds|
      ensures Same(merged, q.typeIds[i], newUris, e.typeIds[i])
    {
      assert Same(newUris, e.typeIds[i], newUris, e.typeIds[i]);
    }
  }

  /** Appending URIs changes the meaning of no element. */
  lemma SameElementLater(ua: seq<string>, more: seq<string>, a: Element, ub: seq<string>, b: Element)
    requires ua <= more && SameElement(ua, a, ub, b)
    ensures SameElement(more, a, ub, b)
  {
    hide Meaning;
    forall x: NodeId | Declared(ua, x)
      ensures Declared(more, x) && Meaning(more, x) == Meaning(ua, x)
    {
      MeaningStable(ua, more, x);
    }
    forall i | 0 <= i < |a.node.refs|
      ensures SameRef(more, a.node.refs[i], ub, b.node.refs[i])
    {
      assert SameRef(ua, a.node.refs[i], ub, b.node.refs[i]);
    }
    forall i | 0 <= i < |a.typeIds|
      ensures Same(more, a.typeIds[i], ub, b.typeIds[i])
    {
      assert Same(ua, a.typeIds[i], ub, b.typeIds[i]);
    }
  }

  lemma SameElementDeclared(ua: seq<string>, a: Element, ub: seq<string>, b: Element)
    requires SameElement(ua, a, ub, b)
    ensures ElementDeclared(ua, a)
  {
    forall i | 0 <= i < |a.node.refs|
      ensures SameRef(ua, a.node.refs[i], ua, a.node.refs[i])
    {
      assert SameRef(ua, a.node.refs[i], ub, b.node.refs[i]);
    }
    forall i | 0 <= i < |a.typeIds|
      ensures Same(ua, a.typeIds[i], ua, a.typeIds[i])
    {
      assert Same(ua, a.typeIds[i], ub, b.typeIds[i]);
    }
  }

  // ----- Checks -----

  predicate DeclaredOption(uris: seq<string>, id: Option<NodeId>) {
    id.Some? ==> Declared(uris, id.value)
  }

  /** `_check_all_namespaces_declared`: URIs are unique, attributes and aliases use declared indices. */
  predicate WellDeclared(f: File) {
    && Distinct(f.Uris())
    && (forall i :: 0 <= i < |f.elements| ==>
          var e := f.elements[i];
          && Declared(f.Uris(), e.nid) && Declared(f.Uris(), e.browseName) && DeclaredOption(f.Uris(), e.methodDeclaration)
          && DeclaredOption(f.Uris(), e.node.parent) && DeclaredOption(f.Uris(), e.node.dataType))
    && (forall a | a in f.aliases :: Declared(f.Uris(), f.aliases[a]))
  }

  /** The indices that the checks do not look at: those of references and of values. */
  ghost predicate RefsDeclared(f: File) {
    forall e :: e in f.elements ==>
      && (forall i :: 0 <= i < |e.typeIds| ==> Declared(f.Uris(), e.typeIds[i]))
      && (forall i :: 0 <= i < |e.node.refs| ==> Declared(f.Uris(), e.node.refs[i].refType) && Declared(f.Uris(), e.node.refs[i].target))
  }

  lemma FileDeclared(f: File, e: Element)
    requires WellDeclared(f) && RefsDeclared(f) && e in f.elements
    ensures ElementDeclared(f.Uris(), e)
  {
  }

  // ----- Aliases -----

  /** The alias tables disagree about a name. */
  predicate Conflict(current: map<NodeId, NodeId>, added: map<NodeId, NodeId>) {
    exists a | a in current :: a in added && current[a] != added[a]
  }

  /** `__merge_aliases`: nothing changes when a name would get a second value. */
  method MergeAliases(current: map<NodeId, NodeId>, added: map<NodeId, NodeId>)
    returns (ok: bool, merged: map<NodeId, NodeId>)
    ensures ok <==> !Conflict(current, added)
    ensures ok ==> merged == added + current
    ensures !ok ==> merged == current
  {
    ok, merged := true, current;
    var common := current.Keys * added.Keys;
    while common != {}
      invariant common <= current.Keys * added.Keys
      invariant ok <==> forall a :: a in current && a in added && a !in common ==> current[a] == added[a]
    {
      var a :| a in common;
      common := common - {a};
      if current[a] != added[a] {
        ok := false;
      }
    }
    if !ok {
      return;
    }
    var todo := added.Keys - current.Keys;
    while todo != {}
      invariant todo <= added.Keys - current.Keys
      invariant merged.Keys == current.Keys + (added.Keys - todo)
      invariant forall a :: a in merged ==> merged[a] == if a in current then current[a] else added[a]
    {
      var a :| a in todo;
      todo := todo - {a};
      merged := merged[a := added[a]];
    }
  }

  // ----- Nodes -----

  function Ids(elements: seq<Element>): set<NodeId> {
    set e | e in elements :: e.nid
  }

  predicate DistinctIds(elements: seq<Element>) {
    forall i, j :: 0 <= i < j < |elements| ==> elements[i].nid != elements[j].nid
  }

  /** Two elements of the new file get the same id, which the tree does not have. */
  predicate DuplicateInFile(base: set<NodeId>, incoming: seq<Element>) {
    exists i, j :: 0 <= i < j < |incoming| && incoming[i].nid == incoming[j].nid && incoming[i].nid !in base
  }

  /** An id of the new file outside of namespace 0 is already in the tree. */
  predicate UserDuplicate(base: set<NodeId>, incoming: seq<Element>) {
    exists e | e in incoming :: e.nid in base && e.nid.ns != 0
  }

  /** Why elements cannot be merged. */
  predicate Duplicates(base: seq<Element>, incoming: seq<Element>) {
    !DistinctIds(base) || DuplicateInFile(Ids(base), incoming) || UserDuplicate(Ids(base), incoming)
  }

  method BaseIds(base: seq<Element>) returns (ids: set<NodeId>, duplicates: set<NodeId>)
    ensures ids == Ids(base)
    ensures duplicates == {} <==> DistinctIds(base)
  {
    hide DistinctIds;
    ids, duplicates := {}, {};
    NoElements();
    for i := 0 to |base|
      invariant ids == Ids(base[..i])
      invariant duplicates == {} <==> DistinctIds(base[..i])
    {
      var nid := base[i].nid;
      assert base[..i + 1] == base[..i] + [base[i]];
      IdsMore(base[..i], base[i]);
      DistinctIdsMore(base[..i], base[i]);
      if nid in ids {
        duplicates := duplicates + {nid};
      }
      ids := ids + {nid};
    }
    assert base[..|base|] == base;
  }

  lemma NoElements()
    ensures DistinctIds([])
  {
  }

  lemma DistinctIdsMore(elements: seq<Element>, e: Element)
    ensures DistinctIds(elements + [e]) <==> DistinctIds(elements) && e.nid !in Ids(elements)
  {
    var more := elements + [e];
    if e.nid in Ids(elements) {
      var x :| x in elements && x.nid == e.nid;
      var j :| 0 <= j < |elements| && elements[j] == x;
      assert more[j].nid == more[|elements|].nid;
    } else {
      assert forall j :: 0 <= j < |elements| ==> elements[j].nid in Ids(elements);
    }
    if !DistinctIds(elements) {
      var i, j :| 0 <= i < j < |elements| && elements[i].nid == elements[j].nid;
      assert more[i].nid == more[j].nid;
    }
  }

  /** The elements of the new file that are new to the tree, by id. */
  ghost predicate NewNodes(base: set<NodeId>, incoming: seq<Element>, nodes: map<NodeId, Element>) {
    && nodes.Keys == Ids(incoming) - base
    && (forall e :: e in incoming && e.nid !in base ==> nodes[e.nid] == e)
  }

  /** The state of the split after the elements `seen` of the new file. */
  ghost predicate Splitting(base: set<NodeId>, seen: seq<Element>, nodes: map<NodeId, Element>,
                            targetDuplicates: set<NodeId>, duplicates: set<NodeId>)
  {
    && nodes.Keys == Ids(seen) - base
    && (targetDuplicates == {} <==> !DuplicateInFile(base, seen))
    && (targetDuplicates == {} ==> NewNodes(base, seen, nodes))
    && duplicates == Ids(seen) * base
  }

  lemma SplitMore(base: set<NodeId>, seen: seq<Element>, nodes: map<NodeId, Element>,
                  targetDuplicates: set<NodeId>, duplicates: set<NodeId>, e: Element)
    requires Splitting(base, seen, nodes, targetDuplicates, duplicates)
    ensures e.nid in nodes ==> Splitting(base, seen + [e], nodes, targetDuplicates + {e.nid}, duplicates)
    ensures e.nid !in nodes && e.nid in base ==> Splitting(base, seen + [e], nodes, targetDuplicates, duplicates + {e.nid})
    ensures e.nid !in nodes && e.nid !in base ==> Splitting(base, seen + [e], nodes[e.nid := e], targetDuplicates, duplicates)
  {
    hide DuplicateInFile;
    DuplicateInFileMore(base, seen, e);
    IdsMore(seen, e);
    if e.nid !in nodes && e.nid !in base {
      var more := nodes[e.nid := e];
      assert more.Keys == nodes.Keys + {e.nid};
      assert forall x :: x in seen ==> x.nid in Ids(seen);
    }
  }

  lemma IdsMore(seen: seq<Element>, e: Element)
    ensures Ids(seen + [e]) == Ids(seen) + {e.nid}
  {
  }

  lemma DuplicateInFileMore(base: set<NodeId>, seen: seq<Element>, e: Element)
    ensures DuplicateInFile(base, seen + [e]) <==> DuplicateInFile(base, seen) || e.nid in Ids(seen) - base
  {
    var more := seen + [e];
    if DuplicateInFile(base, seen) {
      var j, k :| 0 <= j < k < |seen| && seen[j].nid == seen[k].nid && seen[j].nid !in base;
      assert more[j].nid == more[k].nid;
    }
    if e.nid in Ids(seen) - base {
      var x :| x in seen && x.nid == e.nid;
      var j :| 0 <= j < |seen| && seen[j] == x;
      assert more[j].nid == more[|seen|].nid;
    }
  }

  /** `__split_merged_nodes`, for the renumbered elements `incoming` of the new file. */
  method SplitMergedNodes(base: seq<Element>, incoming: seq<Element>) returns (ok: bool, nodes: map<NodeId, Element>)
    ensures ok <==> DistinctIds(base) && !DuplicateInFile(Ids(base), incoming) && !UserDuplicate(Ids(base), incoming)
    ensures ok ==> NewNodes(Ids(base), incoming, nodes)
  {
    hide DuplicateInFile, NewNodes, DistinctIds;
    var ids, sourceDuplicates := BaseIds(base);
    nodes := map[];
    var targetDuplicates, duplicates := {}, {};
    SplitNothing(ids);
    for i := 0 to |incoming|
      invariant Splitting(ids, incoming[..i], nodes, targetDuplicates, duplicates)
    {
      hide Splitting;
      var e := incoming[i];
      assert incoming[..i + 1] == incoming[..i] + [e];
      SplitMore(ids, incoming[..i], nodes, targetDuplicates, duplicates, e);
      if e.nid in nodes {
        targetDuplicates := targetDuplicates + {e.nid};
      } else if e.nid in ids {
        duplicates := duplicates + {e.nid};
      } else {
        nodes := nodes[e.nid := e];
      }
    }
    assert incoming[..|incoming|] == incoming;
    var userDuplicates := set d | d in duplicates && d.ns != 0;
    assert userDuplicates == {} <==> !UserDuplicate(ids, incoming) by {
      if UserDuplicate(ids, incoming) {
        var e :| e in incoming && e.nid in ids && e.nid.ns != 0;
        assert e.nid in userDuplicates;
      }
    }
    ok := sourceDuplicates == {} && targetDuplicates == {} && userDuplicates == {};
  }

  lemma SplitNothing(base: set<NodeId>)
    ensures Splitting(base, [], map[], {}, {})
  {
  }

  /** `__merge_nodes`: the new nodes are appended, in some order; nodes that the tree has stay as they are. */
  method MergeNodes(base: seq<Element>, nodes: map<NodeId, Element>) returns (merged: seq<Element>)
    requires DistinctIds(base) && nodes.Keys !! Ids(base) && forall n :: n in nodes ==> nodes[n].nid == n
    ensures base <= merged && DistinctIds(merged)
    ensures forall e :: e in merged[|base|..] <==> e.nid in nodes && nodes[e.nid] == e
  {
    merged := base;
    var todo := nodes.Keys;
    while todo != {}
      invariant todo <= nodes.Keys
      invariant base <= merged && DistinctIds(merged)
      invariant forall e :: e in merged[|base|..] <==> e.nid in nodes && e.nid !in todo && nodes[e.nid] == e
    {
      var n :| n in todo;
      todo := todo - {n};
      forall i | 0 <= i < |merged|
        ensures merged[i].nid != n
      {
        if i < |base| {
          assert base[i] in base;
        } else {
          assert merged[i] in merged[|base|..];
        }
      }
      var longer := merged + [nodes[n]];
      assert longer[|base|..] == merged[|base|..] + [nodes[n]];
      merged := longer;
    }
  }

  // ----- One merge -----

  ghost predicate DocumentDeclared(d: Document) {
    && Distinct(d.uris)
    && (forall x :: x in d.elements ==> ElementDeclared(d.uris, x))
    && (forall a :: a in d.aliases ==> Declared(d.uris, d.aliases[a]))
  }

  /** `x` stands for element `s` of the file: it is `s` renumbered or, in namespace 0 only, a node that
      the tree already had under the same id. */
  ghost predicate StandsFor(d: Document, e: Document, f: File, x: Element, s: Element) {
    && x in e.elements
    && Same(e.uris, x.nid, f.Uris(), s.nid)
    && (if x in d.elements then s.nid.ns == 0 else SameElement(e.uris, x, f.Uris(), s))
  }

  /** Document `e` is the result of merging file `f` into document `d`. */
  ghost predicate MergedInto(d: Document, f: File, e: Document) {
    // namespaces: the old list is a prefix of the new one, which has no duplicate
    && d.uris <= e.uris && Distinct(e.uris)
    && (forall u :: u in e.uris <==> u in d.uris || u in f.Uris())
    // nodes: the old ones stay in place, ids are unique, each appended one comes from the file
    && d.elements <= e.elements && DistinctIds(e.elements)
    && (forall x :: x in e.elements[|d.elements|..] ==> x !in d.elements && exists s :: s in f.elements && SameElement(e.uris, x, f.Uris(), s))
    && (forall s :: s in f.elements ==> exists x :: StandsFor(d, e, f, x, s))
    // aliases
    && e.aliases.Keys == d.aliases.Keys + f.aliases.Keys
    && (forall a :: a in d.aliases ==> e.aliases[a] == d.aliases[a])
    && (forall a :: a in f.aliases ==> Same(e.uris, e.aliases[a], f.Uris(), f.aliases[a]))
  }

  lemma MergedDeclared(d: Document, f: File, e: Document)
    requires DocumentDeclared(d) && MergedInto(d, f, e)
    ensures DocumentDeclared(e)
  {
    hide SameElement;
    forall x | x in e.elements
      ensures ElementDeclared(e.uris, x)
    {
      if x in e.elements[|d.elements|..] {
        var s :| s in f.elements && SameElement(e.uris, x, f.Uris(), s);
        SameElementDeclared(e.uris, x, f.Uris(), s);
      } else {
        assert e.elements == d.elements + e.elements[|d.elements|..];
        LaterDeclared(d.uris, e.uris, x);
      }
    }
    forall a | a in e.aliases
      ensures Declared(e.uris, e.aliases[a])
    {
      assert a in f.aliases ==> Same(e.uris, e.aliases[a], f.Uris(), f.aliases[a]);
    }
  }

  lemma LaterDeclared(uris: seq<string>, more: seq<string>, x: Element)
    requires uris <= more && ElementDeclared(uris, x)
    ensures ElementDeclared(more, x)
  {
    SameElementLater(uris, more, x, uris, x);
    SameElementDeclared(more, x, uris, x);
  }

  lemma SameNid(ua: seq<string>, a: Element, ub: seq<string>, b: Element)
    requires SameElement(ua, a, ub, b)
    ensures Same(ua, a.nid, ub, b.nid)
  {
  }

  function RenumberElements(m: map<nat, nat>, elements: seq<Element>): seq<Element> {
    seq(|elements|, i requires 0 <= i < |elements| => RenumberElement(m, elements[i]))
  }

  function RenumberAliases(m: map<nat, nat>, aliases: map<NodeId, NodeId>): map<NodeId, NodeId> {
    map a | a in aliases :: Renumber(m, aliases[a])
  }

  /** Nodes outside of namespace 0 never collide by renumbering: equal new ids come from equal ids. */
  lemma RenumberedIdsDistinct(m: map<nat, nat>, f: File, merged: seq<string>, i: nat, j: nat)
    requires WellDeclared(f) && Translates(m, f.Uris(), merged)
    requires i < |f.elements| && j < |f.elements|
    requires RenumberElements(m, f.elements)[i].nid == RenumberElements(m, f.elements)[j].nid
    ensures f.elements[i].nid == f.elements[j].nid
  {
    RenumberInjective(m, f.Uris(), merged, f.elements[i].nid, f.elements[j].nid);
  }

  lemma MergeCorrect(d: Document, f: File, m: map<nat, nat>, nodes: map<NodeId, Element>, e: Document)
    requires WellDeclared(f) && RefsDeclared(f) && Translates(m, f.Uris(), e.uris)
    requires d.uris <= e.uris && Distinct(e.uris) && forall u :: u in e.uris <==> u in d.uris || u in f.Uris()
    requires !Conflict(d.aliases, RenumberAliases(m, f.aliases)) && e.aliases == RenumberAliases(m, f.aliases) + d.aliases
    requires !UserDuplicate(Ids(d.elements), RenumberElements(m, f.elements))
    requires NewNodes(Ids(d.elements), RenumberElements(m, f.elements), nodes)
    requires d.elements <= e.elements && DistinctIds(e.elements)
    requires forall x :: x in e.elements[|d.elements|..] <==> x.nid in nodes && nodes[x.nid] == x
    requires DocumentDeclared(d)
    ensures MergedInto(d, f, e)
  {
    hide SameElement, Translates, Same, DistinctIds;
    forall s | s in f.elements
      ensures exists x :: StandsFor(d, e, f, x, s)
    {
      ElementStandsFor(d, f, m, nodes, e, s);
    }
    forall x | x in e.elements[|d.elements|..]
      ensures x !in d.elements && exists s :: s in f.elements && SameElement(e.uris, x, f.Uris(), s)
    {
      AppendedComesFrom(d, f, m, nodes, e.uris, x);
    }
    forall a | a in f.aliases
      ensures Same(e.uris, e.aliases[a], f.Uris(), f.aliases[a])
    {
      RenumberSame(m, f.Uris(), e.uris, f.aliases[a]);
    }
  }

  lemma AppendedComesFrom(d: Document, f: File, m: map<nat, nat>, nodes: map<NodeId, Element>, uris: seq<string>, x: Element)
    requires WellDeclared(f) && RefsDeclared(f) && Translates(m, f.Uris(), uris)
    requires NewNodes(Ids(d.elements), RenumberElements(m, f.elements), nodes)
    requires x.nid in nodes && nodes[x.nid] == x
    ensures x !in d.elements && exists s :: s in f.elements && SameElement(uris, x, f.Uris(), s)
  {
    hide SameElement, Translates;
    var incoming := RenumberElements(m, f.elements);
    assert x.nid in Ids(incoming) && x.nid !in Ids(d.elements);
    var y :| y in incoming && y.nid == x.nid;
    var i :| 0 <= i < |incoming| && incoming[i] == y;
    var s := f.elements[i];
    FileDeclared(f, s);
    RenumberElementSame(m, f.Uris(), uris, s);
  }

  lemma ElementStandsFor(d: Document, f: File, m: map<nat, nat>, nodes: map<NodeId, Element>, e: Document, s: Element)
    requires WellDeclared(f) && RefsDeclared(f) && Translates(m, f.Uris(), e.uris)
    requires !UserDuplicate(Ids(d.elements), RenumberElements(m, f.elements))
    requires NewNodes(Ids(d.elements), RenumberElements(m, f.elements), nodes)
    requires d.elements <= e.elements
    requires forall x :: x in e.elements[|d.elements|..] <==> x.nid in nodes && nodes[x.nid] == x
    requires s in f.elements
    ensures exists x :: StandsFor(d, e, f, x, s)
  {
    hide SameElement, Translates, Same;
    var incoming := RenumberElements(m, f.elements);
    var i :| 0 <= i < |f.elements| && f.elements[i] == s;
    var y := RenumberElement(m, s);
    assert incoming[i] == y && y in incoming;
    FileDeclared(f, s);
    RenumberElementSame(m, f.Uris(), e.uris, s);
    SameNid(e.uris, y, f.Uris(), s);
    SameNamespaceZero(m, f, e.uris, s);
    assert e.elements == d.elements + e.elements[|d.elements|..];
    if y.nid in Ids(d.elements) {
      var x :| x in d.elements && x.nid == y.nid;
      assert StandsFor(d, e, f, x, s);
    } else {
      assert y in e.elements[|d.elements|..];
      assert y !in d.elements;
      assert StandsFor(d, e, f, y, s);
    }
  }

  lemma SameNamespaceZero(m: map<nat, nat>, f: File, uris: seq<string>, s: Element)
    requires WellDeclared(f) && Translates(m, f.Uris(), uris) && s in f.elements
    ensures RenumberElement(m, s).nid.ns == 0 <==> s.nid.ns == 0
  {
    RenumberKeepsMeaning(m, f.Uris(), uris, s.nid);
  }

  // ----- Any number of merges -----

  function FirstDocument(f: File): Document {
    Document(f.Uris(), f.aliases, f.elements)
  }

  /** The document still says what file `f` said: under each of its aliases, and for each of its
      elements, completely outside of namespace 0 and at least under the same id in namespace 0. */
  ghost predicate Represents(d: Document, f: File) {
    && (forall s :: s in f.elements ==> exists x :: Represented(d, f, x, s))
    && (forall a :: a in f.aliases ==> a in d.aliases && Same(d.uris, d.aliases[a], f.Uris(), f.aliases[a]))
  }

  ghost predicate Represented(d: Document, f: File, x: Element, s: Element) {
    && x in d.elements
    && Same(d.uris, x.nid, f.Uris(), s.nid)
    && (s.nid.ns != 0 ==> SameElement(d.uris, x, f.Uris(), s))
  }

  /** Everything in the document was said by one of the files. */
  ghost predicate Sourced(d: Document, files: seq<File>) {
    forall x :: x in d.elements ==> exists f, s :: f in files && s in f.elements && SameElement(d.uris, x, f.Uris(), s)
  }

  lemma FirstRepresented(f: File)
    requires WellDeclared(f) && RefsDeclared(f)
    ensures DocumentDeclared(FirstDocument(f)) && Represents(FirstDocument(f), f) && Sourced(FirstDocument(f), [f])
  {
    hide SameElement;
    var d := FirstDocument(f);
    forall s | s in f.elements
      ensures ElementDeclared(d.uris, s)
      ensures Represented(d, f, s, s)
    {
      FileDeclared(f, s);
      SameNid(d.uris, s, f.Uris(), s);
    }
    forall x | x in d.elements
      ensures exists g, s :: g in [f] && s in g.elements && SameElement(d.uris, x, g.Uris(), s)
    {
      assert f in [f] && x in f.elements && SameElement(d.uris, x, f.Uris(), x);
    }
  }

  lemma MergedRepresents(d: Document, f: File, e: Document)
    requires MergedInto(d, f, e)
    ensures Represents(e, f)
  {
    hide SameElement, Same;
    forall s | s in f.elements
      ensures exists x :: Represented(e, f, x, s)
    {
      var x :| StandsFor(d, e, f, x, s);
      assert Represented(e, f, x, s);
    }
  }

  lemma MergeKeepsRepresented(d: Document, g: File, e: Document, f: File)
    requires MergedInto(d, g, e) && Represents(d, f)
    ensures Represents(e, f)
  {
    hide SameElement;
    forall s | s in f.elements
      ensures exists x :: Represented(e, f, x, s)
    {
      var x :| Represented(d, f, x, s);
      assert e.elements == d.elements + e.elements[|d.elements|..];
      MeaningStable(d.uris, e.uris, x.nid);
      if s.nid.ns != 0 {
        SameElementLater(d.uris, e.uris, x, f.Uris(), s);
      }
      assert Represented(e, f, x, s);
    }
    forall a | a in f.aliases
      ensures a in e.aliases && Same(e.uris, e.aliases[a], f.Uris(), f.aliases[a])
    {
      MeaningStable(d.uris, e.uris, d.aliases[a]);
    }
  }

  lemma MergeKeepsSourced(d: Document, g: File, e: Document, files: seq<File>)
    requires MergedInto(d, g, e) && Sourced(d, files)
    ensures Sourced(e, files + [g])
  {
    hide SameElement, Same, StandsFor;
    forall x | x in e.elements
      ensures exists f, s :: f in files + [g] && s in f.elements && SameElement(e.uris, x, f.Uris(), s)
    {
      if x in e.elements[|d.elements|..] {
        var s :| s in g.elements && SameElement(e.uris, x, g.Uris(), s);
        assert g in files + [g];
      } else {
        assert e.elements == d.elements + e.elements[|d.elements|..];
        var f, s :| f in files && s in f.elements && SameElement(d.uris, x, f.Uris(), s);
        SameElementLater(d.uris, e.uris, x, f.Uris(), s);
        assert f in files + [g];
      }
    }
  }

  /** `docs[i]` is the document after the first i + 1 files. */
  ghost predicate MergeRun(files: seq<File>, docs: seq<Document>) {
    && |docs| == |files| > 0
    && docs[0] == FirstDocument(files[0])
    && (forall i :: 0 < i < |files| ==> MergedInto(docs[i - 1], files[i], docs[i]))
  }

  /** After any run of merges the document says what every file said and nothing else, and its
      namespaces only grew. */
  lemma {:induction false} RunKeepsMeaning(files: seq<File>, docs: seq<Document>, n: nat)
    requires MergeRun(files, docs) && n < |files|
    requires WellDeclared(files[0]) && RefsDeclared(files[0])
    ensures DocumentDeclared(docs[n])
    ensures forall i :: 0 <= i <= n ==> docs[i].uris <= docs[n].uris
    ensures forall i :: 0 <= i <= n ==> Represents(docs[n], files[i])
    ensures Sourced(docs[n], files[..n + 1])
  {
    hide DocumentDeclared, Represents, Sourced, MergedInto;
    if n == 0 {
      FirstRepresented(files[0]);
      assert files[..1] == [files[0]];
    } else {
      RunKeepsMeaning(files, docs, n - 1);
      assert MergedInto(docs[n - 1], files[n], docs[n]);
      MergedDeclared(docs[n - 1], files[n], docs[n]);
      MergedPrefix(docs[n - 1], files[n], docs[n]);
      MergedRepresents(docs[n - 1], files[n], docs[n]);
      forall i | 0 <= i < n
        ensures Represents(docs[n], files[i])
      {
        MergeKeepsRepresented(docs[n - 1], files[n], docs[n], files[i]);
      }
      MergeKeepsSourced(docs[n - 1], files[n], docs[n], files[..n]);
      assert files[..n + 1] == files[..n] + [files[n]];
    }
  }

  lemma MergedPrefix(d: Document, f: File, e: Document)
    requires MergedInto(d, f, e)
    ensures d.uris <= e.uris
  {
  }

  /** With `m`, the indices of the file become those of the merged URIs. */
  ghost predicate Numbers(d: Document, f: File, m: map<nat, nat>, uris: seq<string>) {
    && d.uris <= uris && Distinct(uris) && (forall u :: u in uris <==> u in d.uris || u in f.Uris())
    && Translates(m, f.Uris(), uris)
  }

  // ----- When a file is refused -----

  /** Without any renumbering: the ids have the same text and belong both to namespace 0 or to the same URI. */
  ghost predicate Agree(ua: seq<string>, a: NodeId, ub: seq<string>, b: NodeId) {
    && Declared(ua, a) && Declared(ub, b) && a.text == b.text && (a.ns == 0 <==> b.ns == 0)
    && (a.ns > 0 && b.ns > 0 ==> ua[a.ns - 1] == ub[b.ns - 1])
  }

  /** An alias stands for one id in the tree and for another one in the file. */
  ghost predicate AliasClash(d: Document, f: File) {
    exists a :: a in d.aliases && a in f.aliases && !Agree(d.uris, d.aliases[a], f.Uris(), f.aliases[a])
  }

  /** The tree has the id of the file. */
  ghost predicate HasId(d: Document, f: File, id: NodeId) {
    exists x :: x in d.elements && Agree(d.uris, x.nid, f.Uris(), id)
  }

  /** An id stands twice in the tree, or twice in the file and not in the tree, or in both and not in namespace 0. */
  ghost predicate IdClash(d: Document, f: File) {
    || !DistinctIds(d.elements)
    || (exists i, j :: 0 <= i < j < |f.elements| && f.elements[i].nid == f.elements[j].nid && !HasId(d, f, f.elements[i].nid))
    || (exists s :: s in f.elements && s.nid.ns != 0 && HasId(d, f, s.nid))
  }

  /** The reasons to refuse a file. */
  ghost predicate Refused(d: Document, f: File, r: Outcome) {
    match r
    case Merged => false
    case Undeclared => !WellDeclared(f)
    case AliasConflict => WellDeclared(f) && AliasClash(d, f)
    case DuplicateNodeIds => WellDeclared(f) && !AliasClash(d, f) && IdClash(d, f)
  }

  /** A file is well declared, as far as the check looks, if and only if as a tree it declares all it uses. */
  lemma WellDeclaredIff(f: File)
    requires RefsDeclared(f)
    ensures WellDeclared(f) <==> DocumentDeclared(FirstDocument(f))
  {
    if WellDeclared(f) {
      FirstRepresented(f);
    } else if DocumentDeclared(FirstDocument(f)) {
      forall i | 0 <= i < |f.elements|
        ensures ElementDeclared(f.Uris(), f.elements[i])
      {
        assert f.elements[i] in FirstDocument(f).elements;
      }
    }
  }

  /** Renumbered ids are equal to those of the tree exactly when they agree. */
  lemma AgreeIff(d: Document, f: File, m: map<nat, nat>, uris: seq<string>, x: NodeId, y: NodeId)
    requires Numbers(d, f, m, uris) && Declared(d.uris, x) && Declared(f.Uris(), y)
    ensures x == Renumber(m, y) <==> Agree(d.uris, x, f.Uris(), y)
  {
    if x.ns > 0 && y.ns > 0 {
      var k := Reindex(m, y.ns);
      assert uris[k - 1] == f.Uris()[y.ns - 1] && d.uris[x.ns - 1] == uris[x.ns - 1];
    }
  }

  lemma ConflictIff(d: Document, f: File, m: map<nat, nat>, uris: seq<string>)
    requires WellDeclared(f) && DocumentDeclared(d) && Numbers(d, f, m, uris)
    ensures Conflict(d.aliases, RenumberAliases(m, f.aliases)) <==> AliasClash(d, f)
  {
    hide Numbers, Agree;
    forall a | a in d.aliases && a in f.aliases
      ensures d.aliases[a] == Renumber(m, f.aliases[a]) <==> Agree(d.uris, d.aliases[a], f.Uris(), f.aliases[a])
    {
      AgreeIff(d, f, m, uris, d.aliases[a], f.aliases[a]);
    }
  }

  lemma HasIdIff(d: Document, f: File, m: map<nat, nat>, uris: seq<string>, id: NodeId)
    requires DocumentDeclared(d) && Numbers(d, f, m, uris) && Declared(f.Uris(), id)
    ensures HasId(d, f, id) <==> Renumber(m, id) in Ids(d.elements)
  {
    hide Numbers, Agree;
    forall x | x in d.elements
      ensures x.nid == Renumber(m, id) <==> Agree(d.uris, x.nid, f.Uris(), id)
    {
      assert ElementDeclared(d.uris, x);
      AgreeIff(d, f, m, uris, x.nid, id);
    }
  }

  lemma DuplicatesIff(d: Document, f: File, m: map<nat, nat>, uris: seq<string>)
    requires WellDeclared(f) && DocumentDeclared(d) && Numbers(d, f, m, uris)
    ensures Duplicates(d.elements, RenumberElements(m, f.elements)) <==> IdClash(d, f)
  {
    hide Numbers, HasId, DistinctIds, DocumentDeclared, Ids;
    var incoming, base := RenumberElements(m, f.elements), Ids(d.elements);
    forall i | 0 <= i < |f.elements|
      ensures HasId(d, f, f.elements[i].nid) <==> incoming[i].nid in base
      ensures incoming[i].nid.ns == 0 <==> f.elements[i].nid.ns == 0
    {
      HasIdIff(d, f, m, uris, f.elements[i].nid);
      NumbersTranslates(d, f, m, uris);
      SameNamespaceZero(m, f, uris, f.elements[i]);
    }
    forall i, j | 0 <= i < j < |f.elements|
      ensures incoming[i].nid == incoming[j].nid <==> f.elements[i].nid == f.elements[j].nid
    {
      NumbersTranslates(d, f, m, uris);
      if incoming[i].nid == incoming[j].nid {
        RenumberedIdsDistinct(m, f, uris, i, j);
      }
    }
    InFileIff(d, f, incoming);
    UserIff(d, f, incoming);
  }

  lemma NumbersTranslates(d: Document, f: File, m: map<nat, nat>, uris: seq<string>)
    requires Numbers(d, f, m, uris)
    ensures Translates(m, f.Uris(), uris)
  {
  }

  lemma InFileIff(d: Document, f: File, incoming: seq<Element>)
    requires |incoming| == |f.elements|
    requires forall i :: 0 <= i < |incoming| ==> (HasId(d, f, f.elements[i].nid) <==> incoming[i].nid in Ids(d.elements))
    requires forall i, j :: 0 <= i < j < |incoming| ==>
      (incoming[i].nid == incoming[j].nid <==> f.elements[i].nid == f.elements[j].nid)
    ensures DuplicateInFile(Ids(d.elements), incoming) <==>
      exists i, j :: 0 <= i < j < |f.elements| && f.elements[i].nid == f.elements[j].nid && !HasId(d, f, f.elements[i].nid)
  {
    hide HasId, Ids;
    if i, j :| 0 <= i < j < |f.elements| && f.elements[i].nid == f.elements[j].nid && !HasId(d, f, f.elements[i].nid) {
      assert incoming[i].nid == incoming[j].nid;
    }
    if i, j :| 0 <= i < j < |incoming| && incoming[i].nid == incoming[j].nid && incoming[i].nid !in Ids(d.elements) {
      assert f.elements[i].nid == f.elements[j].nid;
    }
  }

  lemma UserIff(d: Document, f: File, incoming: seq<Element>)
    requires |incoming| == |f.elements|
    requires forall i :: 0 <= i < |incoming| ==> (HasId(d, f, f.elements[i].nid) <==> incoming[i].nid in Ids(d.elements))
    requires forall i :: 0 <= i < |incoming| ==> (incoming[i].nid.ns == 0 <==> f.elements[i].nid.ns == 0)
    ensures UserDuplicate(Ids(d.elements), incoming) <==>
      exists s :: s in f.elements && s.nid.ns != 0 && HasId(d, f, s.nid)
  {
    hide HasId, Ids;
    if UserDuplicate(Ids(d.elements), incoming) {
      var e :| e in incoming && e.nid in Ids(d.elements) && e.nid.ns != 0;
      var i :| 0 <= i < |incoming| && incoming[i] == e;
      assert f.elements[i] in f.elements;
    }
    if s :| s in f.elements && s.nid.ns != 0 && HasId(d, f, s.nid) {
      var i :| 0 <= i < |f.elements| && f.elements[i] == s;
      assert incoming[i] in incoming;
    }
  }

  lemma NumbersFile(d: Document, f: File, m: map<nat, nat>, e: Document)
    requires DocumentDeclared(e) && d.uris <= e.uris && Translates(m, f.Uris(), e.uris)
    requires forall u :: u in e.uris <==> u in d.uris || u in f.Uris()
    ensures Numbers(d, f, m, e.uris)
  {
    hide Translates;
  }

  // ----- The merger -----

  class Merger {
    var uris: seq<string>
    var reassign: map<nat, nat>
    var aliases: map<NodeId, NodeId>
    var elements: seq<Element>
    /** The value of the NamespaceArray variable of the server, node i=2255. */
    var namespaceArray: seq<string>

    ghost function Doc(): Document
      reads this
    {
      Document(uris, aliases, elements)
    }

    ghost predicate Valid()
      reads this
    {
      DocumentDeclared(Doc()) && 0 !in reassign && NamesNamespaces()
    }

    /** Entry k of the NamespaceArray is the URI of namespace k. */
    ghost predicate NamesNamespaces()
      reads this
    {
      && |namespaceArray| == |uris| + 1
      && forall k :: 0 <= k < |namespaceArray| ==> namespaceArray[k] == UriOf(uris, k)
    }

    /** The first file becomes the tree, before it is checked. */
    constructor (f: File)
      ensures Doc() == FirstDocument(f) && NamesNamespaces()
      ensures WellDeclared(f) && RefsDeclared(f) ==> Valid()
    {
      uris, reassign, aliases, elements := f.Uris(), map[], f.aliases, f.elements;
      namespaceArray := [UA_URI] + f.Uris();
      if WellDeclared(f) && RefsDeclared(f) {
        FirstRepresented(f);
      }
    }

    /** `__merge_ns_uris` and `__fill_namespace_array`. A file without NamespaceUris leaves the
        reassignment of the previous file in place. */
    method MergeNamespaces(f: File)
      requires Valid() && WellDeclared(f)
      modifies this`uris, this`reassign, this`namespaceArray
      ensures Valid() && old(uris) <= uris && Translates(reassign, f.Uris(), uris)
      ensures forall u :: u in uris <==> u in old(uris) || u in f.Uris()
    {
      if f.uris.Some? {
        var added;
        reassign, added := ComputeReassignment(uris, f.uris.value);
        uris := uris + added;
        DeclaredWithMore(old(Doc()), uris);
      }
      namespaceArray := [UA_URI] + uris;
    }

    /** `merge`, for a file after the first. Whatever the outcome, what the tree had keeps its meaning. */
    method MergeFile(f: File) returns (r: Outcome)
      requires Valid() && RefsDeclared(f)
      modifies this
      ensures Valid()
      ensures old(uris) <= uris && old(elements) <= elements
      ensures r == Undeclared <==> !WellDeclared(f)
      ensures r == Undeclared ==> Doc() == old(Doc())
      ensures r == AliasConflict <==> WellDeclared(f) && AliasClash(old(Doc()), f)
      ensures r == AliasConflict ==> aliases == old(aliases) && elements == old(elements)
      ensures r == DuplicateNodeIds <==> WellDeclared(f) && !AliasClash(old(Doc()), f) && IdClash(old(Doc()), f)
      ensures r != Merged ==> Refused(old(Doc()), f, r)
      ensures r == DuplicateNodeIds ==> elements == old(elements)
      ensures r == Merged ==> MergedInto(old(Doc()), f, Doc())
    {
      hide DocumentDeclared, Translates, Conflict, UserDuplicate, DuplicateInFile, DistinctIds, MergedInto, Numbers;
      hide AliasClash, IdClash;
      if !WellDeclared(f) {
        return Undeclared;
      }
      MergeNamespaces(f);
      ghost var d := old(Doc());
      NumbersFile(d, f, reassign, Document(uris, aliases, elements));
      ConflictIff(d, f, reassign, uris);
      DuplicatesIff(d, f, reassign, uris);
      var ok, merged := MergeAliases(aliases, RenumberAliases(reassign, f.aliases));
      aliases := merged;
      AliasesDeclared(d, f, reassign, Document(uris, merged, elements));
      if !ok {
        return AliasConflict;
      }
      var nodes;
      ok, nodes := SplitMergedNodes(elements, RenumberElements(reassign, f.elements));
      if !ok {
        return DuplicateNodeIds;
      }
      NewNodesKeyed(Ids(elements), RenumberElements(reassign, f.elements), nodes);
      elements := MergeNodes(elements, nodes);
      DistinctUris(Document(uris, merged, d.elements));
      MergeCorrect(d, f, reassign, nodes, Doc());
      MergedDeclared(d, f, Doc());
      return Merged;
    }
  }

  lemma DeclaredWithMore(d: Document, more: seq<string>)
    requires DocumentDeclared(d) && d.uris <= more && Distinct(more)
    ensures DocumentDeclared(d.(uris := more))
  {
    forall x | x in d.elements
      ensures ElementDeclared(more, x)
    {
      LaterDeclared(d.uris, more, x);
    }
  }

  lemma AliasesDeclared(d: Document, f: File, m: map<nat, nat>, e: Document)
    requires DocumentDeclared(d.(uris := e.uris)) && WellDeclared(f) && Translates(m, f.Uris(), e.uris)
    requires e.elements == d.elements
    requires e.aliases == d.aliases || e.aliases == RenumberAliases(m, f.aliases) + d.aliases
    ensures DocumentDeclared(e)
  {
    hide Translates;
    forall a | a in e.aliases
      ensures Declared(e.uris, e.aliases[a])
    {
      if a in d.aliases {
        assert e.aliases[a] == d.aliases[a];
        assert Declared(d.(uris := e.uris).uris, d.aliases[a]);
      } else {
        RenumberSame(m, f.Uris(), e.uris, f.aliases[a]);
      }
    }
  }

  lemma NewNodesKeyed(base: set<NodeId>, incoming: seq<Element>, nodes: map<NodeId, Element>)
    requires NewNodes(base, incoming, nodes)
    ensures nodes.Keys !! base && forall n :: n in nodes ==> nodes[n].nid == n
  {
    forall n | n in nodes
      ensures nodes[n].nid == n
    {
      var x :| x in incoming && x.nid == n;
    }
  }

  lemma DistinctUris(d: Document)
    requires DocumentDeclared(d)
    ensures Distinct(d.uris)
  {
  }

  /** `run_merge`: the files are merged one after another, until one is refused. `n` files are merged and
      `docs[i]` is the document after file i. */
  method MergeAll(files: seq<File>) returns (r: Outcome, m: Merger, n: nat, ghost docs: seq<Document>)
    requires files != [] && forall f :: f in files ==> RefsDeclared(f)
    ensures fresh(m) && n <= |files| && |docs| == n && (r == Merged <==> n == |files|)
    ensures n == 0 ==> r == Undeclared && !WellDeclared(files[0])
    ensures n > 0 ==> m.Valid() && WellDeclared(files[0]) && MergeRun(files[..n], docs)
    ensures 0 < n < |files| ==> Refused(docs[n - 1], files[n], r)
    ensures r == Merged ==> m.Doc() == docs[n - 1]
    ensures r == Merged ==> (forall f :: f in files ==> Represents(m.Doc(), f)) && Sourced(m.Doc(), files)
  {
    hide Represents, Sourced, MergedInto, RefsDeclared, WellDeclared, Refused;
    m := new Merger(files[0]);
    n, docs := 0, [];
    if !WellDeclared(files[0]) {
      r := Undeclared;
      return;
    }
    n, docs := 1, [m.Doc()];
    while n < |files|
      invariant 0 < n <= |files| && |docs| == n && fresh(m) && m.Valid()
      invariant MergeRun(files[..n], docs) && m.Doc() == docs[n - 1]
    {
      r := m.MergeFile(files[n]);
      if r != Merged {
        return;
      }
      docs := docs + [m.Doc()];
      MergeRunMore(files, docs, n);
      n := n + 1;
    }
    r := Merged;
    assert files[..|files|] == files;
    RunKeepsMeaning(files, docs, |files| - 1);
    forall f | f in files
      ensures Represents(m.Doc(), f)
    {
      var i :| 0 <= i < |files| && files[i] == f;
    }
  }

  lemma MergeRunMore(files: seq<File>, docs: seq<Document>, i: nat)
    requires 0 < i < |files| && |docs| == i + 1
    requires MergeRun(files[..i], docs[..i]) && MergedInto(docs[i - 1], files[i], docs[i])
    ensures MergeRun(files[..i + 1], docs)
  {
    hide MergedInto;
    forall j | 0 < j < i + 1
      ensures MergedInto(docs[j - 1], files[..i + 1][j], docs[j])
    {
      if j < i {
        assert MergedInto(docs[..i][j - 1], files[..i][j], docs[..i][j]);
      }
    }
  }
}

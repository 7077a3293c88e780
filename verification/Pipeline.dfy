/** `run_merge` after the merge itself: sanitize, the requested removals, and the removal of
    backward references.
 */
module Pipeline {
  import opened AddressSpace
  import opened Subtree
  import opened Sanitize
  import opened BackwardRefs
  import opened Unused
  import opened Merge

  /** The start of `sanitize`: the list of elements becomes an index unless a NodeId is found twice. */
  method IndexNodes(elements: seq<Element>) returns (ok: bool, nodes: Graph)
    ensures ok <==> DistinctIds(elements)
    ensures nodes.Keys == Ids(elements)
    ensures ok ==> forall e :: e in elements ==> nodes[e.nid] == e.node
  {
    hide DistinctIds;
    ok, nodes := true, map[];
    NoElements();
    for i := 0 to |elements|
      invariant nodes.Keys == Ids(elements[..i])
      invariant ok <==> DistinctIds(elements[..i])
      invariant ok ==> forall e :: e in elements[..i] ==> nodes[e.nid] == e.node
    {
      var e := elements[i];
      assert elements[..i + 1] == elements[..i] + [e];
      IdsMore(elements[..i], e);
      DistinctIdsMore(elements[..i], e);
      if e.nid in nodes {
        ok := false;
      }
      nodes := nodes[e.nid := e.node];
    }
    assert elements[..|elements|] == elements;
  }

  datatype Step =
    | RemoveSubtreeStep(root: NodeId)
    | RemoveOrphansStep
    | RemoveUnusedStep(retainNs0: bool, retainTypes: set<NodeId>)

  /** What a step may take away from the tree, and what it must take away. */
  ghost predicate Scope(g: Graph, aliases: map<NodeId, NodeId>, hier: set<NodeId>, step: Step, h: Graph) {
    Pruning(g, h) &&
    match step
    case RemoveSubtreeStep(root) =>
      exists removed :: SubtreeRemoval(g, hier, root, removed) && h == Prune(g, removed)
    case RemoveOrphansStep =>
      NoOrphans(h, hier) && LostBelow(g, h, hier, Orphans(g, hier) - RetainedOrphans())
    case RemoveUnusedStep(retainNs0, retainTypes) =>
      exists o: Options, stages, records ::
        && o.retainNs0 == retainNs0 && o.retainTypes == retainTypes
        && UnusedStages(hier, aliases, o, stages, records)
        && stages[0] == g && stages[|stages| - 1] == h
  }

  method Apply(t: Tree, hier: set<NodeId>, step: Step)
    requires Reciprocal(t.nodes)
    modifies t`nodes
    ensures Pruning(old(t.nodes), t.nodes) && Reciprocal(t.nodes) && KeepsParents(old(t.nodes), t.nodes, hier)
    ensures Scope(old(t.nodes), t.aliases, hier, step, t.nodes)
  {
    hide Reciprocal, SubtreeRemoval, NoOrphans, LostBelow, UnusedStages, Pruning;
    match step {
      case RemoveSubtreeStep(root) =>
        ghost var removed := RemoveSubtree(t, hier, root);
      case RemoveOrphansStep =>
        RemoveOrphans(t, hier);
      case RemoveUnusedStep(retainNs0, retainTypes) =>
        var o, stages, records := RemoveUnused(t, hier, retainNs0, retainTypes);
        UnusedStagesLength(hier, t.aliases, o, stages, records);
    }
    PruningKeepsReciprocal(old(t.nodes), t.nodes);
  }

  lemma UnusedStagesLength(hier: set<NodeId>, aliases: map<NodeId, NodeId>, o: Options,
                           stages: seq<Graph>, records: seq<seq<Removal>>)
    requires UnusedStages(hier, aliases, o, stages, records)
    ensures |stages| == 5
  {
  }

  lemma OrphansGone(g: Graph, aliases: map<NodeId, NodeId>, hier: set<NodeId>, h: Graph)
    requires Scope(g, aliases, hier, RemoveOrphansStep, h)
    ensures NoOrphans(h, hier)
  {
  }

  /** Any sequence of removals of a reciprocal tree: references stay reciprocal, none leads to a
      removed node, nobody loses its last parent, and orphans never come back. */
  method ApplyAll(t: Tree, hier: set<NodeId>, steps: seq<Step>) returns (ghost stages: seq<Graph>)
    requires Reciprocal(t.nodes)
    modifies t`nodes
    ensures Pruning(old(t.nodes), t.nodes) && Reciprocal(t.nodes) && KeepsParents(old(t.nodes), t.nodes, hier)
    ensures forall n, r :: n in t.nodes && r in t.nodes[n].refs ==> r.target !in old(t.nodes).Keys - t.nodes.Keys
    ensures RemoveOrphansStep in steps ==> NoOrphans(t.nodes, hier)
    ensures |stages| == |steps| + 1 && stages[0] == old(t.nodes) && stages[|steps|] == t.nodes
    ensures forall i :: 0 <= i < |steps| ==> Scope(stages[i], t.aliases, hier, steps[i], stages[i + 1])
  {
    hide Reciprocal, NoOrphans, Pruning, Scope;
    stages := [t.nodes];
    PruningReflexive(t.nodes);
    for i := 0 to |steps|
      invariant Pruning(old(t.nodes), t.nodes) && Reciprocal(t.nodes) && KeepsParents(old(t.nodes), t.nodes, hier)
      invariant RemoveOrphansStep in steps[..i] ==> NoOrphans(t.nodes, hier)
      invariant |stages| == i + 1 && stages[0] == old(t.nodes) && stages[i] == t.nodes
      invariant forall j :: 0 <= j < i ==> Scope(stages[j], t.aliases, hier, steps[j], stages[j + 1])
    {
      ghost var g := t.nodes;
      Apply(t, hier, steps[i]);
      PruningTransitive(old(t.nodes), g, t.nodes);
      KeepsParentsTransitive(old(t.nodes), g, t.nodes, hier);
      if NoOrphans(g, hier) {
        NoOrphansKept(g, t.nodes, hier);
      }
      if steps[i].RemoveOrphansStep? {
        OrphansGone(g, t.aliases, hier, t.nodes);
      }
      stages := stages + [t.nodes];
    }
    PruningKeepsReciprocal(old(t.nodes), t.nodes);
  }

  datatype Arguments = Arguments(
    removeSubtrees: seq<NodeId>,
    removeOrphans: bool,
    removeUnused: bool,
    retainNs0: bool,
    retainTypes: set<NodeId>,
    removeBackwardRefs: bool,
    retainNodes: set<NodeId>)

  /** The removals that the command line asks for, in the order in which they are applied. */
  function Steps(args: Arguments): seq<Step> {
    seq(|args.removeSubtrees|, i requires 0 <= i < |args.removeSubtrees| => RemoveSubtreeStep(args.removeSubtrees[i]))
    + (if args.removeOrphans || args.removeUnused then [RemoveOrphansStep] else [])
    + (if args.removeUnused then [RemoveUnusedStep(args.retainNs0, args.retainTypes)] else [])
  }

  /** From the tree `start` to the tree `final`: `clean` is the sanitized tree, `stages` are the trees around each
      removal. */
  ghost predicate RunsTo(start: Graph, aliases: map<NodeId, NodeId>, hier: set<NodeId>, args: Arguments,
                         clean: Graph, stages: seq<Graph>, retain: set<NodeId>, final: Graph)
  {
    && Sanitized(start, aliases, clean)
    && |stages| == |Steps(args)| + 1 && stages[0] == clean
    && (forall i :: 0 <= i < |Steps(args)| ==> Scope(stages[i], aliases, hier, Steps(args)[i], stages[i + 1]))
    && var pruned := stages[|Steps(args)|];
       && Pruning(clean, pruned) && Reciprocal(pruned) && KeepsParents(clean, pruned, hier)
       && (AliasesAreNames(start, aliases) ==> Resolved(aliases, pruned))
       && (args.removeOrphans || args.removeUnused ==> NoOrphans(pruned, hier))
       && final == (if args.removeBackwardRefs then DropBackward(pruned, retain) else pruned)
       && (args.removeBackwardRefs ==> RetainValues(aliases, args.retainNodes + {HAS_SUBTYPE}, retain))
  }

  /** The part of `run_merge` after the merge, on an indexed tree. */
  method Run(t: Tree, hier: set<NodeId>, args: Arguments)
    returns (ghost clean: Graph, ghost stages: seq<Graph>, retain: set<NodeId>)
    requires t.aliases.Keys !! t.nodes.Keys
    modifies t`nodes
    ensures RunsTo(old(t.nodes), t.aliases, hier, args, clean, stages, retain, t.nodes)
  {
    hide Sanitized, Reciprocal, NoOrphans, Scope, RetainValues, AliasesAreNames;
    SanitizeTree(t);
    clean := t.nodes;
    SanitizedReciprocal(old(t.nodes), t.aliases, clean);
    stages := ApplyAll(t, hier, Steps(args));
    if AliasesAreNames(old(t.nodes), t.aliases) {
      SanitizedTargets(old(t.nodes), t.aliases, clean);
      PruningMembers(clean, t.nodes);
    }
    retain := args.retainNodes;
    if args.removeBackwardRefs {
      retain := RemoveBackwardRefs(t, args.retainNodes);
    }
  }

  // ----- What was asked for is done -----

  lemma RootRemoved(g: Graph, aliases: map<NodeId, NodeId>, hier: set<NodeId>, root: NodeId, h: Graph)
    requires Scope(g, aliases, hier, RemoveSubtreeStep(root), h)
    ensures root !in h
  {
    hide Pruning;
    var removed :| SubtreeRemoval(g, hier, root, removed) && h == Prune(g, removed);
  }

  /** A node that is gone after step i is gone at the end. */
  lemma {:induction false} StaysGone(
    aliases: map<NodeId, NodeId>, hier: set<NodeId>, steps: seq<Step>, stages: seq<Graph>, i: nat, j: nat, x: NodeId)
    requires |stages| == |steps| + 1 && i <= j <= |steps| && x !in stages[i]
    requires forall k :: 0 <= k < |steps| ==> Scope(stages[k], aliases, hier, steps[k], stages[k + 1])
    ensures x !in stages[j]
    decreases j
  {
    hide Scope;
    if i < j {
      StaysGone(aliases, hier, steps, stages, i, j - 1, x);
      ScopeShrinks(stages[j - 1], aliases, hier, steps[j - 1], stages[j]);
    }
  }

  lemma ScopeShrinks(g: Graph, aliases: map<NodeId, NodeId>, hier: set<NodeId>, step: Step, h: Graph)
    requires Scope(g, aliases, hier, step, h)
    ensures h.Keys <= g.Keys
  {
    hide SubtreeRemoval, NoOrphans, LostBelow, UnusedStages;
  }

  /** Forward references, and inverse ones of HasSubtype and of the types to retain, are not dropped. */
  lemma KeptToTheEnd(start: Graph, aliases: map<NodeId, NodeId>, hier: set<NodeId>, args: Arguments,
                     clean: Graph, stages: seq<Graph>, retain: set<NodeId>, final: Graph, n: NodeId, r: Ref)
    requires RunsTo(start, aliases, hier, args, clean, stages, retain, final)
    requires n in stages[|stages| - 1] && r in stages[|stages| - 1][n].refs
    requires r.forward || r.refType == HAS_SUBTYPE || r.refType in args.retainNodes
    ensures n in final && r in final[n].refs
  {
    hide Scope, Sanitized, Reciprocal, NoOrphans, RetainValues, KeepsParents, Resolved, Pruning, DropBackward;
    if args.removeBackwardRefs {
      DropBackwardKeeps(stages[|stages| - 1], aliases, args.retainNodes + {HAS_SUBTYPE}, retain, n, r);
    }
  }

  lemma FinalKeys(start: Graph, aliases: map<NodeId, NodeId>, hier: set<NodeId>, args: Arguments,
                  clean: Graph, stages: seq<Graph>, retain: set<NodeId>, final: Graph)
    requires RunsTo(start, aliases, hier, args, clean, stages, retain, final)
    ensures final.Keys == stages[|stages| - 1].Keys
  {
    hide Scope, Sanitized, Reciprocal, NoOrphans, RetainValues, KeepsParents, Resolved, Pruning;
  }

  /** At the end every root that was named is gone; the removal of unused types, if asked for, came last, with the given
      types to retain, on a tree without orphans; and without any request the tree is the sanitized one. */
  lemma AskedIsDone(start: Graph, aliases: map<NodeId, NodeId>, hier: set<NodeId>, args: Arguments,
                    clean: Graph, stages: seq<Graph>, retain: set<NodeId>, final: Graph)
    requires RunsTo(start, aliases, hier, args, clean, stages, retain, final)
    ensures forall root :: root in args.removeSubtrees ==> root !in final
    ensures args.removeUnused ==>
      && |stages| > 1 && NoOrphans(stages[|stages| - 2], hier)
      && Scope(stages[|stages| - 2], aliases, hier, RemoveUnusedStep(args.retainNs0, args.retainTypes), stages[|stages| - 1])
    ensures args.removeSubtrees == [] && !args.removeOrphans && !args.removeUnused && !args.removeBackwardRefs ==> final == clean
  {
    hide Scope, Sanitized, Reciprocal, NoOrphans, RetainValues, KeepsParents, Resolved, Pruning, DropBackward;
    var steps := Steps(args);
    FinalKeys(start, aliases, hier, args, clean, stages, retain, final);
    forall root | root in args.removeSubtrees
      ensures root !in final
    {
      var i :| 0 <= i < |args.removeSubtrees| && args.removeSubtrees[i] == root;
      assert steps[i] == RemoveSubtreeStep(root);
      RootRemoved(stages[i], aliases, hier, root, stages[i + 1]);
      StaysGone(aliases, hier, steps, stages, i + 1, |steps|, root);
    }
    if args.removeUnused {
      var k := |args.removeSubtrees|;
      assert |steps| == k + 2 && steps[k] == RemoveOrphansStep && steps[k + 1] == RemoveUnusedStep(args.retainNs0, args.retainTypes);
      OrphansGone(stages[k], aliases, hier, stages[k + 1]);
    }
  }

  // ----- From files to output -----

  /** The text of an id has an equals sign, as in `i=85`; the name of an alias has none. */
  ghost predicate NamesApart(aliases: map<NodeId, NodeId>, elements: seq<Element>) {
    && (forall a :: a in aliases ==> '=' !in a.text)
    && (forall e :: e in elements ==> '=' in e.nid.text)
  }

  lemma {:induction false} AliasesComeFromFiles(files: seq<File>, docs: seq<Document>, n: nat)
    requires MergeRun(files, docs) && n < |files| && forall f :: f in files ==> NamesApart(f.aliases, f.elements)
    ensures forall a :: a in docs[n].aliases ==> '=' !in a.text
  {
    hide MergedInto;
    if n > 0 {
      AliasesComeFromFiles(files, docs, n - 1);
      assert MergedInto(docs[n - 1], files[n], docs[n]);
      MergedAliases(docs[n - 1], files[n], docs[n]);
    }
  }

  lemma MergedAliases(d: Document, f: File, e: Document)
    requires MergedInto(d, f, e)
    ensures e.aliases.Keys == d.aliases.Keys + f.aliases.Keys && DistinctIds(e.elements)
  {
  }

  /** Aliases and ids stay apart when files are merged. */
  lemma MergedNamesApart(files: seq<File>, docs: seq<Document>)
    requires MergeRun(files, docs) && Sourced(docs[|files| - 1], files)
    requires forall f :: f in files ==> NamesApart(f.aliases, f.elements)
    ensures NamesApart(docs[|files| - 1].aliases, docs[|files| - 1].elements)
  {
    hide MergedInto;
    AliasesComeFromFiles(files, docs, |files| - 1);
    var d := docs[|files| - 1];
    forall x | x in d.elements
      ensures '=' in x.nid.text
    {
      var f, s :| f in files && s in f.elements && SameElement(d.uris, x, f.Uris(), s);
      SameText(d.uris, x, f.Uris(), s);
    }
  }

  lemma SameText(uris: seq<string>, x: Element, fileUris: seq<string>, s: Element)
    requires SameElement(uris, x, fileUris, s)
    ensures x.nid.text == s.nid.text
  {
  }

  /** What `run_merge` did with the files: one of them was refused, the merged tree has an id twice, or the tree was
      sanitized and reduced as asked. */
  datatype Report = RefusedFile(number: nat, reason: Outcome) | TwiceTheSameId | Written

  /** `run_merge`, from the files to the tree that is written. */
  method RunMerge(files: seq<File>, hier: set<NodeId>, args: Arguments)
    returns (report: Report, t: Tree, ghost doc: Document, ghost start: Graph, ghost clean: Graph, ghost stages: seq<Graph>,
             ghost retain: set<NodeId>)
    requires files != [] && forall f :: f in files ==> RefsDeclared(f) && NamesApart(f.aliases, f.elements)
    ensures report.RefusedFile? ==>
      && report.number < |files|
      && (report.number == 0 ==> report.reason == Undeclared && !WellDeclared(files[0]))
      && (report.number > 0 ==> exists docs ::
            MergeRun(files[..report.number], docs) && Refused(docs[report.number - 1], files[report.number], report.reason))
    ensures !report.RefusedFile? ==> (forall f :: f in files ==> Represents(doc, f)) && Sourced(doc, files)
    ensures report.TwiceTheSameId? ==> !DistinctIds(doc.elements) && |files| == 1
    ensures report.Written? ==>
      && DistinctIds(doc.elements) && start.Keys == Ids(doc.elements)
      && (forall e :: e in doc.elements ==> start[e.nid] == e.node)
      && t.aliases == doc.aliases && RunsTo(start, t.aliases, hier, args, clean, stages, retain, t.nodes)
  {
    hide Represents, Sourced, MergedInto, RefsDeclared, WellDeclared, Refused, RunsTo, NamesApart, DistinctIds;
    start, clean, stages, retain := map[], map[], [], {};
    t := new Tree(map[], map[]);
    var r, m, n, docs := MergeAll(files);
    doc := m.Doc();
    if r != Merged {
      report := RefusedFile(n, r);
      return;
    }
    assert files[..n] == files;
    var ok, nodes := IndexNodes(m.elements);
    if !ok {
      report := TwiceTheSameId;
      LaterIdsDistinct(files, docs);
      return;
    }
    MergedNamesApart(files, docs);
    NamesDisjoint(m.aliases, m.elements);
    t := new Tree(nodes, m.aliases);
    start := nodes;
    clean, stages, retain := Run(t, hier, args);
    report := Written;
  }

  lemma LaterIdsDistinct(files: seq<File>, docs: seq<Document>)
    requires MergeRun(files, docs)
    ensures |files| > 1 ==> DistinctIds(docs[|files| - 1].elements)
  {
    hide MergedInto;
    var n := |files| - 1;
    if n > 0 {
      assert MergedInto(docs[n - 1], files[n], docs[n]);
      MergedAliases(docs[n - 1], files[n], docs[n]);
    }
  }

  lemma NamesDisjoint(aliases: map<NodeId, NodeId>, elements: seq<Element>)
    requires NamesApart(aliases, elements)
    ensures aliases.Keys !! Ids(elements)
  {
  }
}

/** Cycle-safe removal of a hierarchical subtree: `_rec_compute_subtree`,
    `_rec_bf_remove_subtree` and `remove_subtree`. The set `hier` of hierarchical
    reference types is a parameter everywhere.
 */
module Subtree {
  import opened AddressSpace

  function Targets(refs: seq<Ref>, hier: set<NodeId>, forward: bool): set<NodeId> {
    set r | r in refs && r.forward == forward && r.refType in hier :: r.target
  }

  /** `_iter_hierarchical(n)`; an unknown node has no child. */
  function Children(g: Graph, hier: set<NodeId>, n: NodeId): set<NodeId> {
    if n in g then Targets(g[n].refs, hier, true) else {}
  }

  /** `_iter_hierarchical(n, downwards=False)` */
  function Parents(g: Graph, hier: set<NodeId>, n: NodeId): set<NodeId> {
    if n in g then Targets(g[n].refs, hier, false) else {}
  }

  ghost predicate IsPath(g: Graph, hier: set<NodeId>, p: seq<NodeId>) {
    p != [] && forall i :: 0 < i < |p| ==> p[i] in Children(g, hier, p[i - 1])
  }

  ghost predicate Reachable(g: Graph, hier: set<NodeId>, a: NodeId, b: NodeId) {
    exists p :: IsPath(g, hier, p) && p[0] == a && p[|p| - 1] == b
  }

  lemma ReachableSelf(g: Graph, hier: set<NodeId>, a: NodeId)
    ensures Reachable(g, hier, a, a)
  {
    assert IsPath(g, hier, [a]);
  }

  lemma ReachableStep(g: Graph, hier: set<NodeId>, a: NodeId, b: NodeId, c: NodeId)
    requires Reachable(g, hier, a, b) && c in Children(g, hier, b)
    ensures Reachable(g, hier, a, c)
  {
    var p :| IsPath(g, hier, p) && p[0] == a && p[|p| - 1] == b;
    assert IsPath(g, hier, p + [c]);
  }

  lemma {:induction false} PathStaysInside(g: Graph, hier: set<NodeId>, p: seq<NodeId>, inside: set<NodeId>)
    requires IsPath(g, hier, p) && p[0] in inside
    requires forall x :: x in inside ==> Children(g, hier, x) <= inside
    ensures p[|p| - 1] in inside
    decreases |p|
  {
    if |p| > 1 {
      PathStaysInside(g, hier, p[..|p| - 1], inside);
    }
  }

  // ----- Computing the subtree -----

  /** All ids a traversal can meet. */
  ghost function Universe(g: Graph): set<NodeId> {
    g.Keys + set n, r | n in g && r in g[n].refs :: r.target
  }

  lemma ChildrenInUniverse(g: Graph, hier: set<NodeId>, n: NodeId)
    ensures Children(g, hier, n) <= Universe(g)
  {
  }

  /** The entry of `x` is finished: it lists all its children, and they all have entries. */
  ghost predicate Explored(g: Graph, hier: set<NodeId>, subtree: map<NodeId, set<NodeId>>, x: NodeId) {
    x in subtree && subtree[x] == Children(g, hier, x) && subtree[x] <= subtree.Keys
  }

  /** A call on `root` turned the table `before` into `subtree`: old entries other than the
      one of `root` are untouched, new entries are reachable from `root` and finished. */
  ghost predicate Extends(g: Graph, hier: set<NodeId>, root: NodeId,
                          before: map<NodeId, set<NodeId>>, subtree: map<NodeId, set<NodeId>>)
  {
    && before.Keys <= subtree.Keys <= Universe(g)
    && (forall x :: x in before && x != root ==> subtree[x] == before[x])
    && (forall x :: x in subtree && x !in before ==> Reachable(g, hier, root, x))
    && (forall x :: x in subtree && x !in before && x != root ==> Explored(g, hier, subtree, x))
  }

  lemma ExtendsStart(g: Graph, hier: set<NodeId>, root: NodeId, before: map<NodeId, set<NodeId>>)
    requires before.Keys <= Universe(g)
    ensures Extends(g, hier, root, before, before)
    ensures root in g && root !in before ==> Extends(g, hier, root, before, before[root := {}])
  {
    ReachableSelf(g, hier, root);
  }

  lemma ExtendsWithKnownChild(g: Graph, hier: set<NodeId>, root: NodeId, child: NodeId,
                              before: map<NodeId, set<NodeId>>, subtree: map<NodeId, set<NodeId>>)
    requires Extends(g, hier, root, before, subtree) && root in subtree
    ensures Extends(g, hier, root, before, subtree[root := subtree[root] + {child}])
  {
    var s := subtree[root := subtree[root] + {child}];
    assert s.Keys == subtree.Keys;
    forall x | x in s && x !in before && x != root
      ensures Explored(g, hier, s, x)
    {
      assert Explored(g, hier, subtree, x);
    }
  }

  lemma ExtendsWithNewChild(g: Graph, hier: set<NodeId>, root: NodeId, child: NodeId,
                            before: map<NodeId, set<NodeId>>, s: map<NodeId, set<NodeId>>,
                            subtree: map<NodeId, set<NodeId>>)
    requires Extends(g, hier, root, before, s) && root in s
    requires child in Children(g, hier, root) && child !in s
    requires Extends(g, hier, child, s[child := {}], subtree)
    requires child in g ==> Explored(g, hier, subtree, child)
    requires child !in g ==> subtree == s[child := {}]
    ensures Extends(g, hier, root, before, subtree) && subtree[root] == s[root]
  {
    var entry := s[child := {}];
    assert entry.Keys == s.Keys + {child};
    ReachableSelf(g, hier, root);
    ReachableStep(g, hier, root, root, child);
    forall x | x in subtree && x !in before
      ensures Reachable(g, hier, root, x)
      ensures x != root ==> Explored(g, hier, subtree, x)
    {
      if x in s {
        assert x != root ==> Explored(g, hier, s, x);
      } else if x != child {
        ReachableThrough(g, hier, root, child, x);
      }
    }
  }

  method RecComputeSubtree(g: Graph, hier: set<NodeId>, root: NodeId, before: map<NodeId, set<NodeId>>)
    returns (subtree: map<NodeId, set<NodeId>>)
    requires before.Keys <= Universe(g)
    requires root in before ==> before[root] == {}
    ensures before.Keys <= subtree.Keys <= Universe(g)
    ensures Extends(g, hier, root, before, subtree)
    ensures root in g ==> Explored(g, hier, subtree, root)
    ensures root !in g ==> subtree == before
    decreases Universe(g) - (before.Keys + {root})
  {
    hide Extends, Reachable;
    subtree := before;
    ExtendsStart(g, hier, root, before);
    if root !in g {
      return;
    }
    if root !in subtree {
      subtree := subtree[root := {}];
    }
    var refs := g[root].refs;
    for i := 0 to |refs|
      invariant before.Keys + {root} <= subtree.Keys <= Universe(g)
      invariant Extends(g, hier, root, before, subtree)
      invariant subtree[root] == Targets(refs[..i], hier, true) && subtree[root] <= subtree.Keys
    {
      var r := refs[i];
      assert refs[..i + 1] == refs[..i] + [r];
      if r.forward && r.refType in hier {
        var child := r.target;
        assert child in Children(g, hier, root);
        ChildrenInUniverse(g, hier, root);
        ExtendsWithKnownChild(g, hier, root, child, before, subtree);
        subtree := subtree[root := subtree[root] + {child}];
        if child !in subtree {
          ghost var s := subtree;
          subtree := subtree[child := {}];
          subtree := RecComputeSubtree(g, hier, child, subtree);
          ExtendsWithNewChild(g, hier, root, child, before, s, subtree);
        }
      }
    }
    assert refs[..|refs|] == refs;
  }

  lemma ReachableThrough(g: Graph, hier: set<NodeId>, a: NodeId, b: NodeId, c: NodeId)
    requires b in Children(g, hier, a) && Reachable(g, hier, b, c)
    ensures Reachable(g, hier, a, c)
  {
    var p :| IsPath(g, hier, p) && p[0] == b && p[|p| - 1] == c;
    var q := [a] + p;
    forall i | 0 < i < |q|
      ensures q[i] in Children(g, hier, q[i - 1])
    {
      if i > 1 {
        assert p[i - 1] in Children(g, hier, p[i - 2]);
      }
    }
    assert IsPath(g, hier, q);
  }

  /** The subtree of an existing root: exactly the reachable ids, each with its exact set of children. */
  ghost predicate IsSubtree(g: Graph, hier: set<NodeId>, root: NodeId, subtree: map<NodeId, set<NodeId>>) {
    if root in g then
      && (forall x :: x in subtree <==> Reachable(g, hier, root, x))
      && (forall x :: x in subtree ==> subtree[x] == Children(g, hier, x))
    else
      subtree == map[]
  }

  method ComputeSubtree(g: Graph, hier: set<NodeId>, root: NodeId) returns (subtree: map<NodeId, set<NodeId>>)
    ensures IsSubtree(g, hier, root, subtree)
  {
    subtree := RecComputeSubtree(g, hier, root, map[]);
    if root in g {
      forall x | Reachable(g, hier, root, x)
        ensures x in subtree
      {
        var p :| IsPath(g, hier, p) && p[0] == root && p[|p| - 1] == x;
        PathStaysInside(g, hier, p, subtree.Keys);
      }
    }
  }

  // ----- Removing the subtree -----

  /** A line of descent down to `x` that starts outside the subtree of `root` and avoids `root`. */
  ghost predicate IsLineage(g: Graph, hier: set<NodeId>, root: NodeId, line: seq<NodeId>, x: NodeId) {
    && line != [] && line[|line| - 1] == x && root !in line
    && (exists p :: p in Parents(g, hier, line[0]) && !Reachable(g, hier, root, p))
    && (forall i :: 0 < i < |line| ==> line[i - 1] in Parents(g, hier, line[i]))
  }

  ghost predicate OtherAncestry(g: Graph, hier: set<NodeId>, root: NodeId, x: NodeId) {
    exists line :: IsLineage(g, hier, root, line, x)
  }

  lemma OtherAncestryDirect(g: Graph, hier: set<NodeId>, root: NodeId, x: NodeId, p: NodeId)
    requires x != root && p in Parents(g, hier, x) && !Reachable(g, hier, root, p)
    ensures OtherAncestry(g, hier, root, x)
  {
    assert IsLineage(g, hier, root, [x], x);
  }

  lemma OtherAncestryInherited(g: Graph, hier: set<NodeId>, root: NodeId, x: NodeId, p: NodeId)
    requires x != root && p in Parents(g, hier, x) && OtherAncestry(g, hier, root, p)
    ensures OtherAncestry(g, hier, root, x)
  {
    var line :| IsLineage(g, hier, root, line, p);
    assert IsLineage(g, hier, root, line + [x], x);
  }

  /** What a removal started at `root` in graph `g` may remove. */
  ghost predicate SubtreeRemoval(g: Graph, hier: set<NodeId>, root: NodeId, removed: set<NodeId>) {
    && removed <= g.Keys
    && (root in g <==> root in removed)
    && (root !in g ==> removed == {})
    // only reachable nodes are removed
    && (forall x :: x in removed ==> Reachable(g, hier, root, x))
    // except the root, no removed node has a parent that is not reachable from the root
    && (forall x, p :: x in removed && x != root && p in Parents(g, hier, x) ==> Reachable(g, hier, root, p))
    // a child of a removed node that is not removed has another ancestry, and does not become an orphan
    && (forall x, c :: x in removed && c in Children(g, hier, x) && c in g ==>
          c in removed || (OtherAncestry(g, hier, root, c) && exists p :: p in Parents(g, hier, c) && p !in removed))
  }

  /** The state between two levels of the removal: `subtree` is what is left of the table `full`
      computed at the start, `pending` are the ids to be looked at in the next level. */
  ghost predicate Level(g: Graph, hier: set<NodeId>, root: NodeId, full: map<NodeId, set<NodeId>>,
                        subtree: map<NodeId, set<NodeId>>, removed: set<NodeId>, pending: set<NodeId>)
  {
    && root in g
    && IsSubtree(g, hier, root, full)
    && removed <= subtree.Keys <= full.Keys
    && removed <= g.Keys
    && (forall x :: x in subtree ==> subtree[x] == full[x])
    && root in subtree
    // a retained node has a parent that is not, and never will be, removed
    && (forall x :: x in full && x !in subtree ==>
          OtherAncestry(g, hier, root, x) && exists p :: p in Parents(g, hier, x) && p !in subtree)
    && (forall x, p :: x in removed && x != root && p in Parents(g, hier, x) ==> p in full)
    && (forall x, c :: x in removed && c in full[x] && c in g ==> c in removed || c !in subtree || c in pending)
  }

  /** An id that left the table or the tree needs no further look. */
  lemma SkipStep(g: Graph, hier: set<NodeId>, root: NodeId, full: map<NodeId, set<NodeId>>,
                 subtree: map<NodeId, set<NodeId>>, removed: set<NodeId>, todo: set<NodeId>, children: set<NodeId>,
                 nid: NodeId)
    requires Level(g, hier, root, full, subtree, removed, todo + children)
    requires nid !in subtree || nid !in g || nid in removed
    ensures Level(g, hier, root, full, subtree, removed, todo - {nid} + children)
  {
  }

  /** A node with a parent outside the table leaves the table and stays in the tree. */
  lemma RetainStep(g: Graph, hier: set<NodeId>, root: NodeId, full: map<NodeId, set<NodeId>>,
                   subtree: map<NodeId, set<NodeId>>, removed: set<NodeId>, todo: set<NodeId>, children: set<NodeId>,
                   nid: NodeId, outer: NodeId)
    requires Level(g, hier, root, full, subtree, removed, todo + children)
    requires nid in subtree && nid !in removed && nid != root
    requires outer in Parents(g, hier, nid) && outer !in subtree
    ensures Level(g, hier, root, full, subtree - {nid}, removed, todo - {nid} + children)
  {
    hide OtherAncestry, Reachable;
    var s := subtree - {nid};
    if outer in full {
      OtherAncestryInherited(g, hier, root, nid, outer);
    } else {
      OtherAncestryDirect(g, hier, root, nid, outer);
    }
    forall x | x in full && x !in s
      ensures exists p :: p in Parents(g, hier, x) && p !in s
    {
      if x == nid {
        assert outer !in s;
      } else {
        var p :| p in Parents(g, hier, x) && p !in subtree;
        assert p !in s;
      }
    }
  }

  /** A node whose parents are all in the table, or the root, is removed and its children are queued. */
  lemma RemoveStep(g: Graph, hier: set<NodeId>, root: NodeId, full: map<NodeId, set<NodeId>>,
                   subtree: map<NodeId, set<NodeId>>, removed: set<NodeId>, todo: set<NodeId>, children: set<NodeId>,
                   nid: NodeId)
    requires Level(g, hier, root, full, subtree, removed, todo + children)
    requires nid in subtree && nid in g
    requires nid == root || Parents(g, hier, nid) <= subtree.Keys
    ensures Level(g, hier, root, full, subtree, removed + {nid}, todo - {nid} + (children + subtree[nid]))
  {
    hide OtherAncestry, Reachable;
  }

  lemma RemovedStayInTable(g: Graph, hier: set<NodeId>, root: NodeId, full: map<NodeId, set<NodeId>>,
                           subtree: map<NodeId, set<NodeId>>, removed: set<NodeId>, pending: set<NodeId>)
    requires Level(g, hier, root, full, subtree, removed, pending)
    ensures removed <= subtree.Keys && removed <= g.Keys
  {
  }

  /** When nothing is pending the removal is complete. */
  lemma LevelsDone(g: Graph, hier: set<NodeId>, root: NodeId, full: map<NodeId, set<NodeId>>,
                   subtree: map<NodeId, set<NodeId>>, removed: set<NodeId>)
    requires Level(g, hier, root, full, subtree, removed, {}) && root in removed
    ensures SubtreeRemoval(g, hier, root, removed)
  {
    hide OtherAncestry, Reachable;
    forall x, c | x in removed && c in Children(g, hier, x) && c in g && c !in removed
      ensures OtherAncestry(g, hier, root, c)
      ensures exists p :: p in Parents(g, hier, c) && p !in removed
    {
      ReachableStep(g, hier, root, x, c);
      var p :| p in Parents(g, hier, c) && p !in subtree;
      assert p !in removed;
    }
  }

  lemma ParentsOfPruned(g: Graph, hier: set<NodeId>, removed: set<NodeId>, n: NodeId)
    requires n in g && n !in removed
    ensures Parents(Prune(g, removed), hier, n) == Parents(g, hier, n) - removed
  {
    PruneMembers(g, removed);
    assert Parents(Prune(g, removed), hier, n) <= Parents(g, hier, n) - removed;
    forall p | p in Parents(g, hier, n) - removed
      ensures p in Parents(Prune(g, removed), hier, n)
    {
      var r :| r in g[n].refs && !r.forward && r.refType in hier && r.target == p;
      assert r in Prune(g, removed)[n].refs;
    }
  }

  lemma DropAfterRemoval(g: Graph, gone: set<NodeId>)
    ensures DropRefsTo(g - gone, gone) == Prune(g, gone)
  {
  }

  /** A level on top of the levels before it. */
  lemma PruneMore(g: Graph, before: set<NodeId>, gone: set<NodeId>)
    ensures var h := Prune(g, before);
      DropRefsTo(h - gone, gone) == Prune(g, before + gone) && Prune(g, before + gone).Keys == h.Keys - gone
  {
    DropAfterRemoval(Prune(g, before), gone);
    PruneTwice(g, before, gone);
  }

  method OuterParents(refs: seq<Ref>, hier: set<NodeId>, subtree: map<NodeId, set<NodeId>>) returns (outer: seq<NodeId>)
    ensures forall p :: p in outer <==> p in Targets(refs, hier, false) && p !in subtree
  {
    outer := [];
    for i := 0 to |refs|
      invariant forall p :: p in outer <==> p in Targets(refs[..i], hier, false) && p !in subtree
    {
      assert refs[..i + 1] == refs[..i] + [refs[i]];
      if !refs[i].forward && refs[i].refType in hier && refs[i].target !in subtree {
        outer := outer + [refs[i].target];
      }
    }
    assert refs[..|refs|] == refs;
  }

  /** What one level has done so far: the table, the nodes removed, the children queued. */
  datatype LevelState = LevelState(subtree: map<NodeId, set<NodeId>>, gone: set<NodeId>, children: set<NodeId>)

  /** The decision about one sibling, in the graph `g` of the start of the level. */
  ghost function LookAt(g: Graph, hier: set<NodeId>, isRoot: bool, s: LevelState, nid: NodeId): LevelState {
    if nid !in s.subtree || nid !in g || nid in s.gone then s
    else if !(Parents(g, hier, nid) <= s.subtree.Keys) && !isRoot then s.(subtree := s.subtree - {nid})
    else s.(gone := s.gone + {nid}, children := s.children + s.subtree[nid])
  }

  ghost function LookAtAll(g: Graph, hier: set<NodeId>, isRoot: bool, s: LevelState, order: seq<NodeId>): LevelState {
    if order == [] then s
    else LookAt(g, hier, isRoot, LookAtAll(g, hier, isRoot, s, order[..|order| - 1]), order[|order| - 1])
  }

  ghost predicate Enumerates(order: seq<NodeId>, siblings: set<NodeId>) {
    && (forall x :: x in order <==> x in siblings)
    && (forall i, j :: 0 <= i < j < |order| ==> order[i] != order[j])
  }

  /** The loop of one level of `_rec_bf_remove_subtree`, in any order of the siblings. */
  method RemoveLevel(t: Tree, hier: set<NodeId>, siblings: set<NodeId>, table: map<NodeId, set<NodeId>>, isRoot: bool)
    returns (subtree: map<NodeId, set<NodeId>>, children: set<NodeId>, gone: set<NodeId>, ghost order: seq<NodeId>)
    modifies t`nodes
    ensures Enumerates(order, siblings)
    ensures LevelState(subtree, gone, children) ==
            LookAtAll(old(t.nodes), hier, isRoot, LevelState(table, {}, {}), order)
    ensures gone <= old(t.nodes).Keys && t.nodes == old(t.nodes) - gone
  {
    hide LookAtAll, Enumerates;
    subtree := table;
    var todo := siblings;
    children, gone, order := {}, {}, [];
    LookAtNothing(t.nodes, hier, isRoot, LevelState(table, {}, {}));
    assert siblings - todo == {};
    while todo != {}
      invariant todo <= siblings && Enumerates(order, siblings - todo)
      invariant LevelState(subtree, gone, children) ==
                LookAtAll(old(t.nodes), hier, isRoot, LevelState(table, {}, {}), order)
      invariant gone <= old(t.nodes).Keys && t.nodes == old(t.nodes) - gone
    {
      var nid :| nid in todo;
      LookAtMore(old(t.nodes), hier, isRoot, LevelState(table, {}, {}), order, siblings - todo, nid);
      assert siblings - todo + {nid} == siblings - (todo - {nid});
      todo := todo - {nid};
      order := order + [nid];
      if nid in subtree && nid in t.nodes {
        var outer := OuterParents(t.nodes[nid].refs, hier, subtree);
        assert outer != [] ==> outer[0] in outer;
        if outer != [] && !isRoot {
          subtree := subtree - {nid};
        } else {
          t.nodes := t.nodes - {nid};
          children := children + subtree[nid];
          gone := gone + {nid};
        }
      }
    }
    assert siblings - todo == siblings;
  }

  lemma LookAtNothing(g: Graph, hier: set<NodeId>, isRoot: bool, s: LevelState)
    ensures LookAtAll(g, hier, isRoot, s, []) == s && Enumerates([], {})
  {
  }

  lemma LookAtMore(g: Graph, hier: set<NodeId>, isRoot: bool, s: LevelState, order: seq<NodeId>, seen: set<NodeId>, nid: NodeId)
    requires Enumerates(order, seen) && nid !in seen
    ensures LookAtAll(g, hier, isRoot, s, order + [nid]) == LookAt(g, hier, isRoot, LookAtAll(g, hier, isRoot, s, order), nid)
    ensures Enumerates(order + [nid], seen + {nid})
  {
    hide LookAt;
    assert (order + [nid])[..|order|] == order;
  }

  /** Looking at siblings keeps the state of the removal consistent. */
  lemma {:induction false} LevelKept(g: Graph, hier: set<NodeId>, root: NodeId, full: map<NodeId, set<NodeId>>,
                                     table: map<NodeId, set<NodeId>>, before: set<NodeId>, siblings: set<NodeId>,
                                     isRoot: bool, order: seq<NodeId>)
    requires Level(g, hier, root, full, table, before, siblings)
    requires isRoot ==> siblings == {root}
    requires !isRoot ==> root in before
    requires forall x :: x in order ==> x in siblings
    ensures var s := LookAtAll(Prune(g, before), hier, isRoot, LevelState(table, {}, {}), order);
      && Level(g, hier, root, full, s.subtree, before + s.gone, siblings - (set x | x in order) + s.children)
      && (s.children != {} ==> s.gone != {})
      && s.gone <= Prune(g, before).Keys
  {
    hide Level, LookAt, Prune;
    var cur := Prune(g, before);
    if order == [] {
      assert before + {} == before && siblings - (set x | x in order) + {} == siblings;
    } else {
      var front, nid := order[..|order| - 1], order[|order| - 1];
      assert order == front + [nid];
      LevelKept(g, hier, root, full, table, before, siblings, isRoot, front);
      var s := LookAtAll(cur, hier, isRoot, LevelState(table, {}, {}), front);
      var todo := siblings - set x | x in front;
      assert siblings - (set x | x in order) == todo - {nid};
      LookAtKeepsLevel(g, hier, root, full, before, todo, isRoot, s, nid);
      LookAtQueues(cur, hier, isRoot, s, nid);
    }
  }

  lemma LookAtQueues(g: Graph, hier: set<NodeId>, isRoot: bool, s: LevelState, nid: NodeId)
    requires s.gone <= g.Keys && (s.children != {} ==> s.gone != {})
    ensures var u := LookAt(g, hier, isRoot, s, nid); u.gone <= g.Keys && (u.children != {} ==> u.gone != {})
  {
  }

  lemma LookAtKeepsLevel(g: Graph, hier: set<NodeId>, root: NodeId, full: map<NodeId, set<NodeId>>,
                         before: set<NodeId>, todo: set<NodeId>, isRoot: bool, s: LevelState, nid: NodeId)
    requires Level(g, hier, root, full, s.subtree, before + s.gone, todo + s.children)
    requires isRoot ==> nid == root
    requires !isRoot ==> root in before
    ensures var u := LookAt(Prune(g, before), hier, isRoot, s, nid);
      Level(g, hier, root, full, u.subtree, before + u.gone, todo - {nid} + u.children)
  {
    hide Level;
    RemovedStayInTable(g, hier, root, full, s.subtree, before + s.gone, todo + s.children);
    var cur := Prune(g, before);
    if nid !in s.subtree || nid !in cur || nid in s.gone {
      SkipStep(g, hier, root, full, s.subtree, before + s.gone, todo, s.children, nid);
    } else {
      ParentsOfPruned(g, hier, before, nid);
      if !(Parents(cur, hier, nid) <= s.subtree.Keys) && !isRoot {
        var outer :| outer in Parents(cur, hier, nid) && outer !in s.subtree;
        RetainStep(g, hier, root, full, s.subtree, before + s.gone, todo, s.children, nid, outer);
      } else {
        RemoveStep(g, hier, root, full, s.subtree, before + s.gone, todo, s.children, nid);
        assert before + s.gone + {nid} == before + (s.gone + {nid});
      }
    }
  }

  /** The levels of a removal that looks at the siblings of each level in the given order. */
  ghost predicate IsRun(g: Graph, hier: set<NodeId>, table: map<NodeId, set<NodeId>>, before: set<NodeId>,
                        siblings: set<NodeId>, isRoot: bool, orders: seq<seq<NodeId>>, removed: set<NodeId>)
    decreases |orders|
  {
    && orders != [] && Enumerates(orders[0], siblings)
    && var s := LookAtAll(Prune(g, before), hier, isRoot, LevelState(table, {}, {}), orders[0]);
       if s.children == {} then |orders| == 1 && removed == before + s.gone
       else IsRun(g, hier, s.subtree, before + s.gone, s.children, false, orders[1..], removed)
  }

  lemma EnumeratesAll(order: seq<NodeId>, siblings: set<NodeId>)
    requires Enumerates(order, siblings)
    ensures (set x | x in order) == siblings && forall x :: x in order ==> x in siblings
  {
  }

  lemma RunMore(g: Graph, hier: set<NodeId>, table: map<NodeId, set<NodeId>>, before: set<NodeId>, siblings: set<NodeId>,
                isRoot: bool, order: seq<NodeId>, s: LevelState, orders: seq<seq<NodeId>>, removed: set<NodeId>)
    requires Enumerates(order, siblings)
    requires s == LookAtAll(Prune(g, before), hier, isRoot, LevelState(table, {}, {}), order)
    requires if s.children == {} then orders == [] && removed == before + s.gone
             else IsRun(g, hier, s.subtree, before + s.gone, s.children, false, orders, removed)
    ensures IsRun(g, hier, table, before, siblings, isRoot, [order] + orders, removed)
  {
    hide LookAtAll, Enumerates;
    assert ([order] + orders)[1..] == orders;
  }

  /** `removed` is what the removal of the subtree of `root` takes away, in some order. */
  ghost predicate IsRemoval(g: Graph, hier: set<NodeId>, root: NodeId, removed: set<NodeId>) {
    exists full, orders :: IsSubtree(g, hier, root, full) && IsRun(g, hier, full, {}, {root}, true, orders, removed)
  }

  method RecRemoveSubtree(t: Tree, hier: set<NodeId>, siblings: set<NodeId>, table: map<NodeId, set<NodeId>>,
                          isRoot: bool, ghost g: Graph, ghost root: NodeId, ghost full: map<NodeId, set<NodeId>>,
                          ghost before: set<NodeId>)
    returns (ghost removed: set<NodeId>, ghost orders: seq<seq<NodeId>>)
    requires Level(g, hier, root, full, table, before, siblings)
    requires t.nodes == Prune(g, before)
    requires isRoot ==> siblings == {root} && before == {}
    requires !isRoot ==> root in before
    modifies t`nodes
    ensures t.nodes == Prune(g, removed)
    ensures SubtreeRemoval(g, hier, root, removed)
    ensures IsRun(g, hier, table, before, siblings, isRoot, orders, removed)
    decreases |t.nodes|
  {
    hide Level, SubtreeRemoval, LookAtAll, IsRun, Enumerates, Prune, DropRefsTo;
    ghost var entry := t.nodes;
    var subtree, children, gone, order := RemoveLevel(t, hier, siblings, table, isRoot);
    EnumeratesAll(order, siblings);
    LevelKept(g, hier, root, full, table, before, siblings, isRoot, order);
    assert siblings - (set x | x in order) + children == children;
    PruneMore(g, before, gone);
    t.RemoveRefsTo(gone);
    removed, orders := before + gone, [];
    if isRoot {
      RootLevel(g, hier, root, full, table, order);
    }
    if children != {} {
      removed, orders := RecRemoveSubtree(t, hier, children, subtree, false, g, root, full, removed);
    } else {
      LevelsDone(g, hier, root, full, subtree, removed);
    }
    RunMore(g, hier, table, before, siblings, isRoot, order, LevelState(subtree, gone, children), orders, removed);
    orders := [order] + orders;
  }

  lemma RootLevel(g: Graph, hier: set<NodeId>, root: NodeId, full: map<NodeId, set<NodeId>>,
                  table: map<NodeId, set<NodeId>>, order: seq<NodeId>)
    requires Level(g, hier, root, full, table, {}, {root})
    requires Enumerates(order, {root})
    ensures root in LookAtAll(Prune(g, {}), hier, true, LevelState(table, {}, {}), order).gone
  {
    assert root in order;
    assert forall i :: 0 <= i < |order| ==> order[i] in order;
    assert order == [root];
    assert order[..0] == [];
  }

  /** Every node lost between `g` and `h` was below one of `roots`. */
  ghost predicate LostBelow(g: Graph, h: Graph, hier: set<NodeId>, roots: set<NodeId>) {
    forall x :: x in g && x !in h ==> exists root :: root in roots && Reachable(g, hier, root, x)
  }

  /** No node that is left in `h` lost its last parent. */
  ghost predicate KeepsParents(g: Graph, h: Graph, hier: set<NodeId>) {
    forall n :: n in g && n in h && Parents(g, hier, n) != {} ==> Parents(h, hier, n) != {}
  }

  lemma KeepsParentsTransitive(g: Graph, h: Graph, k: Graph, hier: set<NodeId>)
    requires Pruning(g, h) && Pruning(h, k) && KeepsParents(g, h, hier) && KeepsParents(h, k, hier)
    ensures KeepsParents(g, k, hier)
  {
  }

  /** `remove_subtree`; `removed` are the ids of the removed nodes. */
  method RemoveSubtree(t: Tree, hier: set<NodeId>, root: NodeId) returns (ghost removed: set<NodeId>)
    modifies t`nodes
    ensures SubtreeRemoval(old(t.nodes), hier, root, removed)
    ensures root in old(t.nodes) ==> IsRemoval(old(t.nodes), hier, root, removed)
    ensures t.nodes == Prune(old(t.nodes), removed)
    ensures Pruning(old(t.nodes), t.nodes) && root !in t.nodes
    ensures LostBelow(old(t.nodes), t.nodes, hier, {root})
    ensures Reciprocal(old(t.nodes)) ==> KeepsParents(old(t.nodes), t.nodes, hier)
  {
    hide Reciprocal;
    ghost var g := t.nodes;
    PruneNothing(g);
    PruningReflexive(g);
    var subtree := ComputeSubtree(t.nodes, hier, root);
    if root !in subtree {
      // an unknown root has an empty table: the first level looks at it and stops
      ReachableSelf(g, hier, root);
      removed := {};
    } else {
      ghost var orders;
      removed, orders := RecRemoveSubtree(t, hier, {root}, subtree, true, g, root, subtree, {});
      PruningOfPrune(g, removed);
    }
    if Reciprocal(g) {
      forall n | n in t.nodes && Parents(g, hier, n) != {}
        ensures Parents(t.nodes, hier, n) != {}
      {
        NoNewOrphans(g, hier, root, removed, n);
      }
    }
  }

  lemma ParentOfChild(g: Graph, hier: set<NodeId>, n: NodeId, p: NodeId)
    requires Reciprocal(g) && n in g && p in g && p in Parents(g, hier, n)
    ensures n in Children(g, hier, p)
  {
    var r :| r in g[n].refs && !r.forward && r.refType in hier && r.target == p;
    assert r == Ref(r.refType, p, false);
    assert Inverse(g, p, r.refType, n);
    assert Forward(g, p, r.refType, n);
    assert Ref(r.refType, n, true) in g[p].refs;
  }

  lemma ChildOfParent(g: Graph, hier: set<NodeId>, n: NodeId, p: NodeId)
    requires Reciprocal(g) && n in g && p in g && n in Children(g, hier, p)
    ensures p in Parents(g, hier, n)
  {
    var r :| r in g[p].refs && r.forward && r.refType in hier && r.target == n;
    assert r == Ref(r.refType, n, true);
    assert Forward(g, p, r.refType, n);
    assert Inverse(g, p, r.refType, n);
    assert Ref(r.refType, p, false) in g[n].refs;
  }

  /** On a reciprocal graph a removal creates no orphan at all: a survivor that had a parent keeps one. */
  lemma NoNewOrphans(g: Graph, hier: set<NodeId>, root: NodeId, removed: set<NodeId>, n: NodeId)
    requires Reciprocal(g) && SubtreeRemoval(g, hier, root, removed)
    requires n in g && n !in removed && Parents(g, hier, n) != {}
    ensures Parents(Prune(g, removed), hier, n) != {}
  {
    hide Reciprocal;
    ParentsOfPruned(g, hier, removed, n);
    var p :| p in Parents(g, hier, n);
    if p in removed {
      ParentOfChild(g, hier, n, p);
      p :| p in Parents(g, hier, n) && p !in removed;
    }
    assert p in Parents(Prune(g, removed), hier, n);
  }

  /** On a reciprocal graph everything below the root that has no other ancestry is removed. */
  lemma {:induction false} NoOtherAncestryRemoved(g: Graph, hier: set<NodeId>, root: NodeId, removed: set<NodeId>, x: NodeId)
    requires Reciprocal(g) && SubtreeRemoval(g, hier, root, removed)
    requires root in g && x in g && Reachable(g, hier, root, x) && !OtherAncestry(g, hier, root, x)
    ensures x in removed
  {
    var p :| IsPath(g, hier, p) && p[0] == root && p[|p| - 1] == x;
    PathRemoved(g, hier, root, removed, p);
  }

  lemma {:induction false} PathRemoved(g: Graph, hier: set<NodeId>, root: NodeId, removed: set<NodeId>, p: seq<NodeId>)
    requires Reciprocal(g) && SubtreeRemoval(g, hier, root, removed)
    requires root in g && IsPath(g, hier, p) && p[0] == root
    ensures p[|p| - 1] in g ==> p[|p| - 1] in removed || OtherAncestry(g, hier, root, p[|p| - 1])
    decreases |p|
  {
    hide Reciprocal, OtherAncestry;
    if |p| > 1 {
      PathRemoved(g, hier, root, removed, p[..|p| - 1]);
      var x, c := p[|p| - 2], p[|p| - 1];
      assert c in Children(g, hier, x);
      if c in g && c != root && x !in removed {
        ChildOfParent(g, hier, c, x);
        OtherAncestryInherited(g, hier, root, c, x);
      }
    }
  }

  /** A node below the root with a parent outside the subtree always survives. */
  lemma OutsideParentSurvives(g: Graph, hier: set<NodeId>, root: NodeId, removed: set<NodeId>, n: NodeId, p: NodeId)
    requires SubtreeRemoval(g, hier, root, removed)
    requires n in g && n != root && p in Parents(g, hier, n) && !Reachable(g, hier, root, p)
    ensures n in Prune(g, removed) && p in Parents(Prune(g, removed), hier, n)
  {
    ParentsOfPruned(g, hier, removed, n);
  }

  // ----- Several removals in a row -----

  lemma LostNothing(g: Graph, hier: set<NodeId>, roots: set<NodeId>)
    ensures LostBelow(g, g, hier, roots)
  {
  }

  lemma ChildrenBeforePruning(g: Graph, h: Graph, hier: set<NodeId>, n: NodeId)
    requires Pruning(g, h)
    ensures Children(h, hier, n) <= Children(g, hier, n)
  {
    PruningMembers(g, h);
  }

  lemma ReachableBeforePruning(g: Graph, h: Graph, hier: set<NodeId>, a: NodeId, b: NodeId)
    requires Pruning(g, h) && Reachable(h, hier, a, b)
    ensures Reachable(g, hier, a, b)
  {
    hide Pruning, Children;
    var p :| IsPath(h, hier, p) && p[0] == a && p[|p| - 1] == b;
    forall i | 0 < i < |p|
      ensures p[i] in Children(g, hier, p[i - 1])
    {
      ChildrenBeforePruning(g, h, hier, p[i - 1]);
    }
    assert IsPath(g, hier, p);
  }

  lemma LostBelowMore(g: Graph, h: Graph, k: Graph, hier: set<NodeId>, roots: set<NodeId>, root: NodeId)
    requires Pruning(g, h) && root in roots
    requires LostBelow(g, h, hier, roots) && LostBelow(h, k, hier, {root})
    ensures LostBelow(g, k, hier, roots)
  {
    forall x | x in g && x !in k
      ensures exists r :: r in roots && Reachable(g, hier, r, x)
    {
      if x in h {
        ReachableBeforePruning(g, h, hier, root, x);
      }
    }
  }

  // ----- Orphans -----

  function RetainedOrphans(): set<NodeId> {
    {NodeId(0, "i=84"), NodeId(0, "i=78"), NodeId(0, "i=11510"), NodeId(0, "i=80"), NodeId(0, "i=11508")}
  }

  predicate Instance(g: Graph, n: NodeId) {
    n in g && (g[n].kind == UAObject || g[n].kind == UAVariable)
  }

  function Orphans(g: Graph, hier: set<NodeId>): set<NodeId> {
    set n | n in g && Instance(g, n) && Parents(g, hier, n) == {}
  }

  /** An object or a variable without a parent, other than Root and the four objects of the modelling rules. */
  ghost predicate IsOrphan(g: Graph, hier: set<NodeId>, n: NodeId) {
    && n in g && g[n].kind in {UAObject, UAVariable} && Parents(g, hier, n) == {}
    && !(n.ns == 0 && n.text in {"i=84", "i=78", "i=11510", "i=80", "i=11508"})
  }

  lemma LostBelowOrphans(g: Graph, h: Graph, hier: set<NodeId>, x: NodeId)
    requires LostBelow(g, h, hier, Orphans(g, hier) - RetainedOrphans()) && x in g && x !in h
    ensures exists root :: IsOrphan(g, hier, root) && Reachable(g, hier, root, x)
  {
    hide Reachable, Parents, RetainedOrphans;
    var root :| root in Orphans(g, hier) - RetainedOrphans() && Reachable(g, hier, root, x);
    RetainedIff(root);
    assert IsOrphan(g, hier, root);
  }

  lemma RetainedIff(n: NodeId)
    ensures n in RetainedOrphans() <==> n.ns == 0 && n.text in {"i=84", "i=78", "i=11510", "i=80", "i=11508"}
  {
    assert n == NodeId(n.ns, n.text);
  }

  /** Objects and variables have a parent, except the retained ones. */
  ghost predicate NoOrphans(g: Graph, hier: set<NodeId>) {
    forall n :: Instance(g, n) && n !in RetainedOrphans() ==> Parents(g, hier, n) != {}
  }

  lemma NoOrphansKept(g: Graph, h: Graph, hier: set<NodeId>)
    requires Pruning(g, h) && KeepsParents(g, h, hier) && NoOrphans(g, hier)
    ensures NoOrphans(h, hier)
  {
    PruningMembers(g, h);
  }

  method FindOrphans(g: Graph, hier: set<NodeId>) returns (orphans: seq<NodeId>)
    ensures forall n :: n in orphans <==> n in Orphans(g, hier)
  {
    orphans := [];
    var todo := g.Keys;
    while todo != {}
      invariant todo <= g.Keys
      invariant forall n :: n in orphans <==> n !in todo && Instance(g, n) && Parents(g, hier, n) == {}
    {
      var n :| n in todo;
      todo := todo - {n};
      var up := OuterParents(g[n].refs, hier, map[]);
      assert up != [] ==> up[0] in up;
      if Instance(g, n) && up == [] {
        assert Parents(g, hier, n) == {} by {
          assert forall p :: p in Parents(g, hier, n) ==> p in up;
        }
        orphans := orphans + [n];
      }
    }
  }

  /** `remove_orphans`: the orphans are collected once and their subtrees removed one after another. */
  method RemoveOrphans(t: Tree, hier: set<NodeId>)
    requires Reciprocal(t.nodes)
    modifies t`nodes
    ensures Pruning(old(t.nodes), t.nodes) && Reciprocal(t.nodes)
    ensures NoOrphans(t.nodes, hier) && KeepsParents(old(t.nodes), t.nodes, hier)
    ensures LostBelow(old(t.nodes), t.nodes, hier, Orphans(old(t.nodes), hier) - RetainedOrphans())
    ensures forall n :: !IsOrphan(t.nodes, hier, n)
    ensures forall x :: x in old(t.nodes) && x !in t.nodes ==>
      exists root :: IsOrphan(old(t.nodes), hier, root) && Reachable(old(t.nodes), hier, root, x)
  {
    hide LostBelow, Reciprocal, Pruning;
    var orphans := FindOrphans(t.nodes, hier);
    PruningReflexive(t.nodes);
    ghost var roots := Orphans(t.nodes, hier) - RetainedOrphans();
    LostNothing(t.nodes, hier, roots);
    for i := 0 to |orphans|
      invariant Pruning(old(t.nodes), t.nodes) && Reciprocal(t.nodes)
      invariant LostBelow(old(t.nodes), t.nodes, hier, roots)
      invariant KeepsParents(old(t.nodes), t.nodes, hier)
      invariant forall n :: Instance(t.nodes, n) && n !in RetainedOrphans() ==>
        Parents(t.nodes, hier, n) != {} || n in orphans[i..]
    {
      var nid := orphans[i];
      assert orphans[i..] == [nid] + orphans[i + 1..];
      if nid !in RetainedOrphans() {
        ghost var g := t.nodes;
        ghost var removed := RemoveSubtree(t, hier, nid);
        LostBelowMore(old(t.nodes), g, t.nodes, hier, roots, nid);
        PruningTransitive(old(t.nodes), g, t.nodes);
        PruningKeepsReciprocal(g, t.nodes);
        PruningMembers(g, t.nodes);
        KeepsParentsTransitive(old(t.nodes), g, t.nodes, hier);
      }
    }
    forall x | x in old(t.nodes) && x !in t.nodes
      ensures exists root :: IsOrphan(old(t.nodes), hier, root) && Reachable(old(t.nodes), hier, root, x)
    {
      LostBelowOrphans(old(t.nodes), t.nodes, hier, x);
    }
  }
}

/** Removal of a subtree in a graph where all paths from the root to a node have the same length. There the order in
    which siblings are looked at does not matter, and what is removed can be told from the graph alone.
 */
module SubtreeLevels {
  import opened Basics
  import opened AddressSpace
  import opened Subtree

  ghost predicate AtDepth(g: Graph, hier: set<NodeId>, root: NodeId, x: NodeId, n: nat) {
    exists p :: IsPath(g, hier, p) && p[0] == root && p[|p| - 1] == x && |p| == n + 1
  }

  ghost predicate Levelled(g: Graph, hier: set<NodeId>, root: NodeId) {
    forall x, m: nat, n: nat :: AtDepth(g, hier, root, x, m) && AtDepth(g, hier, root, x, n) ==> m == n
  }

  lemma RootDepth(g: Graph, hier: set<NodeId>, root: NodeId)
    ensures AtDepth(g, hier, root, root, 0)
  {
    assert IsPath(g, hier, [root]);
  }

  lemma NextDepth(g: Graph, hier: set<NodeId>, root: NodeId, x: NodeId, n: nat, c: NodeId)
    requires AtDepth(g, hier, root, x, n) && c in Children(g, hier, x)
    ensures AtDepth(g, hier, root, c, n + 1)
  {
    var p :| IsPath(g, hier, p) && p[0] == root && p[|p| - 1] == x && |p| == n + 1;
    assert IsPath(g, hier, p + [c]);
  }

  lemma DepthReachable(g: Graph, hier: set<NodeId>, root: NodeId, x: NodeId, n: nat)
    requires AtDepth(g, hier, root, x, n)
    ensures Reachable(g, hier, root, x)
  {
  }

  // ----- What happens to the nodes of each level -----

  /** The nodes of a level that are removed, and those that are retained although a parent is removed. */
  datatype Fate = Fate(gone: set<NodeId>, kept: set<NodeId>)

  /** A parent that protects: not below the root, or retained on the level before. */
  ghost predicate Protected(g: Graph, hier: set<NodeId>, root: NodeId, before: Fate, x: NodeId) {
    exists q :: q in Parents(g, hier, x) && (!Reachable(g, hier, root, q) || q in before.kept)
  }

  /** The nodes with a parent that is removed on the level before. */
  ghost function Next(g: Graph, hier: set<NodeId>, before: Fate): set<NodeId> {
    set p, x | p in before.gone && x in Children(g, hier, p) && x in g :: x
  }

  ghost function FateOf(g: Graph, hier: set<NodeId>, root: NodeId, n: nat): Fate {
    if n == 0 then Fate({root}, {})
    else
      var before := FateOf(g, hier, root, n - 1);
      var next := Next(g, hier, before);
      Fate(set x | x in next && !Protected(g, hier, root, before, x), set x | x in next && Protected(g, hier, root, before, x))
  }

  /** The node is removed, as far as the graph tells. */
  ghost predicate Doomed(g: Graph, hier: set<NodeId>, root: NodeId, x: NodeId) {
    exists n: nat :: x in FateOf(g, hier, root, n).gone
  }

  lemma {:induction false} FateDepth(g: Graph, hier: set<NodeId>, root: NodeId, n: nat, x: NodeId)
    requires root in g && (x in FateOf(g, hier, root, n).gone || x in FateOf(g, hier, root, n).kept)
    ensures AtDepth(g, hier, root, x, n) && x in g
  {
    hide AtDepth, Protected;
    if n == 0 {
      RootDepth(g, hier, root);
    } else {
      var before := FateOf(g, hier, root, n - 1);
      var p :| p in before.gone && x in Children(g, hier, p);
      FateDepth(g, hier, root, n - 1, p);
      NextDepth(g, hier, root, p, n - 1, x);
    }
  }

  /** A parent below the root is one level up. */
  lemma ParentDepth(g: Graph, hier: set<NodeId>, root: NodeId, x: NodeId, n: nat, q: NodeId, m: nat)
    requires Reciprocal(g) && Levelled(g, hier, root) && x in g && q in g
    requires AtDepth(g, hier, root, x, n) && AtDepth(g, hier, root, q, m) && q in Parents(g, hier, x)
    ensures n == m + 1
  {
    hide AtDepth, Reciprocal;
    ParentOfChild(g, hier, x, q);
    NextDepth(g, hier, root, q, m, x);
  }

  // ----- One level, in any order -----

  ghost predicate Stays(g: Graph, hier: set<NodeId>, isRoot: bool, table: map<NodeId, set<NodeId>>, x: NodeId) {
    !isRoot && !(Parents(g, hier, x) <= table.Keys)
  }

  /** The siblings that a level looks at. */
  ghost predicate Examined(g: Graph, table: map<NodeId, set<NodeId>>, order: seq<NodeId>, x: NodeId) {
    x in order && x in table && x in g
  }

  /** When no sibling is a parent of another, each is judged by the table of the start of the level. */
  ghost predicate JudgedAtStart(g: Graph, hier: set<NodeId>, isRoot: bool, table: map<NodeId, set<NodeId>>,
                                order: seq<NodeId>, s: LevelState)
  {
    && (forall x :: x in s.gone <==> Examined(g, table, order, x) && !Stays(g, hier, isRoot, table, x))
    && (forall x :: x in s.subtree <==> x in table && !(Examined(g, table, order, x) && Stays(g, hier, isRoot, table, x)))
    && (forall x :: x in s.subtree ==> s.subtree[x] == table[x])
    && (forall c :: c in s.children <==> exists x :: x in s.gone && x in table && c in table[x])
  }

  ghost predicate NoInnerParents(g: Graph, hier: set<NodeId>, siblings: set<NodeId>) {
    forall x, y :: x in siblings && y in siblings && x in g && y in g ==> y !in Parents(g, hier, x)
  }

  lemma {:induction false} LevelByTable(g: Graph, hier: set<NodeId>, isRoot: bool, table: map<NodeId, set<NodeId>>,
                                        siblings: set<NodeId>, order: seq<NodeId>)
    requires Distinct(order) && (forall x :: x in order ==> x in siblings) && NoInnerParents(g, hier, siblings)
    ensures JudgedAtStart(g, hier, isRoot, table, order, LookAtAll(g, hier, isRoot, LevelState(table, {}, {}), order))
  {
    if order != [] {
      var front, nid := order[..|order| - 1], order[|order| - 1];
      assert order == front + [nid];
      LevelByTable(g, hier, isRoot, table, siblings, front);
      var s := LookAtAll(g, hier, isRoot, LevelState(table, {}, {}), front);
      SiblingByTable(g, hier, isRoot, table, siblings, front, nid, s);
    }
  }

  lemma SiblingByTable(g: Graph, hier: set<NodeId>, isRoot: bool, table: map<NodeId, set<NodeId>>,
                       siblings: set<NodeId>, front: seq<NodeId>, nid: NodeId, s: LevelState)
    requires (forall x :: x in front ==> x in siblings) && nid in siblings && nid !in front
    requires NoInnerParents(g, hier, siblings) && JudgedAtStart(g, hier, isRoot, table, front, s)
    ensures JudgedAtStart(g, hier, isRoot, table, front + [nid], LookAt(g, hier, isRoot, s, nid))
  {
    hide Parents;
    var u := LookAt(g, hier, isRoot, s, nid);
    forall x
      ensures Examined(g, table, front + [nid], x) <==> Examined(g, table, front, x) || (x == nid && nid in table && nid in g)
    {
    }
    if nid in table && nid in g {
      SameVerdict(g, hier, isRoot, table, siblings, front, nid, s);
    }
  }

  lemma SameVerdict(g: Graph, hier: set<NodeId>, isRoot: bool, table: map<NodeId, set<NodeId>>,
                    siblings: set<NodeId>, front: seq<NodeId>, nid: NodeId, s: LevelState)
    requires (forall x :: x in front ==> x in siblings) && nid in siblings && nid !in front && nid in table && nid in g
    requires NoInnerParents(g, hier, siblings) && JudgedAtStart(g, hier, isRoot, table, front, s)
    ensures nid in s.subtree && nid !in s.gone
    ensures Parents(g, hier, nid) <= s.subtree.Keys <==> Parents(g, hier, nid) <= table.Keys
  {
    hide Parents;
    forall q | q in Parents(g, hier, nid)
      ensures q in s.subtree <==> q in table
    {
      assert Examined(g, table, front, q) ==> q in siblings;
    }
  }

  // ----- All levels -----

  ghost predicate GoneBefore(g: Graph, hier: set<NodeId>, root: NodeId, n: nat, x: NodeId) {
    exists k: nat :: k < n && x in FateOf(g, hier, root, k).gone
  }

  ghost predicate KeptBefore(g: Graph, hier: set<NodeId>, root: NodeId, n: nat, x: NodeId) {
    exists k: nat :: k < n && x in FateOf(g, hier, root, k).kept
  }

  /** What the next level looks at. */
  ghost predicate Queued(g: Graph, hier: set<NodeId>, root: NodeId, n: nat, x: NodeId) {
    if n == 0 then x == root else x in Next(g, hier, FateOf(g, hier, root, n - 1))
  }

  /** The state when level n starts is the one that the graph tells. */
  ghost predicate LevelAt(g: Graph, hier: set<NodeId>, root: NodeId, full: map<NodeId, set<NodeId>>,
                          table: map<NodeId, set<NodeId>>, before: set<NodeId>, siblings: set<NodeId>, n: nat)
  {
    && root in g && IsSubtree(g, hier, root, full)
    && (forall x :: x in before <==> GoneBefore(g, hier, root, n, x))
    && (forall x :: x in table <==> x in full && !KeptBefore(g, hier, root, n, x))
    && (forall x :: x in table ==> table[x] == full[x])
    && (forall x :: x in siblings ==> AtDepth(g, hier, root, x, n))
    && (forall x :: x in g ==> (x in siblings <==> Queued(g, hier, root, n, x)))
  }

  lemma FirstLevel(g: Graph, hier: set<NodeId>, root: NodeId, full: map<NodeId, set<NodeId>>)
    requires root in g && IsSubtree(g, hier, root, full)
    ensures LevelAt(g, hier, root, full, full, {}, {root}, 0)
  {
    hide AtDepth, Reachable;
    RootDepth(g, hier, root);
  }

  /** Nodes of earlier levels are not met again. */
  lemma SettledElsewhere(g: Graph, hier: set<NodeId>, root: NodeId, n: nat, x: NodeId)
    requires root in g && Levelled(g, hier, root) && AtDepth(g, hier, root, x, n)
    ensures !GoneBefore(g, hier, root, n, x) && !KeptBefore(g, hier, root, n, x)
  {
    hide AtDepth, FateOf;
    if GoneBefore(g, hier, root, n, x) {
      var k: nat :| k < n && x in FateOf(g, hier, root, k).gone;
      FateDepth(g, hier, root, k, x);
      assert false;
    }
    if KeptBefore(g, hier, root, n, x) {
      var k: nat :| k < n && x in FateOf(g, hier, root, k).kept;
      FateDepth(g, hier, root, k, x);
      assert false;
    }
  }

  lemma SiblingsApart(g: Graph, hier: set<NodeId>, root: NodeId, full: map<NodeId, set<NodeId>>,
                      table: map<NodeId, set<NodeId>>, before: set<NodeId>, siblings: set<NodeId>, n: nat)
    requires Reciprocal(g) && Levelled(g, hier, root) && LevelAt(g, hier, root, full, table, before, siblings, n)
    ensures NoInnerParents(Prune(g, before), hier, siblings)
  {
    hide AtDepth, Reciprocal, Levelled, GoneBefore, KeptBefore, Queued, IsSubtree, Parents;
    var cur := Prune(g, before);
    forall x, y | x in siblings && y in siblings && x in cur && y in cur
      ensures y !in Parents(cur, hier, x)
    {
      ParentsOfPruned(g, hier, before, x);
      if y in Parents(cur, hier, x) {
        ParentDepth(g, hier, root, x, n, y, n);
        assert false;
      }
    }
  }

  /** Every queued node of the graph is looked at. */
  lemma QueuedExamined(g: Graph, hier: set<NodeId>, root: NodeId, full: map<NodeId, set<NodeId>>,
                       table: map<NodeId, set<NodeId>>, before: set<NodeId>, siblings: set<NodeId>, n: nat,
                       order: seq<NodeId>, x: NodeId)
    requires Levelled(g, hier, root) && LevelAt(g, hier, root, full, table, before, siblings, n)
    requires forall y :: y in order <==> y in siblings
    ensures Examined(Prune(g, before), table, order, x) <==> x in g && Queued(g, hier, root, n, x)
  {
    hide Reachable, GoneBefore, KeptBefore, Levelled, Queued;
    if x in g && x in siblings {
      SettledElsewhere(g, hier, root, n, x);
      DepthReachable(g, hier, root, x, n);
    }
  }

  /** A node stays if and only if it is protected. */
  lemma StaysIff(g: Graph, hier: set<NodeId>, root: NodeId, full: map<NodeId, set<NodeId>>,
                 table: map<NodeId, set<NodeId>>, before: set<NodeId>, siblings: set<NodeId>, n: nat, x: NodeId)
    requires Reciprocal(g) && Levelled(g, hier, root) && LevelAt(g, hier, root, full, table, before, siblings, n)
    requires n > 0 && x in g && x in siblings && x !in before
    ensures Stays(Prune(g, before), hier, false, table, x) <==> Protected(g, hier, root, FateOf(g, hier, root, n - 1), x)
  {
    hide AtDepth, Reciprocal, Levelled, GoneBefore, KeptBefore, Queued, Parents, FateOf;
    ParentsOfPruned(g, hier, before, x);
    var last := FateOf(g, hier, root, n - 1);
    forall q | q in Parents(g, hier, x)
      ensures (q !in before && q !in table) <==> (!Reachable(g, hier, root, q) || q in last.kept)
    {
      ProtectorIff(g, hier, root, n, x, q);
    }
  }

  /** What a parent of a node of level n can be. */
  lemma ProtectorIff(g: Graph, hier: set<NodeId>, root: NodeId, n: nat, x: NodeId, q: NodeId)
    requires root in g && Reciprocal(g) && Levelled(g, hier, root) && n > 0 && x in g && AtDepth(g, hier, root, x, n)
    requires q in Parents(g, hier, x)
    ensures !GoneBefore(g, hier, root, n, q) && (!Reachable(g, hier, root, q) || KeptBefore(g, hier, root, n, q))
      <==> !Reachable(g, hier, root, q) || q in FateOf(g, hier, root, n - 1).kept
  {
    hide AtDepth, Reciprocal, Levelled, Parents, FateOf, Reachable;
    if GoneBefore(g, hier, root, n, q) {
      var k: nat :| k < n && q in FateOf(g, hier, root, k).gone;
      FateDepth(g, hier, root, k, q);
      DepthReachable(g, hier, root, q, k);
      ParentDepth(g, hier, root, x, n, q, k);
      GoneNotKept(g, hier, root, n - 1, q);
    }
    if KeptBefore(g, hier, root, n, q) {
      var k: nat :| k < n && q in FateOf(g, hier, root, k).kept;
      FateDepth(g, hier, root, k, q);
      ParentDepth(g, hier, root, x, n, q, k);
    }
    if q in FateOf(g, hier, root, n - 1).kept {
      assert KeptBefore(g, hier, root, n, q);
    }
  }

  lemma GoneNotKept(g: Graph, hier: set<NodeId>, root: NodeId, n: nat, x: NodeId)
    requires x in FateOf(g, hier, root, n).gone
    ensures x !in FateOf(g, hier, root, n).kept
  {
    hide Protected, Next;
  }

  /** What a level removes and retains, in any order. */
  lemma LevelFate(g: Graph, hier: set<NodeId>, root: NodeId, full: map<NodeId, set<NodeId>>,
                  table: map<NodeId, set<NodeId>>, before: set<NodeId>, siblings: set<NodeId>, n: nat, order: seq<NodeId>, x: NodeId)
    requires Reciprocal(g) && Levelled(g, hier, root) && LevelAt(g, hier, root, full, table, before, siblings, n)
    requires Enumerates(order, siblings)
    ensures var cur := Prune(g, before);
      && (x in FateOf(g, hier, root, n).gone <==> Examined(cur, table, order, x) && !Stays(cur, hier, n == 0, table, x))
      && (x in FateOf(g, hier, root, n).kept <==> Examined(cur, table, order, x) && Stays(cur, hier, n == 0, table, x))
  {
    hide Reciprocal, Levelled, AtDepth, GoneBefore, KeptBefore, Protected, Reachable, Parents, Examined;
    QueuedExamined(g, hier, root, full, table, before, siblings, n, order, x);
    if Examined(Prune(g, before), table, order, x) && n > 0 {
      ExaminedNotGone(g, before, table, order, x);
      StaysIff(g, hier, root, full, table, before, siblings, n, x);
    }
    NextKnown(g, hier, root, n, x);
  }

  lemma ExaminedNotGone(g: Graph, before: set<NodeId>, table: map<NodeId, set<NodeId>>, order: seq<NodeId>, x: NodeId)
    requires Examined(Prune(g, before), table, order, x)
    ensures x in g && x !in before && x in order
  {
  }

  lemma NextKnown(g: Graph, hier: set<NodeId>, root: NodeId, n: nat, x: NodeId)
    ensures var f := FateOf(g, hier, root, n);
      n > 0 && (x in f.gone || x in f.kept) ==> x in g && Queued(g, hier, root, n, x)
  {
    hide Protected;
  }

  lemma NextLevel(g: Graph, hier: set<NodeId>, root: NodeId, full: map<NodeId, set<NodeId>>,
                  table: map<NodeId, set<NodeId>>, before: set<NodeId>, siblings: set<NodeId>, n: nat, order: seq<NodeId>)
    requires Reciprocal(g) && Levelled(g, hier, root) && LevelAt(g, hier, root, full, table, before, siblings, n)
    requires Enumerates(order, siblings)
    ensures var s := LookAtAll(Prune(g, before), hier, n == 0, LevelState(table, {}, {}), order);
      s.gone == FateOf(g, hier, root, n).gone && LevelAt(g, hier, root, full, s.subtree, before + s.gone, s.children, n + 1)
  {
    hide Reciprocal, Levelled, LookAtAll, Examined, Stays, FateOf, NoInnerParents, Enumerates;
    var cur := Prune(g, before);
    var s := LookAtAll(cur, hier, n == 0, LevelState(table, {}, {}), order);
    SiblingsApart(g, hier, root, full, table, before, siblings, n);
    EnumeratesOnce(order, siblings);
    LevelByTable(cur, hier, n == 0, table, siblings, order);
    var fate := FateOf(g, hier, root, n);
    forall x
      ensures x in fate.gone <==> x in s.gone
      ensures x in fate.kept <==> x in table && x !in s.subtree
      ensures x in s.gone ==> x in table
    {
      LevelFate(g, hier, root, full, table, before, siblings, n, order, x);
      InTable(cur, table, order, x);
    }
    assert s.gone == fate.gone;
    LevelAfter(g, hier, root, full, table, before, siblings, n, s);
  }

  lemma EnumeratesOnce(order: seq<NodeId>, siblings: set<NodeId>)
    requires Enumerates(order, siblings)
    ensures Distinct(order) && forall x :: x in order <==> x in siblings
  {
  }

  lemma InTable(g: Graph, table: map<NodeId, set<NodeId>>, order: seq<NodeId>, x: NodeId)
    ensures Examined(g, table, order, x) ==> x in table
  {
  }

  lemma LevelAfter(g: Graph, hier: set<NodeId>, root: NodeId, full: map<NodeId, set<NodeId>>,
                   table: map<NodeId, set<NodeId>>, before: set<NodeId>, siblings: set<NodeId>, n: nat, s: LevelState)
    requires LevelAt(g, hier, root, full, table, before, siblings, n)
    requires var fate := FateOf(g, hier, root, n);
      && s.gone == fate.gone
      && (forall x :: x in fate.kept <==> x in table && x !in s.subtree)
    requires s.gone <= table.Keys && s.subtree.Keys <= table.Keys && forall x :: x in s.subtree ==> s.subtree[x] == table[x]
    requires forall c :: c in s.children <==> exists x :: x in s.gone && x in table && c in table[x]
    ensures LevelAt(g, hier, root, full, s.subtree, before + s.gone, s.children, n + 1)
  {
    hide AtDepth, Reachable, Children, FateOf;
    forall x
      ensures x in before + s.gone <==> GoneBefore(g, hier, root, n + 1, x)
      ensures x in s.subtree <==> x in full && !KeptBefore(g, hier, root, n + 1, x)
    {
      BeforeMore(g, hier, root, n, x);
    }
    forall x | x in s.gone
      ensures AtDepth(g, hier, root, x, n) && x in table && table[x] == Children(g, hier, x)
    {
      FateDepth(g, hier, root, n, x);
    }
    forall c | c in s.children
      ensures AtDepth(g, hier, root, c, n + 1)
    {
      var x :| x in s.gone && x in table && c in table[x];
      NextDepth(g, hier, root, x, n, c);
    }
  }

  lemma BeforeMore(g: Graph, hier: set<NodeId>, root: NodeId, n: nat, x: NodeId)
    ensures GoneBefore(g, hier, root, n + 1, x) <==> GoneBefore(g, hier, root, n, x) || x in FateOf(g, hier, root, n).gone
    ensures KeptBefore(g, hier, root, n + 1, x) <==> KeptBefore(g, hier, root, n, x) || x in FateOf(g, hier, root, n).kept
  {
    hide FateOf;
  }

  // ----- The whole removal -----

  lemma {:induction false} NothingLater(g: Graph, hier: set<NodeId>, root: NodeId, n: nat, k: nat)
    requires n < k && Next(g, hier, FateOf(g, hier, root, n)) == {}
    ensures FateOf(g, hier, root, k).gone == {}
    decreases k
  {
    hide Protected;
    if n + 1 < k {
      NothingLater(g, hier, root, n, k - 1);
    }
  }

  lemma {:induction false} RunDoomed(g: Graph, hier: set<NodeId>, root: NodeId, full: map<NodeId, set<NodeId>>,
                                     table: map<NodeId, set<NodeId>>, before: set<NodeId>, siblings: set<NodeId>, n: nat,
                                     orders: seq<seq<NodeId>>, removed: set<NodeId>, x: NodeId)
    requires Reciprocal(g) && Levelled(g, hier, root) && LevelAt(g, hier, root, full, table, before, siblings, n)
    requires IsRun(g, hier, table, before, siblings, n == 0, orders, removed)
    ensures x in removed <==> Doomed(g, hier, root, x)
    decreases |orders|
  {
    hide Reciprocal, Levelled, LevelAt, FateOf, LookAtAll, Next;
    var s := LookAtAll(Prune(g, before), hier, n == 0, LevelState(table, {}, {}), orders[0]);
    NextLevel(g, hier, root, full, table, before, siblings, n, orders[0]);
    if s.children != {} {
      RunDoomed(g, hier, root, full, s.subtree, before + s.gone, s.children, n + 1, orders[1..], removed, x);
    } else {
      LastLevel(g, hier, root, full, s.subtree, before + s.gone, n, x);
    }
  }

  lemma LastLevel(g: Graph, hier: set<NodeId>, root: NodeId, full: map<NodeId, set<NodeId>>,
                  table: map<NodeId, set<NodeId>>, removed: set<NodeId>, n: nat, x: NodeId)
    requires LevelAt(g, hier, root, full, table, removed, {}, n + 1)
    ensures x in removed <==> Doomed(g, hier, root, x)
  {
    hide FateOf, AtDepth, Next;
    assert Next(g, hier, FateOf(g, hier, root, n)) == {} by {
      NextInGraph(g, hier, FateOf(g, hier, root, n));
    }
    if Doomed(g, hier, root, x) {
      var k: nat :| x in FateOf(g, hier, root, k).gone;
      if k > n {
        NothingLater(g, hier, root, n, k);
        assert false;
      }
      assert GoneBefore(g, hier, root, n + 1, x);
    }
  }

  lemma NextInGraph(g: Graph, hier: set<NodeId>, before: Fate)
    ensures Next(g, hier, before) <= g.Keys
  {
  }

  /** In a levelled reciprocal graph, whatever the order, exactly the doomed nodes are removed. */
  lemma LevelledRemovalIff(g: Graph, hier: set<NodeId>, root: NodeId, removed: set<NodeId>, x: NodeId)
    requires root in g && Reciprocal(g) && Levelled(g, hier, root) && IsRemoval(g, hier, root, removed)
    ensures x in removed <==> Doomed(g, hier, root, x)
  {
    hide Reciprocal, Levelled, Doomed, IsRun, IsSubtree;
    var full, orders :| IsSubtree(g, hier, root, full) && IsRun(g, hier, full, {}, {root}, true, orders, removed);
    FirstLevel(g, hier, root, full);
    RunDoomed(g, hier, root, full, full, {}, {root}, 0, orders, removed, x);
  }

  /** The order does not matter. */
  lemma OrderIrrelevant(g: Graph, hier: set<NodeId>, root: NodeId, a: set<NodeId>, b: set<NodeId>)
    requires root in g && Reciprocal(g) && Levelled(g, hier, root) && IsRemoval(g, hier, root, a) && IsRemoval(g, hier, root, b)
    ensures a == b
  {
    hide Reciprocal, Levelled, Doomed, IsRemoval;
    forall x
      ensures x in a <==> x in b
    {
      LevelledRemovalIff(g, hier, root, a, x);
      LevelledRemovalIff(g, hier, root, b, x);
    }
  }
}

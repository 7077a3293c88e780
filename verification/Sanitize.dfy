/** `sanitize`: alias resolution in reference targets, reciprocal closure of the references, and
    removal of ParentNodeId attributes that no reference supports.
 */
module Sanitize {
  import opened Basics
  import opened AddressSpace

  datatype Triple = Triple(source: NodeId, refType: NodeId, target: NodeId)

  // ----- What sanitizing means -----

  function UnaliasRef(aliases: map<NodeId, NodeId>, r: Ref): Ref {
    r.(target := Unalias(aliases, r.target))
  }

  function UnaliasRefs(aliases: map<NodeId, NodeId>, refs: seq<Ref>): (u: seq<Ref>)
    ensures |u| == |refs| && forall i :: 0 <= i < |u| ==> u[i] == UnaliasRef(aliases, refs[i])
  {
    if refs == [] then [] else [UnaliasRef(aliases, refs[0])] + UnaliasRefs(aliases, refs[1..])
  }

  function UnaliasTargets(aliases: map<NodeId, NodeId>, g: Graph): Graph {
    map n | n in g :: g[n].(refs := UnaliasRefs(aliases, g[n].refs))
  }

  ghost predicate Resolved(aliases: map<NodeId, NodeId>, g: Graph) {
    forall n, r :: n in g && r in g[n].refs ==> r.target !in aliases
  }

  /** The reciprocal of a reference between two known nodes that node `n` does not store yet. */
  predicate Missing(u: Graph, n: NodeId, r: Ref) {
    && n in u && r.target in u && r !in u[n].refs
    && (if r.forward then Inverse(u, n, r.refType, r.target) else Forward(u, r.target, r.refType, n))
  }

  ghost function MissingAt(u: Graph, n: NodeId): iset<Ref> {
    iset r | Missing(u, n, r)
  }

  /** `after` is `before` followed by exactly the references of `added`, each once. */
  ghost predicate Appended(before: seq<Ref>, after: seq<Ref>, added: iset<Ref>) {
    && before <= after
    && Distinct(after[|before|..])
    && (forall r :: r in after[|before|..] <==> r in added)
    && (forall r :: r in added ==> r !in before)
  }

  lemma AppendedMembers(before: seq<Ref>, after: seq<Ref>, added: iset<Ref>)
    requires Appended(before, after, added)
    ensures forall r :: r in after <==> r in before || r in added
    ensures added == iset{} ==> after == before
  {
    var tail := after[|before|..];
    assert after == before + tail;
    assert tail != [] ==> tail[0] in tail;
  }

  predicate ParentBacked(aliases: map<NodeId, NodeId>, refs: seq<Ref>, parent: NodeId) {
    exists r | r in refs :: !r.forward && Unalias(aliases, r.target) == Unalias(aliases, parent)
  }

  function BackedParent(aliases: map<NodeId, NodeId>, refs: seq<Ref>, parent: Option<NodeId>): Option<NodeId> {
    if parent.Some? && ParentBacked(aliases, refs, parent.value) then parent else None
  }

  /** What `sanitize` makes of one node of the graph `u` whose targets are resolved. */
  ghost predicate NodeCompleted(u: Graph, aliases: map<NodeId, NodeId>, n: NodeId, node: Node)
    requires n in u
  {
    && Appended(u[n].refs, node.refs, MissingAt(u, n))
    && node.parent == BackedParent(aliases, node.refs, u[n].parent)
    && node.kind == u[n].kind && node.dataType == u[n].dataType
  }

  ghost predicate Sanitized(g: Graph, aliases: map<NodeId, NodeId>, h: Graph) {
    && h.Keys == g.Keys
    && var u := UnaliasTargets(aliases, g);
       forall n :: n in g ==> NodeCompleted(u, aliases, n, h[n])
  }

  // ----- Properties of a sanitized tree -----

  /** The references of a sanitized tree: those of the resolved tree and the missing reciprocals. */
  lemma SanitizedMembers(g: Graph, aliases: map<NodeId, NodeId>, h: Graph)
    requires Sanitized(g, aliases, h)
    ensures var u := UnaliasTargets(aliases, g);
      forall n, r :: n in h ==> (r in h[n].refs <==> r in u[n].refs || Missing(u, n, r))
  {
    hide Appended, Missing;
    var u := UnaliasTargets(aliases, g);
    forall n, r | n in h
      ensures r in h[n].refs <==> r in u[n].refs || Missing(u, n, r)
    {
      assert NodeCompleted(u, aliases, n, h[n]);
      AppendedMembers(u[n].refs, h[n].refs, MissingAt(u, n));
    }
  }

  lemma SanitizedReciprocal(g: Graph, aliases: map<NodeId, NodeId>, h: Graph)
    requires Sanitized(g, aliases, h)
    ensures Reciprocal(h)
  {
    hide Sanitized;
    SanitizedKeys(g, aliases, h);
    SanitizedMembers(g, aliases, h);
    var u := UnaliasTargets(aliases, g);
    forall a, t, b | a in h && b in h
      ensures Forward(h, a, t, b) <==> Inverse(h, a, t, b)
    {
      assert Forward(h, a, t, b) <==> Forward(u, a, t, b) || Inverse(u, a, t, b);
      assert Inverse(h, a, t, b) <==> Forward(u, a, t, b) || Inverse(u, a, t, b);
    }
  }

  lemma SanitizedKeys(g: Graph, aliases: map<NodeId, NodeId>, h: Graph)
    requires Sanitized(g, aliases, h)
    ensures h.Keys == g.Keys == UnaliasTargets(aliases, g).Keys
  {
  }

  /** The sanitized tree is the least reciprocal tree with the references of the original. */
  lemma SanitizedLeast(g: Graph, aliases: map<NodeId, NodeId>, h: Graph, k: Graph, n: NodeId, r: Ref)
    requires Sanitized(g, aliases, h)
    requires k.Keys == g.Keys && Reciprocal(k)
    requires forall m, q :: m in g && q in UnaliasTargets(aliases, g)[m].refs ==> q in k[m].refs
    requires n in h && r in h[n].refs
    ensures r in k[n].refs
  {
    hide Sanitized;
    SanitizedKeys(g, aliases, h);
    SanitizedMembers(g, aliases, h);
    var u := UnaliasTargets(aliases, g);
    if r !in u[n].refs {
      if r.forward {
        assert Inverse(k, n, r.refType, r.target);
        assert Forward(k, n, r.refType, r.target);
        assert r == Ref(r.refType, r.target, true);
      } else {
        assert Forward(k, r.target, r.refType, n);
        assert Inverse(k, r.target, r.refType, n);
        assert r == Ref(r.refType, r.target, false);
      }
    }
  }

  /** The references of a node stay in their places, with their types and directions; only their targets are resolved.
      Kind and data type stay as they are. */
  lemma OriginalsStay(g: Graph, aliases: map<NodeId, NodeId>, h: Graph, n: NodeId, i: nat)
    requires Sanitized(g, aliases, h) && n in g
    ensures h[n].kind == g[n].kind && h[n].dataType == g[n].dataType && |g[n].refs| <= |h[n].refs|
    ensures i < |g[n].refs| ==>
      var r, q := g[n].refs[i], h[n].refs[i];
      && q.refType == r.refType && q.forward == r.forward
      && q.target == if r.target in aliases then aliases[r.target] else r.target
  {
    hide Missing;
    assert NodeCompleted(UnaliasTargets(aliases, g), aliases, n, h[n]);
  }

  /** A ParentNodeId stays if and only if the sanitized node has an inverse reference from that parent; when the parent
      is a node of the tree, if and only if it refers to the node. */
  lemma ParentKeptIff(g: Graph, aliases: map<NodeId, NodeId>, h: Graph, n: NodeId, p: NodeId)
    requires AliasesAreNames(g, aliases) && Sanitized(g, aliases, h) && n in h && g[n].parent == Some(p)
    ensures h[n].parent == Some(p) || h[n].parent == None
    ensures h[n].parent == Some(p) <==> exists t :: Inverse(h, Unalias(aliases, p), t, n)
    ensures Unalias(aliases, p) in h ==> (h[n].parent == Some(p) <==> exists t :: Forward(h, Unalias(aliases, p), t, n))
  {
    hide Appended, Missing;
    SanitizedReciprocal(g, aliases, h);
    SanitizedTargets(g, aliases, h);
    var parent := Unalias(aliases, p);
    assert NodeCompleted(UnaliasTargets(aliases, g), aliases, n, h[n]);
    forall r | r in h[n].refs && !r.forward
      ensures Unalias(aliases, r.target) == parent <==> r == Ref(r.refType, parent, false)
    {
    }
    if h[n].parent == Some(p) {
      var r :| r in h[n].refs && !r.forward && Unalias(aliases, r.target) == parent;
      assert Inverse(h, parent, r.refType, n);
    }
    if parent in h {
      forall t
        ensures Forward(h, parent, t, n) <==> Inverse(h, parent, t, n)
      {
      }
    }
  }

  /** Sanitizing a sanitized tree changes nothing. */
  lemma SanitizeTwice(g: Graph, aliases: map<NodeId, NodeId>, h: Graph, k: Graph)
    requires AliasesAreNames(g, aliases)
    requires Sanitized(g, aliases, h) && Sanitized(h, aliases, k)
    ensures k == h
  {
    hide Appended, Missing, Reciprocal;
    SanitizedReciprocal(g, aliases, h);
    SanitizedTargets(g, aliases, h);
    forall n | n in h
      ensures k[n] == h[n]
    {
      assert NodeCompleted(UnaliasTargets(aliases, h), aliases, n, k[n]);
      ReciprocalMissesNothing(h, n);
      AppendedMembers(h[n].refs, k[n].refs, MissingAt(h, n));
      assert NodeCompleted(UnaliasTargets(aliases, g), aliases, n, h[n]);
    }
  }

  lemma ReciprocalMissesNothing(h: Graph, n: NodeId)
    requires Reciprocal(h)
    ensures MissingAt(h, n) == iset{}
  {
    forall r
      ensures !Missing(h, n, r)
    {
      assert r == Ref(r.refType, r.target, r.forward);
      if n in h && r.target in h {
        if r.forward {
          assert Forward(h, n, r.refType, r.target) <==> Inverse(h, n, r.refType, r.target);
        } else {
          assert Forward(h, r.target, r.refType, n) <==> Inverse(h, r.target, r.refType, n);
        }
      }
    }
  }

  /** After sanitizing no target is an alias any more. */
  lemma SanitizedTargets(g: Graph, aliases: map<NodeId, NodeId>, h: Graph)
    requires AliasesAreNames(g, aliases) && Sanitized(g, aliases, h)
    ensures Resolved(aliases, h)
    ensures UnaliasTargets(aliases, h) == h
  {
    hide Sanitized;
    SanitizedKeys(g, aliases, h);
    SanitizedMembers(g, aliases, h);
    var u := UnaliasTargets(aliases, g);
    forall n, r | n in h && r in h[n].refs
      ensures r.target !in aliases
    {
      if r in u[n].refs {
        UnaliasedTarget(aliases, g[n].refs, r);
      }
    }
    ResolvedUnchanged(aliases, h);
  }

  lemma ResolvedUnchanged(aliases: map<NodeId, NodeId>, h: Graph)
    requires Resolved(aliases, h)
    ensures UnaliasTargets(aliases, h) == h
  {
    forall n | n in h
      ensures UnaliasRefs(aliases, h[n].refs) == h[n].refs
    {
      UnaliasNothing(aliases, h[n].refs);
    }
  }

  lemma UnaliasedTarget(aliases: map<NodeId, NodeId>, refs: seq<Ref>, r: Ref)
    requires aliases.Keys !! aliases.Values
    requires r in UnaliasRefs(aliases, refs)
    ensures r.target !in aliases
  {
    var i :| 0 <= i < |refs| && UnaliasRefs(aliases, refs)[i] == r;
    assert refs[i].target in aliases ==> aliases[refs[i].target] in aliases.Values;
  }

  lemma UnaliasNothing(aliases: map<NodeId, NodeId>, refs: seq<Ref>)
    requires forall r :: r in refs ==> r.target !in aliases
    ensures UnaliasRefs(aliases, refs) == refs
  {
    assert forall i :: 0 <= i < |refs| ==> refs[i] in refs;
  }

  // ----- The steps of sanitize -----

  /** The forward and the inverse references met so far, as sets and in the order they were met.
      An inverse reference is kept in the direction source to target. */
  datatype Collected = Collected(fwd: set<Triple>, fwdList: seq<Triple>, inv: set<Triple>, invList: seq<Triple>)

  ghost predicate ListsSet(list: seq<Triple>, s: set<Triple>) {
    Distinct(list) && forall x :: x in list <==> x in s
  }

  lemma ListsSetAdd(list: seq<Triple>, s: set<Triple>, x: Triple)
    requires ListsSet(list, s) && x !in s
    ensures ListsSet(list + [x], s + {x})
  {
  }

  /** The forward references stored in `refs` of node `n`. */
  predicate FwdOf(n: NodeId, refs: seq<Ref>, x: Triple) {
    x.source == n && Ref(x.refType, x.target, true) in refs
  }

  /** The inverse references from known nodes stored in `refs` of node `n`. */
  predicate InvOf(n: NodeId, refs: seq<Ref>, known: set<NodeId>, x: Triple) {
    x.target == n && x.source in known && Ref(x.refType, x.source, false) in refs
  }

  ghost predicate CollectedFrom(c: Collected, d: Collected, n: NodeId, refs: seq<Ref>, known: set<NodeId>) {
    && ListsSet(d.fwdList, d.fwd) && ListsSet(d.invList, d.inv)
    && (forall x :: x in d.fwd <==> x in c.fwd || FwdOf(n, refs, x))
    && (forall x :: x in d.inv <==> x in c.inv || InvOf(n, refs, known, x))
  }

  /** The references of one node: resolve the target and record the reference. */
  method CollectNode(n: NodeId, refs: seq<Ref>, aliases: map<NodeId, NodeId>, known: set<NodeId>, c: Collected)
    returns (unaliased: seq<Ref>, d: Collected)
    requires ListsSet(c.fwdList, c.fwd) && ListsSet(c.invList, c.inv)
    ensures unaliased == UnaliasRefs(aliases, refs)
    ensures CollectedFrom(c, d, n, unaliased, known)
  {
    unaliased, d := [], c;
    for i := 0 to |refs|
      invariant |unaliased| == i && forall j :: 0 <= j < i ==> unaliased[j] == UnaliasRef(aliases, refs[j])
      invariant CollectedFrom(c, d, n, unaliased, known)
    {
      var r := UnaliasRef(aliases, refs[i]);
      ghost var before := d;
      if r.forward {
        var x := Triple(n, r.refType, r.target);
        if x !in d.fwd {
          ListsSetAdd(d.fwdList, d.fwd, x);
          d := d.(fwd := d.fwd + {x}, fwdList := d.fwdList + [x]);
        }
      } else if r.target in known {
        var x := Triple(r.target, r.refType, n);
        if x !in d.inv {
          ListsSetAdd(d.invList, d.inv, x);
          d := d.(inv := d.inv + {x}, invList := d.invList + [x]);
        }
      }
      CollectedOneMore(c, before, d, n, unaliased, r, known);
      unaliased := unaliased + [r];
    }
  }

  lemma CollectedOneMore(c: Collected, b: Collected, d: Collected, n: NodeId, refs: seq<Ref>, r: Ref, known: set<NodeId>)
    requires CollectedFrom(c, b, n, refs, known)
    requires ListsSet(d.fwdList, d.fwd) && ListsSet(d.invList, d.inv)
    requires d.fwd == if r.forward then b.fwd + {Triple(n, r.refType, r.target)} else b.fwd
    requires d.inv == if !r.forward && r.target in known then b.inv + {Triple(r.target, r.refType, n)} else b.inv
    ensures CollectedFrom(c, d, n, refs + [r], known)
  {
    hide ListsSet;
    forall x
      ensures x in d.fwd <==> x in c.fwd || FwdOf(n, refs + [r], x)
      ensures x in d.inv <==> x in c.inv || InvOf(n, refs + [r], known, x)
    {
      assert Ref(x.refType, x.target, true) == r <==> r.forward && x.refType == r.refType && x.target == r.target;
      assert Ref(x.refType, x.source, false) == r <==> !r.forward && x.refType == r.refType && x.source == r.target;
    }
  }

  /** Exactly the references stored in the nodes of `done` are recorded. */
  ghost predicate CollectedSoFar(u: Graph, c: Collected, done: set<NodeId>) {
    && ListsSet(c.fwdList, c.fwd) && ListsSet(c.invList, c.inv)
    && (forall x :: x in c.fwd <==> x.source in done && Forward(u, x.source, x.refType, x.target))
    && (forall x :: x in c.inv <==> x.target in done && x.source in u && Inverse(u, x.source, x.refType, x.target))
  }

  lemma CollectedNodeMore(u: Graph, c: Collected, d: Collected, done: set<NodeId>, n: NodeId)
    requires n in u && CollectedSoFar(u, c, done) && CollectedFrom(c, d, n, u[n].refs, u.Keys)
    ensures CollectedSoFar(u, d, done + {n})
  {
    hide ListsSet;
    forall x
      ensures x in d.fwd <==> x.source in done + {n} && Forward(u, x.source, x.refType, x.target)
      ensures x in d.inv <==> x.target in done + {n} && x.source in u && Inverse(u, x.source, x.refType, x.target)
    {
      assert FwdOf(n, u[n].refs, x) <==> x.source == n && Forward(u, x.source, x.refType, x.target);
      assert InvOf(n, u[n].refs, u.Keys, x) <==> x.target == n && x.source in u && Inverse(u, x.source, x.refType, x.target);
    }
  }

  /** The first loop: every target is resolved, every reference is recorded. */
  method CollectReferences(t: Tree) returns (c: Collected)
    requires t.aliases.Keys !! t.nodes.Keys
    modifies t`nodes
    ensures t.nodes == UnaliasTargets(t.aliases, old(t.nodes))
    ensures CollectedSoFar(t.nodes, c, t.nodes.Keys)
  {
    hide CollectedSoFar, CollectedFrom, ListsSet;
    ghost var u := UnaliasTargets(t.aliases, t.nodes);
    c := Collected({}, [], {}, []);
    NothingCollected(u);
    var known := t.nodes.Keys;
    var todo := known;
    assert known - todo == {};
    while todo != {}
      invariant todo <= known == t.nodes.Keys == u.Keys
      invariant forall n :: n in known ==> t.nodes[n] == if n in todo then old(t.nodes)[n] else u[n]
      invariant CollectedSoFar(u, c, known - todo)
    {
      var n :| n in todo;
      ghost var before := c;
      CollectedLists(u, c, known - todo);
      var refs;
      var source := Unalias(t.aliases, n);
      assert source == n;
      refs, c := CollectNode(source, t.nodes[n].refs, t.aliases, known, c);
      CollectedNodeMore(u, before, c, known - todo, n);
      assert known - todo + {n} == known - (todo - {n});
      todo := todo - {n};
      t.nodes := t.nodes[n := t.nodes[n].(refs := refs)];
    }
    assert known - todo == known;
  }

  lemma NothingCollected(u: Graph)
    ensures CollectedSoFar(u, Collected({}, [], {}, []), {})
  {
  }

  lemma CollectedLists(u: Graph, c: Collected, done: set<NodeId>)
    requires CollectedSoFar(u, c, done)
    ensures ListsSet(c.fwdList, c.fwd) && ListsSet(c.invList, c.inv)
  {
  }

  /** `_add_ref` on a node of the tree. */
  method AddRef(t: Tree, n: NodeId, r: Ref)
    requires n in t.nodes
    modifies t`nodes
    ensures t.nodes == if r in old(t.nodes)[n].refs then old(t.nodes) else WithRef(old(t.nodes), n, r)
  {
    var refs := t.nodes[n].refs;
    for i := 0 to |refs|
      invariant r !in refs[..i]
      invariant t.nodes == old(t.nodes)
    {
      if refs[i] == r {
        return;
      }
    }
    assert refs[..|refs|] == refs;
    t.nodes := t.nodes[n := t.nodes[n].(refs := refs + [r])];
  }

  function WithRef(g: Graph, n: NodeId, r: Ref): Graph
    requires n in g
  {
    g[n := g[n].(refs := g[n].refs + [r])]
  }

  // ----- Adding the missing reciprocals -----

  ghost function AddedAt(added: set<(NodeId, Ref)>, n: NodeId): iset<Ref> {
    iset r | (n, r) in added
  }

  /** `g` is `u` with exactly the references of `added` appended to its nodes. */
  ghost predicate Grown(u: Graph, added: set<(NodeId, Ref)>, g: Graph) {
    && g.Keys == u.Keys
    && (forall n :: n in u ==>
          && Appended(u[n].refs, g[n].refs, AddedAt(added, n))
          && g[n] == u[n].(refs := g[n].refs))
  }

  lemma GrownByNothing(u: Graph)
    ensures Grown(u, {}, u)
  {
  }

  lemma AppendOne(before: seq<Ref>, after: seq<Ref>, added: iset<Ref>, r: Ref)
    requires Appended(before, after, added) && r !in before && r !in added
    ensures Appended(before, after + [r], added + iset{r})
  {
    assert (after + [r])[|before|..] == after[|before|..] + [r];
  }

  lemma GrownByOne(u: Graph, added: set<(NodeId, Ref)>, g: Graph, n: NodeId, r: Ref)
    requires Grown(u, added, g) && n in u && r !in u[n].refs && (n, r) !in added
    ensures r !in g[n].refs && Grown(u, added + {(n, r)}, WithRef(g, n, r))
  {
    hide Appended;
    AppendedMembers(u[n].refs, g[n].refs, AddedAt(added, n));
    var h, more := WithRef(g, n, r), added + {(n, r)};
    forall m | m in u
      ensures Appended(u[m].refs, h[m].refs, AddedAt(more, m))
    {
      if m == n {
        AppendOne(u[n].refs, g[n].refs, AddedAt(added, n), r);
        assert AddedAt(more, n) == AddedAt(added, n) + iset{r};
      } else {
        assert AddedAt(more, m) == AddedAt(added, m);
      }
    }
  }

  /** The node and the reference that store the triple in its source, or in its target. */
  function Reciprocity(x: Triple, forward: bool): (NodeId, Ref) {
    if forward then (x.source, Ref(x.refType, x.target, true)) else (x.target, Ref(x.refType, x.source, false))
  }

  /** The additions for the triples of `list` that are not in `known` and whose receiving node exists. */
  function Additions(u: Graph, list: seq<Triple>, known: set<Triple>, forward: bool): set<(NodeId, Ref)> {
    set x | x in list && x !in known && Reciprocity(x, forward).0 in u :: Reciprocity(x, forward)
  }

  /** The second and the third loop: store the triples of `list` that are not yet in `known`. */
  method AddReciprocals(t: Tree, list: seq<Triple>, known: set<Triple>, forward: bool,
                        ghost u: Graph, ghost before: set<(NodeId, Ref)>)
    requires Distinct(list) && Grown(u, before, t.nodes)
    requires forall x :: x in list && x !in known && Reciprocity(x, forward).0 in u ==>
      Reciprocity(x, forward).1 !in u[Reciprocity(x, forward).0].refs
    requires forall a :: a in before ==> a.1.forward != forward
    modifies t`nodes
    ensures Grown(u, before + Additions(u, list, known, forward), t.nodes)
  {
    hide Grown, Distinct;
    assert before + Additions(u, list[..0], known, forward) == before;
    for i := 0 to |list|
      invariant Grown(u, before + Additions(u, list[..i], known, forward), t.nodes)
    {
      var x := list[i];
      var (n, r) := Reciprocity(x, forward);
      ghost var added := before + Additions(u, list[..i], known, forward);
      GrownKeys(u, added, t.nodes);
      AdditionsSnoc(u, list, i, known, forward);
      if x !in known && n in t.nodes {
        NotYetAdded(u, list, i, known, forward);
        GrownByOne(u, added, t.nodes, n, r);
        assert added + {(n, r)} == before + Additions(u, list[..i + 1], known, forward);
        AddRef(t, n, r);
      } else {
        assert before + Additions(u, list[..i + 1], known, forward) == added;
      }
    }
    assert list[..|list|] == list;
  }

  lemma GrownKeys(u: Graph, added: set<(NodeId, Ref)>, g: Graph)
    requires Grown(u, added, g)
    ensures g.Keys == u.Keys
  {
  }

  lemma AdditionsSnoc(u: Graph, list: seq<Triple>, i: nat, known: set<Triple>, forward: bool)
    requires i < |list|
    ensures var x, a := list[i], Reciprocity(list[i], forward);
      Additions(u, list[..i + 1], known, forward) ==
      Additions(u, list[..i], known, forward) + if x !in known && a.0 in u then {a} else {}
  {
    assert list[..i + 1] == list[..i] + [list[i]];
  }

  lemma NotYetAdded(u: Graph, list: seq<Triple>, i: nat, known: set<Triple>, forward: bool)
    requires i < |list| && Distinct(list)
    ensures Reciprocity(list[i], forward) !in Additions(u, list[..i], known, forward)
    ensures Reciprocity(list[i], forward).1.forward == forward
  {
  }

  /** The two rounds of additions are exactly the missing reciprocals. */
  lemma AdditionsAreMissing(u: Graph, c: Collected, n: NodeId)
    requires CollectedSoFar(u, c, u.Keys) && n in u
    ensures AddedAt(Additions(u, c.invList, c.fwd, true) + Additions(u, c.fwdList, c.inv, false), n) == MissingAt(u, n)
  {
    var fwd, inv := Additions(u, c.invList, c.fwd, true), Additions(u, c.fwdList, c.inv, false);
    forall r
      ensures (n, r) in fwd + inv <==> Missing(u, n, r)
    {
      assert r == Ref(r.refType, r.target, r.forward);
      if r.forward {
        var x := Triple(n, r.refType, r.target);
        assert Reciprocity(x, true) == (n, r);
        assert (n, r) in fwd <==> x in c.inv && x !in c.fwd;
      } else {
        var x := Triple(r.target, r.refType, n);
        assert Reciprocity(x, false) == (n, r);
        assert (n, r) in inv <==> x in c.fwd && x !in c.inv;
      }
    }
  }

  /** A triple to be stored is not stored yet. */
  lemma AdditionsAreNew(u: Graph, c: Collected, x: Triple)
    requires CollectedSoFar(u, c, u.Keys)
    ensures x !in c.fwd && x.source in u ==> Reciprocity(x, true).1 !in u[x.source].refs
    ensures x in c.fwd && x !in c.inv && x.target in u ==> Reciprocity(x, false).1 !in u[x.target].refs
  {
    assert x in c.fwd <==> x.source in u && Forward(u, x.source, x.refType, x.target);
  }

  /** The last loop: a ParentNodeId without an inverse reference to the parent is dropped. */
  method DropUnbackedParents(t: Tree)
    modifies t`nodes
    ensures t.nodes == map n | n in old(t.nodes) ::
      old(t.nodes)[n].(parent := BackedParent(t.aliases, old(t.nodes)[n].refs, old(t.nodes)[n].parent))
  {
    var todo := t.nodes.Keys;
    while todo != {}
      invariant todo <= t.nodes.Keys == old(t.nodes).Keys
      invariant forall n :: n in t.nodes ==>
        t.nodes[n] == if n in todo then old(t.nodes)[n]
                      else old(t.nodes)[n].(parent := BackedParent(t.aliases, old(t.nodes)[n].refs, old(t.nodes)[n].parent))
    {
      var n :| n in todo;
      todo := todo - {n};
      var node := t.nodes[n];
      if node.parent.Some? && !ParentBacked(t.aliases, node.refs, node.parent.value) {
        t.nodes := t.nodes[n := node.(parent := None)];
      }
    }
  }

  lemma GrownIsSanitized(g: Graph, aliases: map<NodeId, NodeId>, c: Collected, grown: Graph, h: Graph)
    requires var u := UnaliasTargets(aliases, g);
      && CollectedSoFar(u, c, u.Keys)
      && Grown(u, Additions(u, c.invList, c.fwd, true) + Additions(u, c.fwdList, c.inv, false), grown)
    requires h == map n | n in grown :: grown[n].(parent := BackedParent(aliases, grown[n].refs, grown[n].parent))
    ensures Sanitized(g, aliases, h)
  {
    hide CollectedSoFar, Appended;
    var u := UnaliasTargets(aliases, g);
    forall n | n in g
      ensures NodeCompleted(u, aliases, n, h[n])
    {
      AdditionsAreMissing(u, c, n);
    }
  }

  /** `sanitize` on a tree without duplicate NodeIds. */
  method SanitizeTree(t: Tree)
    requires t.aliases.Keys !! t.nodes.Keys
    modifies t`nodes
    ensures Sanitized(old(t.nodes), t.aliases, t.nodes)
  {
    hide CollectedSoFar, Grown;
    ghost var g := t.nodes;
    var c := CollectReferences(t);
    ghost var u := t.nodes;
    CollectedLists(u, c, u.Keys);
    GrownByNothing(u);
    forall x ensures x !in c.fwd && x.source in u ==> Reciprocity(x, true).1 !in u[x.source].refs
             ensures x in c.fwd && x !in c.inv && x.target in u ==> Reciprocity(x, false).1 !in u[x.target].refs
    {
      AdditionsAreNew(u, c, x);
    }
    AddReciprocals(t, c.invList, c.fwd, true, u, {});
    ghost var first := Additions(u, c.invList, c.fwd, true);
    assert {} + first == first;
    AddReciprocals(t, c.fwdList, c.inv, false, u, first);
    ghost var grown := t.nodes;
    DropUnbackedParents(t);
    GrownIsSanitized(g, t.aliases, c, grown, t.nodes);
  }
}

/** `remove_backward_refs`: drop the inverse references, except those of retained types. */
module BackwardRefs {
  import opened AddressSpace
  import opened Sanitize
  import Unused

  predicate Dropped(retain: set<NodeId>, r: Ref) {
    !r.forward && r.refType !in retain
  }

  function WithoutBackward(refs: seq<Ref>, retain: set<NodeId>): seq<Ref> {
    if refs == [] then []
    else (if Dropped(retain, refs[0]) then [] else [refs[0]]) + WithoutBackward(refs[1..], retain)
  }

  function DropBackward(g: Graph, retain: set<NodeId>): Graph {
    map n | n in g :: g[n].(refs := WithoutBackward(g[n].refs, retain))
  }

  lemma {:induction false} WithoutBackwardMembers(refs: seq<Ref>, retain: set<NodeId>)
    ensures forall r :: r in WithoutBackward(refs, retain) <==> r in refs && !Dropped(retain, r)
  {
    if refs != [] {
      WithoutBackwardMembers(refs[1..], retain);
      assert refs == [refs[0]] + refs[1..];
    }
  }

  lemma {:induction false} WithoutBackwardSnoc(refs: seq<Ref>, r: Ref, retain: set<NodeId>)
    ensures WithoutBackward(refs + [r], retain) ==
            WithoutBackward(refs, retain) + (if Dropped(retain, r) then [] else [r])
  {
    if refs == [] {
      assert refs + [r] == [r];
      assert [r][1..] == [];
    } else {
      var head := if Dropped(retain, refs[0]) then [] else [refs[0]];
      assert (refs + [r])[1..] == refs[1..] + [r];
      WithoutBackwardSnoc(refs[1..], r, retain);
      var rest := WithoutBackward(refs[1..], retain);
      assert forall tail :: head + (rest + tail) == head + rest + tail;
    }
  }

  method KeepRefs(refs: seq<Ref>, retain: set<NodeId>) returns (kept: seq<Ref>)
    ensures kept == WithoutBackward(refs, retain)
  {
    kept := [];
    for i := 0 to |refs|
      invariant kept == WithoutBackward(refs[..i], retain)
    {
      assert refs[..i + 1] == refs[..i] + [refs[i]];
      WithoutBackwardSnoc(refs[..i], refs[i], retain);
      if refs[i].forward || refs[i].refType in retain {
        kept := kept + [refs[i]];
      }
    }
    assert refs[..|refs|] == refs;
  }

  /** The two texts name the same reference type. */
  predicate SameName(aliases: map<NodeId, NodeId>, x: NodeId, y: NodeId) {
    x == y || (x in aliases && aliases[x] == y) || (y in aliases && aliases[y] == x)
  }

  /** The retained types under other names: nothing else, and an alias of each type that has one. */
  ghost predicate RetainValues(aliases: map<NodeId, NodeId>, retain: set<NodeId>, all: set<NodeId>) {
    && retain <= all
    && (forall x :: x in all ==> exists r :: r in retain && SameName(aliases, x, r))
    && (forall r :: r in retain ==> AliasIn(aliases, r, all))
  }

  ghost predicate AliasIn(aliases: map<NodeId, NodeId>, r: NodeId, all: set<NodeId>) {
    r in aliases.Values ==> exists a :: a in all && a in aliases && aliases[a] == r
  }

  /** `__get_all_retain_values`: the given types, under their NodeId and under their alias. */
  method AllRetainValues(aliases: map<NodeId, NodeId>, retain: set<NodeId>) returns (all: set<NodeId>)
    ensures RetainValues(aliases, retain, all)
  {
    var aliasOf := Unused.GetAliases(aliases);
    all := retain
      + (set r | r in retain && r in aliasOf :: aliasOf[r])
      + (set r | r in retain && r in aliases && aliases[r] in aliasOf && aliasOf[aliases[r]] == r :: aliases[r]);
    forall r | r in retain
      ensures AliasIn(aliases, r, all)
    {
      assert r in aliasOf ==> aliasOf[r] in all;
    }
  }

  /** `remove_backward_refs` */
  method RemoveBackwardRefs(t: Tree, retain: set<NodeId>) returns (all: set<NodeId>)
    modifies t`nodes
    ensures RetainValues(t.aliases, retain + {Unused.HAS_SUBTYPE}, all)
    ensures t.nodes == DropBackward(old(t.nodes), all)
  {
    hide RetainValues;
    all := AllRetainValues(t.aliases, retain + {Unused.HAS_SUBTYPE});
    var todo := t.nodes.Keys;
    while todo != {}
      invariant todo <= t.nodes.Keys == old(t.nodes).Keys
      invariant forall n :: n in t.nodes ==>
        t.nodes[n] == if n in todo then old(t.nodes)[n]
                      else old(t.nodes)[n].(refs := WithoutBackward(old(t.nodes)[n].refs, all))
    {
      var n :| n in todo;
      todo := todo - {n};
      var kept := KeepRefs(t.nodes[n].refs, all);
      t.nodes := t.nodes[n := t.nodes[n].(refs := kept)];
    }
  }

  // ----- What can be restored -----

  /** Every dropped inverse reference comes from a node of the tree. */
  ghost predicate DroppedSourcesKnown(g: Graph, retain: set<NodeId>) {
    forall n, r :: n in g && r in g[n].refs && Dropped(retain, r) ==> r.target in g
  }

  lemma DropBackwardMember(g: Graph, retain: set<NodeId>, n: NodeId, r: Ref)
    requires n in g
    ensures DropBackward(g, retain).Keys == g.Keys
    ensures r in DropBackward(g, retain)[n].refs <==> r in g[n].refs && !Dropped(retain, r)
  {
    WithoutBackwardMembers(g[n].refs, retain);
  }

  /** Forward references and those of the retained types stay, under their NodeId and, if it has one, under an alias; of
      the inverse references only those of types that a text of `retain` names. */
  lemma DropBackwardKeeps(
    g: Graph, aliases: map<NodeId, NodeId>, retain: set<NodeId>, all: set<NodeId>, n: NodeId, r: Ref)
    requires RetainValues(aliases, retain, all) && n in g && r in g[n].refs
    ensures DropBackward(g, all).Keys == g.Keys
    ensures r.forward || r.refType in retain ==> r in DropBackward(g, all)[n].refs
    ensures !r.forward && r in DropBackward(g, all)[n].refs ==>
      exists t :: t in retain && SameName(aliases, r.refType, t)
  {
    hide RetainValues, DropBackward, SameName;
    DropBackwardMember(g, all, n, r);
    RetainedName(aliases, retain, all, r.refType);
  }

  lemma RetainedName(aliases: map<NodeId, NodeId>, retain: set<NodeId>, all: set<NodeId>, x: NodeId)
    requires RetainValues(aliases, retain, all)
    ensures x in retain ==> x in all
    ensures x in all ==> exists t :: t in retain && SameName(aliases, x, t)
  {
    hide AliasIn, SameName;
  }

  /** What sanitizing the reduced tree makes of one reference. */
  lemma RestoredMember(g: Graph, aliases: map<NodeId, NodeId>, retain: set<NodeId>, h: Graph, n: NodeId, r: Ref)
    requires Reciprocal(g) && Resolved(aliases, g)
    requires Sanitized(DropBackward(g, retain), aliases, h)
    requires n in g
    ensures h.Keys == g.Keys
    ensures r in h[n].refs <==> r in g[n].refs && (Dropped(retain, r) ==> r.target in g)
  {
    hide Sanitized, Reciprocal;
    var d := DropBackward(g, retain);
    DropBackwardMember(g, retain, n, r);
    SanitizedKeys(d, aliases, h);
    SanitizedMembers(d, aliases, h);
    DropBackwardResolved(g, aliases, retain);
    ResolvedUnchanged(aliases, d);
    assert r in h[n].refs <==> r in d[n].refs || Missing(d, n, r);
    MissingAfterDrop(g, retain, n, r);
  }

  lemma MissingAfterDrop(g: Graph, retain: set<NodeId>, n: NodeId, r: Ref)
    requires Reciprocal(g) && n in g
    ensures Missing(DropBackward(g, retain), n, r) <==> r in g[n].refs && Dropped(retain, r) && r.target in g
  {
    hide Reciprocal;
    var d := DropBackward(g, retain);
    DropBackwardMember(g, retain, n, r);
    if r.target in g {
      ReciprocalPair(g, n, r);
      DropBackwardMember(g, retain, r.target, Ref(r.refType, n, !r.forward));
    }
  }

  lemma DropBackwardResolved(g: Graph, aliases: map<NodeId, NodeId>, retain: set<NodeId>)
    requires Resolved(aliases, g)
    ensures Resolved(aliases, DropBackward(g, retain))
  {
    forall n, r | n in g && r in DropBackward(g, retain)[n].refs
      ensures r.target !in aliases
    {
      DropBackwardMember(g, retain, n, r);
    }
  }

  lemma ReciprocalPair(g: Graph, n: NodeId, r: Ref)
    requires Reciprocal(g) && n in g && r.target in g
    ensures r in g[n].refs <==> Ref(r.refType, n, !r.forward) in g[r.target].refs
  {
    assert r == Ref(r.refType, r.target, r.forward);
    if r.forward {
      assert Forward(g, n, r.refType, r.target) <==> Inverse(g, n, r.refType, r.target);
    } else {
      assert Forward(g, r.target, r.refType, n) <==> Inverse(g, r.target, r.refType, n);
    }
  }

  /** Dropping backward references and sanitizing again restores the same references, whatever is
      retained, if and only if every dropped reference comes from a known node. */
  lemma DropThenSanitizeRestoresIff(g: Graph, aliases: map<NodeId, NodeId>, retain: set<NodeId>, h: Graph)
    requires Reciprocal(g) && Resolved(aliases, g)
    requires Sanitized(DropBackward(g, retain), aliases, h)
    ensures SameRefs(g, h) <==> DroppedSourcesKnown(g, retain)
  {
    hide Sanitized, Reciprocal, DropBackward, Resolved;
    RestoredKeys(g, aliases, retain, h);
    if SameRefs(g, h) {
      forall n, r | n in g && r in g[n].refs && Dropped(retain, r)
        ensures r.target in g
      {
        assert r in h[n].refs;
        RestoredMember(g, aliases, retain, h, n, r);
      }
    }
    if DroppedSourcesKnown(g, retain) {
      forall n, r | n in g
        ensures r in g[n].refs <==> r in h[n].refs
      {
        RestoredMember(g, aliases, retain, h, n, r);
      }
    }
  }

  lemma RestoredKeys(g: Graph, aliases: map<NodeId, NodeId>, retain: set<NodeId>, h: Graph)
    requires Sanitized(DropBackward(g, retain), aliases, h)
    ensures h.Keys == g.Keys
  {
    hide Sanitized;
    SanitizedKeys(DropBackward(g, retain), aliases, h);
    assert DropBackward(g, retain).Keys == g.Keys;
  }
}

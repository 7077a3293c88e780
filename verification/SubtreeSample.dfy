/** A graph where a descendant with another ancestry is removed in every order, although one of its parents survives. */
module SubtreeSample {
  import opened Basics
  import opened AddressSpace
  import opened Subtree
  import opened SubtreeLevels

  const ROOT := NodeId(1, "s=Root")
  const A := NodeId(1, "s=A")
  const B := NodeId(1, "s=B")
  const P := NodeId(1, "s=P")
  const Q := NodeId(1, "s=Q")
  const C := NodeId(1, "s=C")
  const O := NodeId(1, "s=O")
  const HAS := NodeId(0, "HasComponent")

  function Up(x: NodeId): Ref {
    Ref(HAS, x, false)
  }

  function Down(x: NodeId): Ref {
    Ref(HAS, x, true)
  }

  function Object(refs: seq<Ref>): Node {
    Node(UAObject, refs, None, None)
  }

  /** Root above A and B, A above P, B above Q, P and Q above C, and O above A. */
  function Sample(): Graph {
    map[
      ROOT := Object([Down(A), Down(B)]),
      A := Object([Up(ROOT), Up(O), Down(P)]),
      B := Object([Up(ROOT), Down(Q)]),
      P := Object([Up(A), Down(C)]),
      Q := Object([Up(B), Down(C)]),
      C := Object([Up(P), Up(Q)]),
      O := Object([Down(A)])
    ]
  }

  function Rank(x: NodeId): int {
    if x == A || x == B then 1 else if x == P || x == Q then 2 else if x == C then 3 else 0
  }

  lemma Family()
    ensures var g, h := Sample(), {HAS};
      && Children(g, h, ROOT) == {A, B} && Children(g, h, A) == {P} && Children(g, h, B) == {Q}
      && Children(g, h, P) == {C} && Children(g, h, Q) == {C} && Children(g, h, C) == {} && Children(g, h, O) == {A}
  {
    var g := Sample();
    assert g[ROOT].refs[0] == Down(A) && g[ROOT].refs[1] == Down(B);
    assert g[A].refs[2] == Down(P) && g[B].refs[1] == Down(Q) && g[P].refs[1] == Down(C);
    assert g[Q].refs[1] == Down(C) && g[O].refs[0] == Down(A);
  }

  lemma Ancestors()
    ensures var g, h := Sample(), {HAS};
      && Parents(g, h, A) == {ROOT, O} && Parents(g, h, B) == {ROOT} && Parents(g, h, P) == {A}
      && Parents(g, h, Q) == {B} && Parents(g, h, C) == {P, Q} && Parents(g, h, ROOT) == {} && Parents(g, h, O) == {}
  {
    hide Targets;
    UpTargets([Up(ROOT), Up(O)], [Down(P)]);
    UpTargets([Up(ROOT)], [Down(Q)]);
    UpTargets([Up(A)], [Down(C)]);
    UpTargets([Up(B)], [Down(C)]);
    UpTargets([Up(P), Up(Q)], []);
    UpTargets([], [Down(A), Down(B)]);
    UpTargets([], [Down(A)]);
    assert [Up(ROOT), Up(O)] + [Down(P)] == Sample()[A].refs && [Up(ROOT)] + [Down(Q)] == Sample()[B].refs;
    assert [Up(A)] + [Down(C)] == Sample()[P].refs && [Up(B)] + [Down(C)] == Sample()[Q].refs;
    assert [Up(P), Up(Q)] + [] == Sample()[C].refs;
    assert [] + [Down(A), Down(B)] == Sample()[ROOT].refs && [] + [Down(A)] == Sample()[O].refs;
  }

  /** The targets of at most two references up, followed by references down. */
  lemma UpTargets(up: seq<Ref>, down: seq<Ref>)
    requires |up| <= 2 && (forall r :: r in up ==> r == Up(r.target)) && (forall r :: r in down ==> r == Down(r.target))
    ensures Targets(up + down, {HAS}, false) ==
      if |up| == 0 then {} else if |up| == 1 then {up[0].target} else {up[0].target, up[1].target}
  {
    assert forall r :: r in up + down && !r.forward ==> r in up;
    if |up| > 0 {
      assert up[0] in up + down;
    }
    if |up| > 1 {
      assert up[1] in up + down;
    }
  }

  lemma OnlyHas(n: NodeId, r: Ref)
    requires n in Sample() && r in Sample()[n].refs
    ensures r.refType == HAS
  {
  }

  lemma RefIsFamily(a: NodeId, t: NodeId, b: NodeId)
    requires a in Sample() && b in Sample()
    ensures Forward(Sample(), a, t, b) <==> t == HAS && b in Children(Sample(), {HAS}, a)
    ensures Inverse(Sample(), a, t, b) <==> t == HAS && a in Parents(Sample(), {HAS}, b)
  {
    hide Sample;
    var g := Sample();
    if Forward(g, a, t, b) {
      OnlyHas(a, Ref(t, b, true));
    }
    if Inverse(g, a, t, b) {
      OnlyHas(b, Ref(t, a, false));
    }
    if b in Children(g, {HAS}, a) {
      var r :| r in g[a].refs && r.forward && r.refType in {HAS} && r.target == b;
      assert r == Ref(HAS, b, true);
    }
    if a in Parents(g, {HAS}, b) {
      var r :| r in g[b].refs && !r.forward && r.refType in {HAS} && r.target == a;
      assert r == Ref(HAS, a, false);
    }
  }

  lemma SampleReciprocal()
    ensures Reciprocal(Sample())
  {
    hide Children, Parents, Forward, Inverse;
    forall a, t, b | a in Sample() && b in Sample()
      ensures Forward(Sample(), a, t, b) <==> Inverse(Sample(), a, t, b)
    {
      RefIsFamily(a, t, b);
      ChildIffParent(a, b);
    }
  }

  lemma ChildIffParent(a: NodeId, b: NodeId)
    requires a in Sample() && b in Sample()
    ensures b in Children(Sample(), {HAS}, a) <==> a in Parents(Sample(), {HAS}, b)
  {
    hide Children, Parents;
    Family();
    Ancestors();
    OthersChildless(a);
    OthersChildless(b);
    assert A.text[2] == 'A' && B.text[2] == 'B' && P.text[2] == 'P' && Q.text[2] == 'Q' && C.text[2] == 'C'
           && O.text[2] == 'O' && ROOT.text[2] == 'R';
  }

  lemma ChildRank(n: NodeId, c: NodeId)
    requires c in Children(Sample(), {HAS}, n)
    ensures Rank(c) == Rank(n) + 1 && c != O
  {
    hide Children;
    Family();
    OthersChildless(n);
  }

  lemma OthersChildless(n: NodeId)
    ensures n !in Sample() ==> Children(Sample(), {HAS}, n) == {}
    ensures n in Sample() ==> n == ROOT || n == A || n == B || n == P || n == Q || n == C || n == O
  {
  }

  lemma {:induction false} PathRank(p: seq<NodeId>)
    requires IsPath(Sample(), {HAS}, p) && p[0] == ROOT
    ensures Rank(p[|p| - 1]) == |p| - 1 && p[|p| - 1] != O
    decreases |p|
  {
    hide Children;
    if |p| > 1 {
      PathRank(p[..|p| - 1]);
      ChildRank(p[|p| - 2], p[|p| - 1]);
    }
  }

  lemma DepthRank(x: NodeId, n: nat)
    requires AtDepth(Sample(), {HAS}, ROOT, x, n)
    ensures n == Rank(x)
  {
    var p :| IsPath(Sample(), {HAS}, p) && p[0] == ROOT && p[|p| - 1] == x && |p| == n + 1;
    PathRank(p);
  }

  lemma SampleLevelled()
    ensures Levelled(Sample(), {HAS}, ROOT)
  {
    hide AtDepth;
    forall x, m: nat, n: nat | AtDepth(Sample(), {HAS}, ROOT, x, m) && AtDepth(Sample(), {HAS}, ROOT, x, n)
      ensures m == n
    {
      DepthRank(x, m);
      DepthRank(x, n);
    }
  }

  lemma SampleReachable()
    ensures var g, h := Sample(), {HAS};
      && Reachable(g, h, ROOT, ROOT) && Reachable(g, h, ROOT, A) && Reachable(g, h, ROOT, B)
      && Reachable(g, h, ROOT, P) && Reachable(g, h, ROOT, Q) && !Reachable(g, h, ROOT, O)
  {
    var g, h := Sample(), {HAS};
    Family();
    ReachableSelf(g, h, ROOT);
    ReachableStep(g, h, ROOT, ROOT, A);
    ReachableStep(g, h, ROOT, ROOT, B);
    ReachableStep(g, h, ROOT, A, P);
    ReachableStep(g, h, ROOT, B, Q);
    if Reachable(g, h, ROOT, O) {
      var p :| IsPath(g, h, p) && p[0] == ROOT && p[|p| - 1] == O;
      PathRank(p);
      assert false;
    }
  }

  lemma NextOfOne(p: NodeId, kept: set<NodeId>)
    ensures Next(Sample(), {HAS}, Fate({p}, kept)) == set x | x in Children(Sample(), {HAS}, p) && x in Sample()
  {
    var next := Next(Sample(), {HAS}, Fate({p}, kept));
    assert forall x :: x in next ==> exists q :: q in {p} && x in Children(Sample(), {HAS}, q);
  }

  lemma NotProtected(before: Fate, x: NodeId)
    requires forall q :: q in Parents(Sample(), {HAS}, x) ==> Reachable(Sample(), {HAS}, ROOT, q) && q !in before.kept
    ensures !Protected(Sample(), {HAS}, ROOT, before, x)
  {
  }

  lemma SingleFate(n: nat, before: Fate, x: NodeId)
    requires FateOf(Sample(), {HAS}, ROOT, n) == before && Next(Sample(), {HAS}, before) == {x}
    requires !Protected(Sample(), {HAS}, ROOT, before, x)
    ensures FateOf(Sample(), {HAS}, ROOT, n + 1) == Fate({x}, {})
  {
  }

  /** What becomes of each level. */
  lemma SampleFate()
    ensures var g, h := Sample(), {HAS};
      && FateOf(g, h, ROOT, 1) == Fate({B}, {A})
      && FateOf(g, h, ROOT, 2) == Fate({Q}, {})
      && FateOf(g, h, ROOT, 3) == Fate({C}, {})
  {
    hide Children, Parents, Reachable, Next, Protected;
    Family();
    Ancestors();
    SampleReachable();
    var f0, f1, f2 := Fate({ROOT}, {}), Fate({B}, {A}), Fate({Q}, {});
    FirstFate();
    assert A.text[2] != B.text[2];
    NextOfOne(B, {A});
    NotProtected(f1, Q);
    SingleFate(1, f1, Q);
    NextOfOne(Q, {});
    NotProtected(f2, C);
    SingleFate(2, f2, C);
  }

  lemma FirstFate()
    ensures FateOf(Sample(), {HAS}, ROOT, 1) == Fate({B}, {A})
  {
    hide Children, Parents, Reachable, Next;
    Family();
    Ancestors();
    SampleReachable();
    var g, h, f0 := Sample(), {HAS}, Fate({ROOT}, {});
    NextOfOne(ROOT, {});
    assert Next(g, h, f0) == {A, B};
    assert O in Parents(g, h, A);
    assert Protected(g, h, ROOT, f0, A);
    NotProtected(f0, B);
    assert FateOf(g, h, ROOT, 0) == f0;
  }

  lemma OtherAncestryOfC()
    ensures OtherAncestry(Sample(), {HAS}, ROOT, C)
  {
    hide Reachable, Parents, OtherAncestry;
    var g, h := Sample(), {HAS};
    Ancestors();
    SampleReachable();
    OtherAncestryDirect(g, h, ROOT, A, O);
    OtherAncestryInherited(g, h, ROOT, P, A);
    OtherAncestryInherited(g, h, ROOT, C, P);
  }

  /** C has another ancestry, and its parent P survives, but C is removed whatever the order. */
  lemma OtherAncestryAlwaysRemoved(removed: set<NodeId>)
    requires IsRemoval(Sample(), {HAS}, ROOT, removed)
    ensures Reciprocal(Sample()) && OtherAncestry(Sample(), {HAS}, ROOT, C)
    ensures P in Parents(Sample(), {HAS}, C) && P !in removed && C in removed
  {
    hide Reciprocal, Levelled, IsRemoval, OtherAncestry, Parents, FateOf;
    var g, h := Sample(), {HAS};
    SampleReciprocal();
    SampleLevelled();
    OtherAncestryOfC();
    Ancestors();
    SampleFate();
    LevelledRemovalIff(g, h, ROOT, removed, C);
    assert Doomed(g, h, ROOT, C);
    LevelledRemovalIff(g, h, ROOT, removed, P);
    if Doomed(g, h, ROOT, P) {
      var k: nat :| P in FateOf(g, h, ROOT, k).gone;
      FateDepth(g, h, ROOT, k, P);
      DepthRank(P, k);
      assert false;
    }
  }
}

/** From the schema to the compiled table: the blocks that the generator makes do not cross when no field has a request
    or response type, and then the table holds what the excluded macros leave.
 */
module TypeResult {
  import opened Basics
  import opened TypeLists
  import opened TypeGen
  import opened TypeTable

  /** No type has a field of a request or response type. */
  ghost predicate Separate(s: Schema) {
    Standalone(s) && forall a, x :: x in Needs(s, a) ==> !Boundary(s, x)
  }

  lemma NeededNoBoundary(s: Schema, p: seq<string>)
    requires Separate(s) && IsChain(s, p)
    ensures |p| == 1 || !Boundary(s, p[|p| - 1])
  {
    hide Needs, Boundary;
    assert |p| > 1 ==> p[|p| - 1] in Needs(s, p[|p| - 2]);
  }

  lemma ReachedBoundary(s: Schema, r: string, x: string)
    requires Separate(s) && Boundary(s, x) && Reaches(s, r, x)
    ensures r == x
  {
    hide Needs, Boundary, Separate;
    var p :| IsChain(s, p) && p[0] == r && p[|p| - 1] == x;
    NeededNoBoundary(s, p);
  }

  /** Who asks for a request or a response: only the name of the request. */
  lemma AskedBy(s: Schema, n: string, b: string)
    requires (Begin(b) in Request(s, n) || End(b) in Request(s, n))
    ensures n == Begin(b)
  {
    hide Begin, End;
    if IsPair(s, n) {
      var c := Basename(n, "Request");
      PairName(s, n);
      BoundariesDiffer(b, c);
      BoundariesDiffer(c, b);
    } else if n == End(b) {
      EndsInResponse(b);
    }
  }

  lemma EndsInResponse(b: string)
    ensures EndsWith(End(b), "Response")
  {
    assert End(b)[|End(b)| - |"Response"|..] == "Response";
  }

  lemma RequestedName(s: Schema, names: seq<string>, b: string)
    requires Begin(b) in Requested(s, names) || End(b) in Requested(s, names)
    ensures Begin(b) in names
  {
    hide Begin, End, Request;
    var x :| x in Requested(s, names) && (x == Begin(b) || x == End(b));
    var n :| n in names && x in Request(s, n);
    AskedBy(s, n, b);
  }

  lemma PairRequested(s: Schema, names: seq<string>, b: string)
    requires Begin(b) in names && Begin(b) !in s.skipped && IsPair(s, Begin(b))
    ensures Begin(b) in Requested(s, names) && End(b) in Requested(s, names)
  {
    hide Begin, End;
    PairName(s, Begin(b));
    BoundariesDiffer(b, Basename(Begin(b), "Request"));
    assert {Begin(b), End(b)} == Request(s, Begin(b));
  }

  /** What the generator is asked for: the listed names that are not skipped and are no responses, and the defined
      responses of the listed requests. */
  lemma RequestedIff(s: Schema, x: string)
    ensures x in Requested(s, s.listing) <==>
      || (x in s.listing && x !in s.skipped && !EndsWith(x, "Response"))
      || (exists b :: x == End(b) && Begin(b) in s.listing && Begin(b) !in s.skipped && End(b) in s.definitions)
  {
    hide Begin, End;
    if x in Requested(s, s.listing) {
      var n :| n in s.listing && x in Request(s, n);
      if IsPair(s, n) {
        PairName(s, n);
        RequestEnds(Basename(n, "Request"));
      }
    }
    if b :| x == End(b) && Begin(b) in s.listing && Begin(b) !in s.skipped && End(b) in s.definitions {
      RequestEnds(b);
      BoundariesDiffer(b, Basename(Begin(b), "Request"));
      PairName(s, Begin(b));
      assert x in Request(s, Begin(b));
    }
    if x in s.listing && x !in s.skipped && !EndsWith(x, "Response") {
      assert x in Request(s, x);
    }
  }

  lemma RequestEnds(b: string)
    ensures EndsWith(Begin(b), "Request") && !EndsWith(Begin(b), "Response") && Basename(Begin(b), "Request") == b
  {
    var q := Begin(b);
    assert q[|q| - |"Request"|..] == "Request";
    assert q[|q| - 1] == 't' && "Response"[7] == 'e';
  }

  /** Of a block whose name is among the first k, request and response are declared with them; of another, neither. */
  lemma DeclaredWith(s: Schema, declared: seq<string>, cuts: seq<nat>, k: nat,
                     blockStart: map<string, string>, blockEnd: map<string, string>, b: string)
    requires Staged(s, declared, cuts) && Blocks(s, s.listing, blockStart, blockEnd) && Separate(s) && k <= |s.listing|
    requires b in blockStart.Values
    ensures Begin(b) in s.listing[..k] ==> Begin(b) in declared[..cuts[k]] && End(b) in declared[..cuts[k]]
    ensures Begin(b) !in s.listing[..k] ==> Begin(b) !in declared[..cuts[k]]
  {
    hide Begin, End, Needs, Requested, IsPair, Boundary, Reaches;
    var names, part := s.listing[..k], declared[..cuts[k]];
    assert Stage(s, names, part);
    BlockValues(blockStart, blockEnd, b);
    BlockBoundaries(s, blockStart, blockEnd, b);
    if Begin(b) in names {
      PairRequested(s, names, b);
      assert Known(s, part, Begin(b)) && Known(s, part, End(b));
    } else if Begin(b) in part {
      assert ReachedFrom(s, Requested(s, names), Begin(b));
      var r :| r in Requested(s, names) && Reaches(s, r, Begin(b));
      ReachedBoundary(s, r, Begin(b));
      RequestedName(s, names, b);
    }
  }

  /** One of two different names of a list comes first. */
  lemma {:induction false} OneFirst(list: seq<string>, x: string, y: string) returns (k: nat)
    requires x in list && y in list && x != y
    ensures k <= |list| && (x in list[..k] <==> y !in list[..k])
  {
    if list[0] == x || list[0] == y {
      k := 1;
      assert list[..1] == [list[0]];
    } else {
      assert list == [list[0]] + list[1..];
      k := OneFirst(list[1..], x, y);
      assert list[..k + 1] == [list[0]] + list[1..][..k];
      k := k + 1;
    }
  }

  /** A block whose name comes earlier is declared completely before another block begins. */
  lemma BlocksApart(s: Schema, declared: seq<string>, cuts: seq<nat>, k: nat,
                    blockStart: map<string, string>, blockEnd: map<string, string>, a: string, b: string)
    requires Ordered(s, declared) && Staged(s, declared, cuts) && Blocks(s, s.listing, blockStart, blockEnd) && Separate(s)
    requires k <= |s.listing| && a in blockStart.Values && b in blockStart.Values
    requires Begin(a) in s.listing[..k] && Begin(b) !in s.listing[..k]
    ensures !Precedes(declared, Begin(b), End(a)) && !Precedes(declared, Begin(b), Begin(a))
  {
    hide Begin, End, Needs, Separate, Blocks, Precedes, Stage;
    DeclaredWith(s, declared, cuts, k, blockStart, blockEnd, a);
    DeclaredWith(s, declared, cuts, k, blockStart, blockEnd, b);
    CutOrder(declared, cuts[k], End(a), Begin(b));
    CutOrder(declared, cuts[k], Begin(a), Begin(b));
  }

  lemma GeneratedBlocksApart(s: Schema, declared: seq<string>, cuts: seq<nat>,
                             blockStart: map<string, string>, blockEnd: map<string, string>)
    requires Ordered(s, declared) && Staged(s, declared, cuts) && Blocks(s, s.listing, blockStart, blockEnd) && Separate(s)
    ensures NoCrossing(Structures(s, declared), blockStart.Values)
  {
    hide Begin, End, Needs, Separate, Precedes, Stage, Structures, IsPair;
    var types := Structures(s, declared);
    forall a, b | a in blockStart.Values && b in blockStart.Values
      ensures !Crossing(types, a, b)
    {
      if Crossing(types, a, b) {
        DeclaredPrecede(s, declared, Begin(a), Begin(b));
        DeclaredPrecede(s, declared, Begin(b), End(a));
        BlockValues(blockStart, blockEnd, a);
        BlockValues(blockStart, blockEnd, b);
        NotBothWays(declared, Begin(a), Begin(b));
        var k := OneFirst(s.listing, Begin(a), Begin(b));
        if Begin(a) in s.listing[..k] {
          BlocksApart(s, declared, cuts, k, blockStart, blockEnd, a, b);
        } else {
          BlocksApart(s, declared, cuts, k, blockStart, blockEnd, b, a);
        }
      }
    }
  }

  /** What the generator makes of such a schema is compiled, for every set of excluded names, to the table of the types
      that are neither excluded nor in an excluded block, in order of declaration. */
  method GenerateTable(g: Generator, excluded: set<string>) returns (lines: seq<Line>, ghost types: seq<string>)
    requires g.Valid() && Acyclic(g.schema) && g.declared == [] && g.blockStart == map[] && g.blockEnd == map[]
    requires Separate(g.schema) && forall x :: x in Requested(g.schema, g.schema.listing) ==> !Unresolved(g.schema, x)
    modifies g
    ensures types == g.encodeable && Table(lines, [], excluded) == Some(Visible(types, g.blockStart, excluded, |types|))
  {
    hide Acyclic, Unresolved, Ordered, Requested, Separate, Paired, Balanced, Visible, Staged, Stage, Blocks, AllReached;
    var fatal;
    ghost var cuts;
    fatal, cuts := g.GenHeaderTypes();
    types := g.encodeable;
    lines := GenTypes(g.encodeable, g.blockStart, g.blockEnd);
    SeparateStandalone(g.schema);
    GeneratedBlocksApart(g.schema, g.declared, cuts, g.blockStart, g.blockEnd);
    OrderedDistinct(g.schema, g.declared);
    StructuresDistinct(g.schema, g.declared);
    BlocksNamed(g.schema, g.blockStart, g.blockEnd);
    TableHolds(types, g.blockStart, g.blockEnd, excluded);
  }

  lemma SeparateStandalone(s: Schema)
    requires Separate(s)
    ensures Standalone(s)
  {
  }

  lemma OrderedDistinct(s: Schema, declared: seq<string>)
    requires Ordered(s, declared)
    ensures Distinct(declared)
  {
  }

  lemma BlocksNamed(s: Schema, blockStart: map<string, string>, blockEnd: map<string, string>)
    requires Blocks(s, s.listing, blockStart, blockEnd)
    ensures BlockNames(blockStart, blockEnd)
  {
  }
}

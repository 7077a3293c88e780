/** The order in which gen-sopc-types.py declares the types of a schema. Names are normalised type names. */
module TypeGen {
  import opened Basics
  import opened TypeLists

  datatype Field = Field(typeName: string, sameNamespace: bool)

  datatype Definition = Enumerated | Structured(fields: seq<Field>)

  /** `listing` are the names in the order of the schema, `builtin` the types with a fixed C type,
      `skipped` the predefined types and those without any field. */
  datatype Schema = Schema(
    definitions: map<string, Definition>,
    builtin: set<string>,
    listing: seq<string>,
    skipped: set<string>)

  /** The types that the declaration of `name` mentions and that have to be generated. */
  function Needs(s: Schema, name: string): set<string> {
    if name in s.definitions && s.definitions[name].Structured? then
      set f | f in s.definitions[name].fields && f.sameNamespace && f.typeName !in s.builtin :: f.typeName
    else {}
  }

  ghost predicate IsChain(s: Schema, p: seq<string>) {
    p != [] && forall i :: 0 < i < |p| ==> p[i] in Needs(s, p[i - 1])
  }

  /** No type needs itself, directly or through others. */
  ghost predicate Acyclic(s: Schema) {
    forall p :: IsChain(s, p) ==> Distinct(p)
  }

  ghost predicate Reaches(s: Schema, a: string, b: string) {
    exists p :: IsChain(s, p) && p[0] == a && p[|p| - 1] == b
  }

  lemma ReachesSelf(s: Schema, a: string)
    ensures Reaches(s, a, a)
  {
    assert IsChain(s, [a]);
  }

  lemma ReachesThrough(s: Schema, a: string, b: string, c: string)
    requires b in Needs(s, a) && Reaches(s, b, c)
    ensures Reaches(s, a, c)
  {
    var p :| IsChain(s, p) && p[0] == b && p[|p| - 1] == c;
    var q := [a] + p;
    forall i | 0 < i < |q|
      ensures q[i] in Needs(s, q[i - 1])
    {
      if i > 1 {
        assert p[i - 1] in Needs(s, p[i - 2]);
      }
    }
    assert IsChain(s, q);
  }

  /** A chain of distinct types is no longer than the schema, but for its last type. */
  lemma {:induction false} ChainBounded(p: seq<string>, names: set<string>)
    requires Distinct(p) && forall i :: 0 <= i < |p| ==> p[i] in names
    ensures |p| <= |names|
    decreases |p|
  {
    if p != [] {
      var last := p[|p| - 1];
      ChainBounded(p[..|p| - 1], names - {last});
    }
  }

  /** The types whose declaration is in progress: each one is needed by the one before. */
  ghost predicate InProgress(s: Schema, path: seq<string>) {
    && (path == [] || IsChain(s, path))
    && forall i :: 0 <= i < |path| ==> path[i] in s.definitions.Keys
  }

  /** Type `name` is asked for at the top level or by the last type in progress. */
  ghost predicate AskedFor(s: Schema, path: seq<string>, name: string) {
    name in s.builtin || path == [] || name in Needs(s, path[|path| - 1])
  }

  lemma ProgressMore(s: Schema, path: seq<string>, name: string)
    requires Acyclic(s) && InProgress(s, path) && AskedFor(s, path, name)
    requires name in s.definitions && name !in s.builtin
    ensures InProgress(s, path + [name]) && |path| < |s.definitions|
  {
    var more := path + [name];
    assert IsChain(s, more);
    ChainBounded(more, s.definitions.Keys);
  }

  // ----- Declarations -----

  /** Each type is declared once, is defined by the schema, and comes after all the types it needs. */
  ghost predicate Ordered(s: Schema, declared: seq<string>) {
    && Distinct(declared)
    && forall i :: 0 <= i < |declared| ==>
         && declared[i] in s.definitions && declared[i] !in s.builtin
         && forall x :: x in Needs(s, declared[i]) ==> x in declared[..i]
  }

  lemma OrderedMore(s: Schema, declared: seq<string>, name: string)
    requires Ordered(s, declared) && name !in declared && name in s.definitions && name !in s.builtin
    requires forall x :: x in Needs(s, name) ==> x in declared
    ensures Ordered(s, declared + [name])
  {
    var more := declared + [name];
    forall i | 0 <= i < |more|
      ensures more[i] in s.definitions && more[i] !in s.builtin
      ensures forall x :: x in Needs(s, more[i]) ==> x in more[..i]
    {
      if i < |declared| {
        assert more[..i] == declared[..i];
      } else {
        assert more[..i] == declared;
      }
    }
  }

  predicate Known(s: Schema, declared: seq<string>, name: string) {
    name in s.builtin || name in declared
  }

  /** A declared type only needs declared types, so what it reaches is declared. */
  lemma {:induction false} DeclaredClosed(s: Schema, declared: seq<string>, p: seq<string>)
    requires Ordered(s, declared) && IsChain(s, p) && p[0] in declared
    ensures p[|p| - 1] in declared
    decreases |p|
  {
    if |p| > 1 {
      var front := p[..|p| - 1];
      DeclaredClosed(s, declared, front);
      var i :| 0 <= i < |declared| && declared[i] == front[|front| - 1];
      assert p[|p| - 1] in Needs(s, declared[i]);
    }
  }

  ghost predicate Undefined(s: Schema, name: string) {
    exists x :: Reaches(s, name, x) && x !in s.definitions && x !in s.builtin
  }

  /** The types that cannot be generated: those that need, directly or not, a type without definition. */
  ghost predicate Unresolved(s: Schema, name: string) {
    name !in s.builtin && Undefined(s, name)
  }

  lemma DeclaredDefined(s: Schema, declared: seq<string>, name: string)
    requires Ordered(s, declared) && Known(s, declared, name)
    ensures !Unresolved(s, name)
  {
    if name in s.builtin {
      return;
    }
    forall x | Reaches(s, name, x)
      ensures x in s.definitions
    {
      var p :| IsChain(s, p) && p[0] == name && p[|p| - 1] == x;
      DeclaredClosed(s, declared, p);
      var i :| 0 <= i < |declared| && declared[i] == x;
    }
  }

  /** The structured types, in order of declaration: the encodeable types. */
  function Structures(s: Schema, declared: seq<string>): seq<string> {
    if declared == [] then []
    else
      var last := declared[|declared| - 1];
      Structures(s, declared[..|declared| - 1]) +
      (if last in s.definitions && s.definitions[last].Structured? then [last] else [])
  }

  predicate EndsWith(name: string, suffix: string) {
    |suffix| <= |name| && name[|name| - |suffix|..] == suffix
  }

  function Basename(name: string, suffix: string): string
    requires EndsWith(name, suffix)
  {
    name[..|name| - |suffix|]
  }

  class Generator {
    const schema: Schema
    var declared: seq<string>
    var encodeable: seq<string>
    /** The request types that open, and the response types that close, a block of the generated files. */
    var blockStart: map<string, string>
    var blockEnd: map<string, string>

    constructor (schema: Schema)
      ensures this.schema == schema && Valid() && declared == [] && blockStart == map[] && blockEnd == map[]
    {
      this.schema := schema;
      declared, encodeable, blockStart, blockEnd := [], [], map[], map[];
    }

    ghost predicate Valid()
      reads this
    {
      Ordered(schema, declared) && encodeable == Structures(schema, declared)
    }

    /** `gen_header_type` */
    method GenHeaderType(name: string, ghost path: seq<string>) returns (fatal: bool)
      requires Valid() && Acyclic(schema) && InProgress(schema, path) && AskedFor(schema, path, name)
      modifies this`declared, this`encodeable
      ensures Valid() && old(declared) <= declared
      ensures Known(schema, old(declared), name) ==> !fatal && declared == old(declared)
      ensures !fatal ==> Known(schema, declared, name)
      ensures fatal ==> Unresolved(schema, name)
      ensures forall x :: x in declared[|old(declared)|..] ==> Reaches(schema, name, x)
      decreases |schema.definitions| - |path|
    {
      hide Reaches, Acyclic, Ordered, InProgress, Structures;
      if Known(schema, declared, name) {
        return false;
      }
      ReachesSelf(schema, name);
      if name !in schema.definitions {
        return true;
      }
      if schema.definitions[name].Structured? {
        fatal := GenFields(name, path);
        if fatal {
          return true;
        }
      }
      Declare(name);
      return false;
    }

    /** The declarations of the fields, which come before the structure itself. */
    method GenFields(name: string, ghost path: seq<string>) returns (fatal: bool)
      requires Valid() && Acyclic(schema) && InProgress(schema, path) && AskedFor(schema, path, name)
      requires name in schema.definitions && name !in schema.builtin && name !in declared
      requires schema.definitions[name].Structured?
      modifies this`declared, this`encodeable
      ensures Valid() && old(declared) <= declared && name !in declared
      ensures !fatal ==> forall x :: x in Needs(schema, name) ==> x in declared
      ensures fatal ==> Undefined(schema, name)
      ensures forall x :: x in declared[|old(declared)|..] ==> Reaches(schema, name, x)
      decreases |schema.definitions| - |path|, 0
    {
      hide Reaches, Acyclic, Undefined, Ordered, InProgress;
      ProgressMore(schema, path, name);
      var fields := schema.definitions[name].fields;
      for i := 0 to |fields|
        invariant Valid() && old(declared) <= declared && name !in declared
        invariant forall j :: 0 <= j < i && fields[j].sameNamespace ==> Known(schema, declared, fields[j].typeName)
        invariant forall x :: x in declared[|old(declared)|..] ==> Reaches(schema, name, x)
      {
        var f := fields[i];
        if f.sameNamespace {
          ghost var before := declared;
          fatal := GenHeaderType(f.typeName, path + [name]);
          if f.typeName in schema.builtin {
            continue;
          }
          NewOnes(schema, name, f.typeName, old(declared), before, declared);
          if fatal {
            UndefinedThrough(schema, name, f.typeName);
            return true;
          }
        }
      }
      return false;
    }

    method Declare(name: string)
      requires Valid() && name in schema.definitions && name !in schema.builtin && name !in declared
      requires forall x :: x in Needs(schema, name) ==> x in declared
      modifies this`declared, this`encodeable
      ensures Valid() && declared == old(declared) + [name]
    {
      hide Ordered, Needs;
      OrderedMore(schema, declared, name);
      if schema.definitions[name].Structured? {
        encodeable := encodeable + [name];
      }
      declared := declared + [name];
      assert declared[..|declared| - 1] == old(declared);
    }

    /** `gen_header_pair`: a request, its response, and the block that both belong to; `mid` are the types
        declared when the response comes. */
    method GenHeaderPair(basename: string) returns (fatal: bool, ghost mid: seq<string>)
      requires Valid() && Acyclic(schema)
      modifies this
      ensures Valid() && old(declared) <= mid <= declared
      ensures forall x :: x in mid[|old(declared)|..] ==> Reaches(schema, Begin(basename), x)
      ensures forall x :: x in declared[|mid|..] ==> Reaches(schema, End(basename), x)
      ensures !fatal ==> Known(schema, mid, Begin(basename)) && Known(schema, declared, End(basename))
      ensures fatal ==> Unresolved(schema, Begin(basename)) || Unresolved(schema, End(basename))
      ensures !fatal ==> blockStart == old(blockStart)[Begin(basename) := basename]
      ensures !fatal ==> blockEnd == old(blockEnd)[End(basename) := basename]
    {
      hide Reaches, Acyclic, Unresolved, Ordered, Needs, Structures;
      fatal := GenHeaderType(Begin(basename), []);
      mid := declared;
      if fatal {
        return;
      }
      blockStart := blockStart[Begin(basename) := basename];
      fatal := GenHeaderType(End(basename), []);
      if fatal {
        return;
      }
      blockEnd := blockEnd[End(basename) := basename];
    }

    /** The handling of one name of the schema, after `names`. */
    method GenListed(name: string, ghost names: seq<string>) returns (fatal: bool)
      requires Valid() && Acyclic(schema) && name in schema.listing && Done(schema, names, declared, blockStart, blockEnd)
      modifies this
      ensures Valid() && old(declared) <= declared && AllReached(schema, names + [name], declared)
      ensures !fatal ==> Done(schema, names + [name], declared, blockStart, blockEnd)
      ensures fatal ==> exists x :: x in Request(schema, name) && Unresolved(schema, x)
    {
      hide Reaches, Acyclic, Unresolved, Ordered, Needs, Structures, Done, AllReached, Begin, End;
      fatal := false;
      ghost var before := declared;
      if name in schema.skipped {
        DoneSkipped(schema, names, name, before, blockStart, blockEnd);
      } else if IsPair(schema, name) {
        var b := Basename(name, "Request");
        ghost var starts, ends := blockStart, blockEnd;
        ghost var mid;
        fatal, mid := GenHeaderPair(b);
        DonePair(schema, names, name, b, before, mid, declared, starts, ends);
      } else if EndsWith(name, "Response") {
        DoneSkipped(schema, names, name, before, blockStart, blockEnd);
      } else {
        fatal := GenHeaderType(name, []);
        DoneOne(schema, names, name, before, declared, blockStart, blockEnd);
      }
    }

    /** `gen_header_types`: all the types of the schema, each after the types it needs; the first `cuts[i]` types are
        those of the first i names. */
    method GenHeaderTypes() returns (fatal: bool, ghost cuts: seq<nat>)
      requires Valid() && Acyclic(schema) && declared == [] && blockStart == map[] && blockEnd == map[]
      modifies this
      ensures Valid() && AllReached(schema, schema.listing, declared)
      ensures !fatal ==> forall x :: x in Requested(schema, schema.listing) ==> Known(schema, declared, x)
      ensures fatal <==> exists x :: x in Requested(schema, schema.listing) && Unresolved(schema, x)
      ensures !fatal ==> Blocks(schema, schema.listing, blockStart, blockEnd) && Staged(schema, declared, cuts)
      ensures !fatal && Standalone(schema) ==>
        Paired(encodeable, blockStart, blockEnd) && Balanced(ListLines(encodeable, blockStart, blockEnd))
    {
      hide Reaches, Acyclic, Unresolved, Ordered, Needs, Structures, Done, AllReached, Requested, Standalone, Paired, Balanced, Stage;
      fatal := false;
      var names := schema.listing;
      DoneNothing(schema);
      cuts := [0];
      DoneStage(schema, names[..0], declared, blockStart, blockEnd);
      for i := 0 to |names|
        invariant Valid() && !fatal && Done(schema, names[..i], declared, blockStart, blockEnd)
        invariant StagedUpTo(schema, declared, cuts, i)
      {
        assert names[..i + 1] == names[..i] + [names[i]];
        ghost var before := declared;
        fatal := GenListed(names[i], names[..i]);
        if fatal {
          RequestedPart(schema, names, i);
          return;
        }
        DoneStage(schema, names[..i + 1], declared, blockStart, blockEnd);
        StagedMore(schema, before, declared, cuts, i);
        cuts := cuts + [|declared|];
      }
      assert names[..|names|] == names;
      DoneAll(schema, declared, blockStart, blockEnd);
    }
  }

  predicate IsPair(s: Schema, name: string) {
    EndsWith(name, "Request") && End(Basename(name, "Request")) in s.definitions
  }

  lemma PairName(s: Schema, name: string)
    requires IsPair(s, name)
    ensures name == Begin(Basename(name, "Request"))
  {
  }

  /** What the generator asks for when it meets `name` in the schema. A response is generated with its
      request, or not at all. */
  function Request(s: Schema, name: string): set<string> {
    if name in s.skipped then {}
    else if IsPair(s, name) then {name, End(Basename(name, "Request"))}
    else if EndsWith(name, "Response") then {}
    else {name}
  }

  function Requested(s: Schema, names: seq<string>): set<string> {
    set n, x | n in names && x in Request(s, n) :: x
  }

  lemma RequestedMore(s: Schema, names: seq<string>, name: string)
    ensures Requested(s, names + [name]) == Requested(s, names) + Request(s, name)
  {
    hide Request;
  }

  ghost predicate ReachedFrom(s: Schema, roots: set<string>, x: string) {
    exists r :: r in roots && Reaches(s, r, x)
  }

  ghost predicate AllReached(s: Schema, names: seq<string>, declared: seq<string>) {
    forall x :: x in declared ==> ReachedFrom(s, Requested(s, names), x)
  }

  lemma RequestedPart(s: Schema, names: seq<string>, i: nat)
    requires i < |names|
    ensures Request(s, names[i]) <= Requested(s, names)
    ensures forall declared :: AllReached(s, names[..i + 1], declared) ==> AllReached(s, names, declared)
  {
    hide Reaches, Request;
    assert Requested(s, names[..i + 1]) <= Requested(s, names);
  }

  // ----- What is done after the first names of the schema -----

  /** The blocks: one for each request with a response, from the request to the response. */
  ghost predicate Blocks(s: Schema, names: seq<string>, blockStart: map<string, string>, blockEnd: map<string, string>) {
    && (forall n :: n in blockStart <==> n in names && n !in s.skipped && IsPair(s, n))
    && BlockNames(blockStart, blockEnd)
  }

  /** The type begins or ends a block. */
  predicate Boundary(s: Schema, x: string) {
    exists n | n in s.listing :: n !in s.skipped && IsPair(s, n) && (x == n || x == End(Basename(n, "Request")))
  }

  /** The type ends a block. */
  predicate Closing(s: Schema, x: string) {
    exists n | n in s.listing :: n !in s.skipped && IsPair(s, n) && x == End(Basename(n, "Request"))
  }

  /** Requests and responses are structures, and no type has a field of a response type. */
  ghost predicate Standalone(s: Schema) {
    && (forall a, x :: x in Needs(s, a) ==> !Closing(s, x))
    && (forall x :: Boundary(s, x) ==> x !in s.builtin && (x in s.definitions ==> s.definitions[x].Structured?))
  }

  /** Blocks begin before they end, and the other responses are still to come. */
  ghost predicate InOrder(s: Schema, declared: seq<string>, blockStart: map<string, string>) {
    && (forall b :: b in blockStart.Values ==> Precedes(declared, Begin(b), End(b)))
    && (forall x :: x in declared && Closing(s, x) ==> exists b :: b in blockStart.Values && x == End(b))
  }

  ghost predicate Done(
    s: Schema, names: seq<string>, declared: seq<string>, blockStart: map<string, string>, blockEnd: map<string, string>)
  {
    && AllReached(s, names, declared)
    && (forall x :: x in Requested(s, names) ==> Known(s, declared, x))
    && Blocks(s, names, blockStart, blockEnd)
    && (Standalone(s) ==> InOrder(s, declared, blockStart))
  }

  lemma UndefinedThrough(s: Schema, a: string, b: string)
    requires b in Needs(s, a) && Undefined(s, b)
    ensures Undefined(s, a)
  {
    var x :| Reaches(s, b, x) && x !in s.definitions && x !in s.builtin;
    ReachesThrough(s, a, b, x);
  }

  /** What a needed type brings in is reached by the type that needs it, which is not among it. */
  lemma NewOnes(s: Schema, a: string, b: string, old': seq<string>, before: seq<string>, after: seq<string>)
    requires Acyclic(s) && b in Needs(s, a) && old' <= before <= after && a !in before
    requires forall x :: x in before[|old'|..] ==> Reaches(s, a, x)
    requires forall x :: x in after[|before|..] ==> Reaches(s, b, x)
    ensures a !in after
    ensures forall x :: x in after[|old'|..] ==> Reaches(s, a, x)
  {
    assert after == before + after[|before|..];
    assert after[|old'|..] == before[|old'|..] + after[|before|..];
    forall x | x in after[|before|..]
      ensures Reaches(s, a, x) && x != a
    {
      ReachesThrough(s, a, b, x);
      var p :| IsChain(s, p) && p[0] == b && p[|p| - 1] == x;
      var q := [a] + p;
      forall i | 0 < i < |q|
        ensures q[i] in Needs(s, q[i - 1])
      {
        if i > 1 {
          assert p[i - 1] in Needs(s, p[i - 2]);
        }
      }
      assert IsChain(s, q);
      assert q[0] != q[|q| - 1];
    }
  }

  lemma {:induction false} StructuresDistinct(s: Schema, declared: seq<string>)
    requires Distinct(declared)
    ensures Distinct(Structures(s, declared))
    ensures forall x :: x in Structures(s, declared) <==> x in declared && x in s.definitions && s.definitions[x].Structured?
  {
    if declared != [] {
      var front, last := declared[..|declared| - 1], declared[|declared| - 1];
      StructuresDistinct(s, front);
      assert declared == front + [last];
    }
  }

  /** Whatever is excluded, C accepts the generated enumeration and the generated table if and only if their
      conditions are balanced; then the value of a type is its position in the table, and the size of the
      enumeration is the size of the table. */
  lemma TypeIndexIsTablePosition(
    s: Schema, declared: seq<string>, blockStart: map<string, string>, blockEnd: map<string, string>, excluded: set<string>)
    requires Ordered(s, declared)
    ensures
      var lines := ListLines(Structures(s, declared), blockStart, blockEnd);
      var table, index := Table(lines, [], excluded), Enumerate(lines, [], excluded, 0, map[]);
      && (table.Some? <==> Balanced(lines)) && (index.Some? <==> Balanced(lines))
      && (Balanced(lines) ==>
            && index.value.1 == |table.value|
            && forall k :: 0 <= k < |table.value| ==>
                 table.value[k] in index.value.0 && index.value.0[table.value[k]] == k)
  {
    var types := Structures(s, declared);
    StructuresDistinct(s, declared);
    ListItems(types, blockStart, blockEnd);
    IndexIsPosition(ListLines(types, blockStart, blockEnd), [], excluded, 0, map[]);
  }

  /** Exactly what the names ask for and need is declared. */
  ghost predicate Stage(s: Schema, names: seq<string>, declared: seq<string>) {
    AllReached(s, names, declared) && forall x :: x in Requested(s, names) ==> Known(s, declared, x)
  }

  ghost predicate StagedUpTo(s: Schema, declared: seq<string>, cuts: seq<nat>, n: nat) {
    && |cuts| == n + 1 && n <= |s.listing|
    && forall i :: 0 <= i <= n ==> cuts[i] <= |declared| && Stage(s, s.listing[..i], declared[..cuts[i]])
  }

  ghost predicate Staged(s: Schema, declared: seq<string>, cuts: seq<nat>) {
    StagedUpTo(s, declared, cuts, |s.listing|)
  }

  lemma DoneStage(
    s: Schema, names: seq<string>, declared: seq<string>, blockStart: map<string, string>, blockEnd: map<string, string>)
    requires Done(s, names, declared, blockStart, blockEnd)
    ensures Stage(s, names, declared)
  {
  }

  lemma StagedMore(s: Schema, before: seq<string>, declared: seq<string>, cuts: seq<nat>, n: nat)
    requires StagedUpTo(s, before, cuts, n) && before <= declared && n < |s.listing| && Stage(s, s.listing[..n + 1], declared)
    ensures StagedUpTo(s, declared, cuts + [|declared|], n + 1)
  {
    hide Stage;
    assert declared[..|declared|] == declared;
    assert forall i :: 0 <= i <= n ==> declared[..cuts[i]] == before[..cuts[i]];
  }

  // ----- One more name of the schema -----

  lemma DoneNothing(s: Schema)
    ensures Done(s, [], [], map[], map[])
  {
    assert Requested(s, []) == {};
    var none: map<string, string> := map[];
    assert none.Values == {};
  }

  lemma ReachedMore(s: Schema, names: seq<string>, name: string, before: seq<string>, more: seq<string>, root: string)
    requires AllReached(s, names + [name], before) && root in Request(s, name)
    requires forall x :: x in more ==> Reaches(s, root, x)
    ensures AllReached(s, names + [name], before + more)
  {
    hide Reaches, Request;
    RequestedMore(s, names, name);
  }

  lemma ReachedStill(s: Schema, names: seq<string>, name: string, declared: seq<string>)
    requires AllReached(s, names, declared)
    ensures AllReached(s, names + [name], declared)
  {
    hide Reaches, Request;
    RequestedMore(s, names, name);
    forall x | x in declared
      ensures ReachedFrom(s, Requested(s, names + [name]), x)
    {
      var r :| r in Requested(s, names) && Reaches(s, r, x);
      assert r in Requested(s, names + [name]);
    }
  }

  lemma DoneSkipped(
    s: Schema, names: seq<string>, name: string, declared: seq<string>, blockStart: map<string, string>, blockEnd: map<string, string>)
    requires Done(s, names, declared, blockStart, blockEnd)
    requires name in s.skipped || (!IsPair(s, name) && EndsWith(name, "Response"))
    ensures Done(s, names + [name], declared, blockStart, blockEnd) && AllReached(s, names + [name], declared)
  {
    hide InOrder, Standalone, Requested, BlockNames, IsPair, AllReached;
    RequestedMore(s, names, name);
    ReachedStill(s, names, name, declared);
  }

  lemma NextNeeded(s: Schema, p: seq<string>, i: int)
    requires IsChain(s, p)
    ensures 0 < i < |p| ==> p[i] in Needs(s, p[i - 1])
  {
  }

  /** A response is reached from nothing but itself. */
  lemma ClosingReached(s: Schema, a: string, x: string)
    requires Standalone(s) && Reaches(s, a, x) && Closing(s, x)
    ensures x == a
  {
    hide Closing, Boundary;
    var p :| IsChain(s, p) && p[0] == a && p[|p| - 1] == x;
    NextNeeded(s, p, |p| - 1);
  }

  lemma PrecedesMore(types: seq<string>, more: seq<string>, a: string, b: string)
    requires Precedes(types, a, b)
    ensures Precedes(types + more, a, b)
  {
    var i, j :| 0 <= i < j < |types| && types[i] == a && types[j] == b;
    assert (types + more)[i] == a && (types + more)[j] == b;
  }

  /** Types that bring in no new response change nothing about the order of blocks. */
  lemma InOrderMore(s: Schema, before: seq<string>, more: seq<string>, blockStart: map<string, string>)
    requires InOrder(s, before, blockStart)
    requires forall x :: x in more && Closing(s, x) ==> exists b :: b in blockStart.Values && x == End(b)
    ensures InOrder(s, before + more, blockStart)
  {
    hide Precedes, Closing, Begin, End;
    forall b | b in blockStart.Values
      ensures Precedes(before + more, Begin(b), End(b))
    {
      PrecedesMore(before, more, Begin(b), End(b));
    }
  }

  lemma OnlyClosing(s: Schema, root: string, more: seq<string>)
    requires Standalone(s) && forall x :: x in more ==> Reaches(s, root, x)
    ensures forall x :: x in more && Closing(s, x) ==> x == root
  {
    hide Standalone, Reaches, Closing;
    forall x | x in more && Closing(s, x)
      ensures x == root
    {
      ClosingReached(s, root, x);
    }
  }

  lemma ClosingEnds(s: Schema, x: string)
    requires Closing(s, x)
    ensures EndsWith(x, "Response")
  {
  }

  lemma DoneOne(
    s: Schema, names: seq<string>, name: string, before: seq<string>, after: seq<string>,
    blockStart: map<string, string>, blockEnd: map<string, string>)
    requires Done(s, names, before, blockStart, blockEnd) && before <= after
    requires name !in s.skipped && !IsPair(s, name) && !EndsWith(name, "Response")
    requires forall x :: x in after[|before|..] ==> Reaches(s, name, x)
    ensures AllReached(s, names + [name], after)
    ensures Known(s, after, name) ==> Done(s, names + [name], after, blockStart, blockEnd)
    ensures name in Request(s, name)
  {
    hide InOrder, Standalone, Requested, BlockNames, IsPair, AllReached, Reaches, EndsWith, Closing;
    var more := after[|before|..];
    assert after == before + more;
    RequestedMore(s, names, name);
    ReachedStill(s, names, name, before);
    ReachedMore(s, names, name, before, more, name);
    if Standalone(s) {
      if Closing(s, name) {
        ClosingEnds(s, name);
      }
      OnlyClosing(s, name, more);
      InOrderMore(s, before, more, blockStart);
    }
  }

  /** The two boundaries of a listed pair. */
  lemma PairBoundaries(s: Schema, name: string, b: string)
    requires name in s.listing && name !in s.skipped && IsPair(s, name) && b == Basename(name, "Request")
    ensures name == Begin(b) && Boundary(s, Begin(b)) && Boundary(s, End(b)) && Closing(s, End(b))
    ensures Request(s, name) == {Begin(b), End(b)}
  {
    PairName(s, name);
  }

  lemma BlocksPair(
    s: Schema, names: seq<string>, name: string, b: string, blockStart: map<string, string>, blockEnd: map<string, string>)
    requires Blocks(s, names, blockStart, blockEnd) && name !in s.skipped && IsPair(s, name) && name == Begin(b)
    ensures var starts, ends := blockStart[Begin(b) := b], blockEnd[End(b) := b];
      Blocks(s, names + [name], starts, ends) && starts.Values == blockStart.Values + {b}
  {
    hide Begin, End, IsPair;
    BlockValues(blockStart, blockEnd, b);
    var starts, ends := blockStart[Begin(b) := b], blockEnd[End(b) := b];
    ValuesMore(blockStart, Begin(b), b);
    ValuesMore(blockEnd, End(b), b);
  }

  lemma ValuesMore(m: map<string, string>, k: string, v: string)
    requires k in m ==> m[k] == v
    ensures m[k := v].Values == m.Values + {v}
  {
    var n := m[k := v];
    forall x | x in m.Values + {v}
      ensures x in n.Values
    {
      if x == v {
        assert n[k] == v;
      } else {
        var l :| l in m && m[l] == x;
        assert n[l] == x;
      }
    }
  }

  lemma DonePair(
    s: Schema, names: seq<string>, name: string, b: string, before: seq<string>, mid: seq<string>, after: seq<string>,
    blockStart: map<string, string>, blockEnd: map<string, string>)
    requires Done(s, names, before, blockStart, blockEnd) && before <= mid <= after
    requires name in s.listing && name !in s.skipped && IsPair(s, name) && b == Basename(name, "Request")
    requires forall x :: x in mid[|before|..] ==> Reaches(s, Begin(b), x)
    requires forall x :: x in after[|mid|..] ==> Reaches(s, End(b), x)
    ensures AllReached(s, names + [name], after)
    ensures Known(s, mid, Begin(b)) && Known(s, after, End(b)) ==>
      Done(s, names + [name], after, blockStart[Begin(b) := b], blockEnd[End(b) := b])
    ensures Begin(b) in Request(s, name) && End(b) in Request(s, name)
  {
    hide InOrder, Standalone, Requested, IsPair, AllReached, Reaches, EndsWith, Boundary, Closing, Begin, End, Request, Blocks;
    var first, second := mid[|before|..], after[|mid|..];
    assert mid == before + first && after == mid + second;
    PairBoundaries(s, name, b);
    RequestedMore(s, names, name);
    ReachedStill(s, names, name, before);
    ReachedMore(s, names, name, before, first, Begin(b));
    ReachedMore(s, names, name, mid, second, End(b));
    if Known(s, mid, Begin(b)) && Known(s, after, End(b)) {
      BlocksPair(s, names, name, b, blockStart, blockEnd);
      if Standalone(s) {
        InOrderPair(s, b, before, first, second, blockStart, blockStart[Begin(b) := b]);
      }
    }
  }

  lemma InOrderPair(
    s: Schema, b: string, before: seq<string>, first: seq<string>, second: seq<string>,
    blockStart: map<string, string>, starts: map<string, string>)
    requires Standalone(s) && InOrder(s, before, blockStart) && starts.Values == blockStart.Values + {b}
    requires Boundary(s, Begin(b)) && Boundary(s, End(b)) && Closing(s, End(b))
    requires forall x :: x in first ==> Reaches(s, Begin(b), x)
    requires forall x :: x in second ==> Reaches(s, End(b), x)
    requires Known(s, before + first, Begin(b)) && Known(s, before + first + second, End(b))
    ensures InOrder(s, before + first + second, starts)
  {
    hide Reaches, Boundary, Closing, Begin, End, Precedes, Needs;
    OnlyClosing(s, Begin(b), first);
    OnlyClosing(s, End(b), second);
    BoundariesDiffer(b, b);
    BeginDoesNotClose(s, b);
    var after := before + first + second;
    assert after == before + (first + second);
    forall c | c in starts.Values
      ensures Precedes(after, Begin(c), End(c))
    {
      if c in blockStart.Values {
        PrecedesMore(before, first + second, Begin(c), End(c));
      } else {
        NotDeclaredYet(s, b, before, blockStart);
        assert Begin(b) in before + first && End(b) in second;
        PrecedesAcross(before + first, second, Begin(b), End(b));
      }
    }
  }

  lemma BeginDoesNotClose(s: Schema, b: string)
    ensures !Closing(s, Begin(b))
  {
    forall n | n in s.listing && IsPair(s, n)
      ensures Begin(b) != End(Basename(n, "Request"))
    {
      BoundariesDiffer(b, Basename(n, "Request"));
    }
  }

  lemma NotDeclaredYet(s: Schema, b: string, before: seq<string>, blockStart: map<string, string>)
    requires InOrder(s, before, blockStart) && Closing(s, End(b)) && b !in blockStart.Values
    ensures End(b) !in before
  {
    hide Closing, Begin, End, Precedes;
    forall c | c in blockStart.Values
      ensures End(b) != End(c)
    {
      BoundariesDiffer(b, c);
    }
  }

  lemma PrecedesAcross(a: seq<string>, b: seq<string>, x: string, y: string)
    requires x in a && y in b
    ensures Precedes(a + b, x, y)
  {
    var i :| 0 <= i < |a| && a[i] == x;
    var j :| 0 <= j < |b| && b[j] == y;
    assert (a + b)[i] == x && (a + b)[|a| + j] == y;
  }

  // ----- All names of the schema -----

  lemma {:induction false} StructuresPrecede(s: Schema, declared: seq<string>, a: string, b: string)
    requires Precedes(declared, a, b)
    requires a in s.definitions && s.definitions[a].Structured? && b in s.definitions && s.definitions[b].Structured?
    ensures Precedes(Structures(s, declared), a, b)
    decreases |declared|
  {
    hide Precedes;
    if declared == [] {
      PrecedesMembers(declared, a, b);
      assert false;
    } else {
      var front, last := declared[..|declared| - 1], declared[|declared| - 1];
      assert declared == front + [last];
      PrecedesSnoc(front, last, a, b);
      var types := Structures(s, front);
      if Precedes(front, a, b) {
        StructuresPrecede(s, front, a, b);
        PrecedesMore(types, Structures(s, declared)[|types|..], a, b);
        assert types + Structures(s, declared)[|types|..] == Structures(s, declared);
      } else {
        StructuresMember(s, front, a);
        PrecedesAcross(types, [b], a, b);
      }
    }
  }

  lemma {:induction false} StructuresMember(s: Schema, declared: seq<string>, a: string)
    requires a in declared && a in s.definitions && s.definitions[a].Structured?
    ensures a in Structures(s, declared)
  {
    var front, last := declared[..|declared| - 1], declared[|declared| - 1];
    assert declared == front + [last];
    if a != last {
      StructuresMember(s, front, a);
    }
  }

  lemma DoneAll(s: Schema, declared: seq<string>, blockStart: map<string, string>, blockEnd: map<string, string>)
    requires Done(s, s.listing, declared, blockStart, blockEnd) && Ordered(s, declared)
    ensures AllReached(s, s.listing, declared) && Blocks(s, s.listing, blockStart, blockEnd)
    ensures forall x :: x in Requested(s, s.listing) ==> Known(s, declared, x) && !Unresolved(s, x)
    ensures Standalone(s) ==>
      var types := Structures(s, declared);
      Paired(types, blockStart, blockEnd) && Balanced(ListLines(types, blockStart, blockEnd))
  {
    hide Requested, Unresolved, Needs, IsPair, Paired, Balanced;
    forall x | x in Requested(s, s.listing)
      ensures !Unresolved(s, x)
    {
      DeclaredDefined(s, declared, x);
    }
    if Standalone(s) {
      BlocksPaired(s, declared, blockStart, blockEnd);
    }
  }

  lemma BlocksPaired(s: Schema, declared: seq<string>, blockStart: map<string, string>, blockEnd: map<string, string>)
    requires Standalone(s) && InOrder(s, declared, blockStart) && Ordered(s, declared)
    requires Blocks(s, s.listing, blockStart, blockEnd)
    ensures var types := Structures(s, declared);
      Paired(types, blockStart, blockEnd) && Balanced(ListLines(types, blockStart, blockEnd))
  {
    hide Needs, Precedes, Paired, Balanced, Begin, End, BlockNames, Structures;
    var types := Structures(s, declared);
    forall b | b in blockStart.Values
      ensures Precedes(types, Begin(b), End(b))
    {
      BlockBoundaries(s, blockStart, blockEnd, b);
      PrecedesMembers(declared, Begin(b), End(b));
      assert Begin(b) in s.definitions && End(b) in s.definitions by {
        DeclaredIn(s, declared, Begin(b));
        DeclaredIn(s, declared, End(b));
      }
      StructuresPrecede(s, declared, Begin(b), End(b));
    }
    StructuresDistinct(s, declared);
    PairedIff(types, blockStart, blockEnd);
    PairedBalanced(types, blockStart, blockEnd);
  }

  lemma DeclaredIn(s: Schema, declared: seq<string>, x: string)
    requires Ordered(s, declared) && x in declared
    ensures x in s.definitions
  {
    hide Needs;
    var i :| 0 <= i < |declared| && declared[i] == x;
  }

  lemma BlockBoundaries(s: Schema, blockStart: map<string, string>, blockEnd: map<string, string>, b: string)
    requires Blocks(s, s.listing, blockStart, blockEnd) && b in blockStart.Values
    ensures Boundary(s, Begin(b)) && Boundary(s, End(b))
  {
    BlockValues(blockStart, blockEnd, b);
    var n := Begin(b);
    PairBoundaries(s, n, Basename(n, "Request"));
    BoundariesDiffer(b, Basename(n, "Request"));
  }

  // ----- Responses that come first -----

  lemma OrderedPart(s: Schema, declared: seq<string>, n: nat)
    requires Ordered(s, declared) && n <= |declared|
    ensures Ordered(s, declared[..n])
  {
    hide Needs;
    var part := declared[..n];
    assert forall i :: 0 <= i < n ==> part[..i] == declared[..i];
  }

  /** In a list without repetitions, a type that is in a prefix precedes one that is not. */
  lemma CutOrder(declared: seq<string>, n: nat, a: string, b: string)
    requires Distinct(declared) && n <= |declared| && a in declared[..n] && b !in declared[..n]
    ensures !Precedes(declared, b, a)
  {
    var k :| 0 <= k < n && declared[k] == a;
    forall i, j | 0 <= i < j < |declared| && declared[j] == a
      ensures declared[i] != b
    {
      assert j == k;
      assert declared[i] in declared[..n];
    }
  }

  lemma {:induction false} DeclaredPrecede(s: Schema, declared: seq<string>, a: string, b: string)
    requires Precedes(Structures(s, declared), a, b)
    ensures Precedes(declared, a, b)
    decreases |declared|
  {
    hide Precedes;
    if declared == [] {
      PrecedesMembers(Structures(s, declared), a, b);
      assert false;
    } else {
      var front, last := declared[..|declared| - 1], declared[|declared| - 1];
      assert declared == front + [last];
      PrecedesSnoc(front, last, a, b);
      var types := Structures(s, front);
      PrecedesSnoc(types, last, a, b);
      if Structures(s, declared) == types || Precedes(types, a, b) {
        assert Structures(s, declared) == types ==> Precedes(types, a, b);
        DeclaredPrecede(s, front, a, b);
      } else {
        assert Structures(s, declared) == types + [last];
        StructuresSubset(s, front, a);
      }
    }
  }

  lemma {:induction false} StructuresSubset(s: Schema, declared: seq<string>, a: string)
    requires a in Structures(s, declared)
    ensures a in declared
  {
    var front, last := declared[..|declared| - 1], declared[|declared| - 1];
    assert declared == front + [last];
    if a in Structures(s, front) {
      StructuresSubset(s, front, a);
    }
  }

  /** A block whose response is declared among the first n types, and its request not, is not paired. */
  lemma ResponseInPart(
    s: Schema, declared: seq<string>, n: nat, blockStart: map<string, string>, blockEnd: map<string, string>, b: string)
    requires Ordered(s, declared) && Blocks(s, s.listing, blockStart, blockEnd) && b in blockStart.Values
    requires n <= |declared| && End(b) in declared[..n] && Begin(b) !in declared[..n]
    requires End(b) in s.definitions && s.definitions[End(b)].Structured?
    ensures !Paired(Structures(s, declared), blockStart, blockEnd)
  {
    hide Precedes, Needs, Begin, End, IsPair, Paired, Structures, BlockNames;
    CutOrder(declared, n, End(b), Begin(b));
    var types := Structures(s, declared);
    StructuresDistinct(s, declared);
    PairedIff(types, blockStart, blockEnd);
    assert declared[..n] <= declared && End(b) in declared;
    StructuresMember(s, declared, End(b));
    if Precedes(types, Begin(b), End(b)) {
      DeclaredPrecede(s, declared, Begin(b), End(b));
    }
  }

  /** A response that the first i names of the schema reach, while they do not reach its request, ends its block before
      the block begins. */
  lemma EarlyResponse(
    s: Schema, declared: seq<string>, cuts: seq<nat>, blockStart: map<string, string>, blockEnd: map<string, string>,
    b: string, i: nat, root: string)
    requires Ordered(s, declared) && Staged(s, declared, cuts) && Blocks(s, s.listing, blockStart, blockEnd)
    requires b in blockStart.Values && End(b) in s.definitions && s.definitions[End(b)].Structured?
    requires i <= |s.listing| && root in Requested(s, s.listing[..i]) && root !in s.builtin && Reaches(s, root, End(b))
    requires !ReachedFrom(s, Requested(s, s.listing[..i]), Begin(b))
    ensures !Paired(Structures(s, declared), blockStart, blockEnd)
  {
    hide Needs, Paired, Structures, Requested, Begin, End, Blocks;
    var part := declared[..cuts[i]];
    assert Stage(s, s.listing[..i], part);
    OrderedPart(s, declared, cuts[i]);
    var p :| IsChain(s, p) && p[0] == root && p[|p| - 1] == End(b);
    DeclaredClosed(s, part, p);
    ResponseInPart(s, declared, cuts[i], blockStart, blockEnd, b);
  }

  /** A request that needs its own response, directly or not, comes after it. */
  lemma NeededResponse(
    s: Schema, declared: seq<string>, blockStart: map<string, string>, blockEnd: map<string, string>, b: string)
    requires Ordered(s, declared) && Blocks(s, s.listing, blockStart, blockEnd) && b in blockStart.Values
    requires End(b) in s.definitions && s.definitions[End(b)].Structured?
    requires Begin(b) in declared && Reaches(s, Begin(b), End(b))
    ensures !Paired(Structures(s, declared), blockStart, blockEnd)
  {
    hide Needs, Paired, Structures, Begin, End, Blocks;
    var n :| 0 <= n < |declared| && declared[n] == Begin(b);
    var p :| IsChain(s, p) && p[0] == Begin(b) && p[|p| - 1] == End(b);
    assert |p| > 1 by {
      BoundariesDiffer(b, b);
    }
    OrderedPart(s, declared, n);
    NextNeeded(s, p, 1);
    assert p[1] in Needs(s, declared[n]);
    var rest := p[1..];
    assert IsChain(s, rest) by {
      assert forall i :: 0 < i < |rest| ==> rest[i] == p[i + 1] && rest[i - 1] == p[i];
    }
    DeclaredClosed(s, declared[..n], rest);
    ResponseInPart(s, declared, n, blockStart, blockEnd, b);
  }

  // ----- A schema whose blocks are not in order -----

  /** T has a field of type XResponse, and comes first. */
  function Embedding(): Schema {
    Schema(
      map[
        "T" := Structured([Field("XResponse", true)]),
        "XRequest" := Structured([Field("Int32", false)]),
        "XResponse" := Structured([Field("Int32", false)])],
      {}, ["T", "XRequest", "XResponse"], {})
  }

  lemma EmbeddingNeeds(a: string)
    ensures Needs(Embedding(), a) == if a == "T" then {"XResponse"} else {}
  {
    var s := Embedding();
    if a == "T" {
      var f := Field("XResponse", true);
      assert f in s.definitions[a].fields;
    }
  }

  /** Chains of needs in this schema have at most two types. */
  lemma EmbeddingChain(p: seq<string>)
    requires IsChain(Embedding(), p)
    ensures |p| == 1 || p == ["T", "XResponse"]
  {
    if |p| > 1 {
      EmbeddingNeeds(p[0]);
      EmbeddingNeeds(p[1]);
      NextNeeded(Embedding(), p, 1);
      NextNeeded(Embedding(), p, 2);
    }
  }

  lemma EmbeddingAcyclic()
    ensures Acyclic(Embedding())
  {
    forall p | IsChain(Embedding(), p)
      ensures Distinct(p)
    {
      EmbeddingChain(p);
    }
  }

  lemma EmbeddingReaches(a: string)
    ensures forall x :: Reaches(Embedding(), a, x) ==> x == a || (a == "T" && x == "XResponse")
    ensures a in Embedding().definitions ==> !Unresolved(Embedding(), a)
  {
    forall x | Reaches(Embedding(), a, x)
      ensures x == a || (a == "T" && x == "XResponse")
    {
      var p :| IsChain(Embedding(), p) && p[0] == a && p[|p| - 1] == x;
      EmbeddingChain(p);
    }
  }

  /** After T, the response is the first type declared. */
  lemma EmbeddingOrder(declared: seq<string>)
    requires Ordered(Embedding(), declared) && "T" in declared
    requires forall x :: x in declared ==> x == "T" || x == "XResponse"
    ensures declared[0] == "XResponse"
  {
    EmbeddingNeeds("T");
    var i :| 0 <= i < |declared| && declared[i] == "T";
    assert "XResponse" in Needs(Embedding(), declared[i]);
    assert "XResponse" in declared[..i];
    assert declared[0] in declared;
  }

  lemma {:induction false} StructuresFirst(s: Schema, declared: seq<string>)
    requires declared != [] && declared[0] in s.definitions && s.definitions[declared[0]].Structured?
    ensures Structures(s, declared) != [] && Structures(s, declared)[0] == declared[0]
  {
    if |declared| > 1 {
      StructuresFirst(s, declared[..|declared| - 1]);
    } else {
      assert declared[..0] == [];
      assert Structures(s, []) == [];
    }
  }

  /** There the response is declared before the request, and C refuses the list of types. */
  method ResponseFirst() returns (g: Generator)
    ensures fresh(g) && g.Valid() && g.schema == Embedding()
    ensures Blocks(g.schema, g.schema.listing, g.blockStart, g.blockEnd)
    ensures !Balanced(ListLines(g.encodeable, g.blockStart, g.blockEnd))
  {
    hide Acyclic, Balanced, Reaches, Unresolved, Ordered, Structures, Needs;
    g := new Generator(Embedding());
    EmbeddingAcyclic();
    EmbeddingReaches("T");
    EmbeddingReaches("XRequest");
    EmbeddingReaches("XResponse");
    assert Begin("X") == "XRequest" && End("X") == "XResponse";
    var fatal := g.GenHeaderType("T", []);
    assert g.declared == g.declared[0..];
    EmbeddingOrder(g.declared);
    ghost var mid;
    fatal, mid := g.GenHeaderPair("X");
    StructuresFirst(g.schema, g.declared);
    EmbeddingBlocks(g.blockStart, g.blockEnd);
    ResponseFirstRefused(g.encodeable, g.blockStart, g.blockEnd);
  }

  lemma EmbeddingBlocks(blockStart: map<string, string>, blockEnd: map<string, string>)
    requires blockStart == map["XRequest" := "X"] && blockEnd == map["XResponse" := "X"]
    ensures Blocks(Embedding(), Embedding().listing, blockStart, blockEnd)
    ensures "XResponse" !in blockStart
  {
    hide IsPair;
    var q, r := "XRequest", "XResponse";
    assert Begin("X") == q && End("X") == r;
    BoundariesDiffer("X", "X");
    assert blockStart[q] == "X" && blockEnd[r] == "X";
    assert blockStart.Values == {"X"} && blockEnd.Values == {"X"};
    EmbeddingPairs();
  }

  lemma EmbeddingPairs()
    ensures IsPair(Embedding(), "XRequest") && !IsPair(Embedding(), "XResponse") && !IsPair(Embedding(), "T")
  {
    var q, r, t := "XRequest", "XResponse", "T";
    assert q[1..] == "Request" && q[..1] == "X" && End("X") == r;
    assert r[|r| - 7..][6] == 'e' && "Request"[6] == 't';
    assert |t| < |"Request"|;
  }
}

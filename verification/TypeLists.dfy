/** The lists that gen-sopc-types.py writes for the encodeable types: the index enumeration and the type table,
    and what the C preprocessor makes of them when some types are excluded.
 */
module TypeLists {
  import opened Basics

  /** The lines of a generated list, as the C preprocessor sees them. */
  datatype Line = IfNotExcluded(name: string) | Item(name: string) | EndIf

  /** The lines for one type: its own condition, inside the block that it opens or closes. */
  function TypeLines(name: string, blockStart: map<string, string>, blockEnd: map<string, string>): seq<Line> {
    (if name in blockStart then [IfNotExcluded(blockStart[name])] else [])
    + [IfNotExcluded(name), Item(name), EndIf]
    + (if name in blockEnd then [EndIf] else [])
  }

  lemma TypeLinesItems(name: string, blockStart: map<string, string>, blockEnd: map<string, string>)
    ensures Items(TypeLines(name, blockStart, blockEnd)) == [name]
  {
    var before: seq<Line> := if name in blockStart then [IfNotExcluded(blockStart[name])] else [];
    var own := [IfNotExcluded(name), Item(name), EndIf];
    var after: seq<Line> := if name in blockEnd then [EndIf] else [];
    calc {
      Items(own);
      { assert own[1..] == [Item(name), EndIf]; }
      Items([Item(name), EndIf]);
      { assert [Item(name), EndIf][1..] == [EndIf]; }
      [name] + Items([EndIf]);
      [name];
    }
    ItemsConcatenate(before, own);
    ItemsConcatenate(before + own, after);
  }

  /** The lines for all `types`. */
  function ListLines(types: seq<string>, blockStart: map<string, string>, blockEnd: map<string, string>): seq<Line> {
    if types == [] then []
    else ListLines(types[..|types| - 1], blockStart, blockEnd) + TypeLines(types[|types| - 1], blockStart, blockEnd)
  }

  /** `KnownEncodeableTypeWriter.gen_types` */
  method GenTypes(types: seq<string>, blockStart: map<string, string>, blockEnd: map<string, string>)
    returns (lines: seq<Line>)
    ensures lines == ListLines(types, blockStart, blockEnd)
  {
    lines := [];
    for i := 0 to |types|
      invariant lines == ListLines(types[..i], blockStart, blockEnd)
    {
      ghost var before := lines;
      if types[i] in blockStart {
        lines := lines + [IfNotExcluded(blockStart[types[i]])];
      }
      lines := lines + [IfNotExcluded(types[i]), Item(types[i]), EndIf];
      if types[i] in blockEnd {
        lines := lines + [EndIf];
      }
      assert lines == before + TypeLines(types[i], blockStart, blockEnd);
      assert types[..i + 1][..i] == types[..i];
    }
    assert types[..|types|] == types;
  }

  lemma {:induction false} ListItems(types: seq<string>, blockStart: map<string, string>, blockEnd: map<string, string>)
    ensures Items(ListLines(types, blockStart, blockEnd)) == types
  {
    if types != [] {
      var front, last := types[..|types| - 1], types[|types| - 1];
      ListItems(front, blockStart, blockEnd);
      TypeLinesItems(last, blockStart, blockEnd);
      ItemsConcatenate(ListLines(front, blockStart, blockEnd), TypeLines(last, blockStart, blockEnd));
      assert types == front + [last];
    }
  }

  /** The names of the items, in order. */
  function Items(lines: seq<Line>): seq<string> {
    if lines == [] then []
    else (if lines[0].Item? then [lines[0].name] else []) + Items(lines[1..])
  }

  lemma {:induction false} ItemsConcatenate(a: seq<Line>, b: seq<Line>)
    ensures Items(a + b) == Items(a) + Items(b)
  {
    if a == [] {
      assert a + b == b;
    } else {
      var head := if a[0].Item? then [a[0].name] else [];
      assert (a + b)[0] == a[0] && (a + b)[1..] == a[1..] + b;
      ItemsConcatenate(a[1..], b);
      assert head + (Items(a[1..]) + Items(b)) == head + Items(a[1..]) + Items(b);
    }
  }

  // ----- What the C preprocessor makes of a list -----

  /** The enclosing conditions, whether each of them holds; a condition that ends must have begun. */
  function Enter(open: seq<bool>, line: Line, excluded: set<string>): Option<seq<bool>> {
    match line
    case IfNotExcluded(name) => Some(open + [name !in excluded])
    case Item(_) => Some(open)
    case EndIf => if open == [] then None else Some(open[..|open| - 1])
  }

  /** The number of open conditions after the lines, none if one ends that has not begun. */
  function Depth(lines: seq<Line>, depth: nat): Option<nat> {
    if lines == [] then Some(depth)
    else match lines[0]
      case IfNotExcluded(_) => Depth(lines[1..], depth + 1)
      case Item(_) => Depth(lines[1..], depth)
      case EndIf => if depth == 0 then None else Depth(lines[1..], depth - 1)
  }

  /** The lists that C accepts: every condition that ends has begun, and the other way round. */
  predicate Balanced(lines: seq<Line>) {
    Depth(lines, 0) == Some(0)
  }

  /** The entries of the type table that remain when the macros of `excluded` are defined. */
  function Table(lines: seq<Line>, open: seq<bool>, excluded: set<string>): Option<seq<string>> {
    if lines == [] then if open == [] then Some([]) else None
    else
      var inner := Enter(open, lines[0], excluded);
      if inner.None? then None
      else
        var rest := Table(lines[1..], inner.value, excluded);
        if rest.None? then None
        else Some((if lines[0].Item? && false !in open then [lines[0].name] else []) + rest.value)
  }

  /** The enumeration: a remaining enumerator gets the next value. The result is the values and the size. */
  function Enumerate(lines: seq<Line>, open: seq<bool>, excluded: set<string>, next: nat, values: map<string, nat>):
    Option<(map<string, nat>, nat)>
    decreases |lines|
  {
    if lines == [] then if open == [] then Some((values, next)) else None
    else
      var inner := Enter(open, lines[0], excluded);
      if inner.None? then None
      else if lines[0].Item? && false !in open then
        Enumerate(lines[1..], inner.value, excluded, next + 1, values[lines[0].name := next])
      else
        Enumerate(lines[1..], inner.value, excluded, next, values)
  }

  /** Both lists are accepted or refused together; if accepted, values are positions. */
  lemma {:induction false} IndexIsPosition(
    lines: seq<Line>, open: seq<bool>, excluded: set<string>, next: nat, values: map<string, nat>)
    requires Distinct(Items(lines))
    ensures var table, index := Table(lines, open, excluded), Enumerate(lines, open, excluded, next, values);
      && (table.Some? <==> Depth(lines, |open|) == Some(0))
      && (index.Some? <==> Depth(lines, |open|) == Some(0))
      && (table.Some? ==>
            && index.value.1 == next + |table.value|
            && (forall k :: 0 <= k < |table.value| ==>
                  table.value[k] in index.value.0 && index.value.0[table.value[k]] == next + k)
            && (forall n :: n in values && n !in Items(lines) ==> n in index.value.0 && index.value.0[n] == values[n]))
    decreases |lines|
  {
    if lines != [] && Enter(open, lines[0], excluded).Some? {
      var rest := lines[1..];
      var inner := Enter(open, lines[0], excluded).value;
      if lines[0].Item? {
        DistinctTail(lines[0].name, Items(rest));
      } else {
        assert Items(lines) == Items(rest);
      }
      if lines[0].Item? && false !in open {
        IndexIsPosition(rest, inner, excluded, next + 1, values[lines[0].name := next]);
      } else {
        IndexIsPosition(rest, inner, excluded, next, values);
      }
    }
  }

  lemma DistinctTail(x: string, tail: seq<string>)
    requires Distinct([x] + tail)
    ensures Distinct(tail) && x !in tail
  {
    var all := [x] + tail;
    assert forall i :: 0 <= i < |tail| ==> all[i + 1] == tail[i];
    forall i | 0 <= i < |tail|
      ensures tail[i] != x
    {
      assert all[0] != all[i + 1];
    }
  }

  // ----- Blocks that begin before they end -----

  /** The blocks that are open after `types`, none if one ends that has not begun. */
  function OpenBlocks(types: seq<string>, blockStart: map<string, string>, blockEnd: map<string, string>): Option<set<string>> {
    if types == [] then Some({})
    else
      var before, n := OpenBlocks(types[..|types| - 1], blockStart, blockEnd), types[|types| - 1];
      if before.None? then None
      else
        var begun := before.value + (if n in blockStart then {blockStart[n]} else {});
        if n !in blockEnd then Some(begun)
        else if blockEnd[n] in begun then Some(begun - {blockEnd[n]})
        else None
  }

  /** Every block that ends has begun, and every block that begins ends. */
  predicate Paired(types: seq<string>, blockStart: map<string, string>, blockEnd: map<string, string>) {
    OpenBlocks(types, blockStart, blockEnd) == Some({})
  }

  ghost predicate Precedes(types: seq<string>, a: string, b: string) {
    exists i, j :: 0 <= i < j < |types| && types[i] == a && types[j] == b
  }

  lemma PrecedesSnoc(front: seq<string>, last: string, a: string, b: string)
    ensures Precedes(front + [last], a, b) <==> Precedes(front, a, b) || (b == last && a in front)
  {
    var all := front + [last];
    if Precedes(all, a, b) {
      var i, j :| 0 <= i < j < |all| && all[i] == a && all[j] == b;
      assert front[i] == a;
      assert j < |front| ==> front[j] == b;
    }
    if Precedes(front, a, b) {
      var i, j :| 0 <= i < j < |front| && front[i] == a && front[j] == b;
      assert all[i] == a && all[j] == b;
    }
    if b == last && a in front {
      var i :| 0 <= i < |front| && front[i] == a;
      assert all[i] == a && all[|front|] == b;
    }
  }

  function Begin(b: string): string {
    b + "Request"
  }

  function End(b: string): string {
    b + "Response"
  }

  lemma BoundariesDiffer(a: string, b: string)
    ensures Begin(a) != End(b)
    ensures Begin(a) == Begin(b) ==> a == b
    ensures End(a) == End(b) ==> a == b
  {
    var q, r := Begin(a), End(b);
    assert q[|q| - 1] == 't' && r[|r| - 1] == 'e';
    assert Begin(a)[..|a|] == a && Begin(b)[..|b|] == b;
    assert End(a)[..|a|] == a && End(b)[..|b|] == b;
  }

  /** A block begins with a request and ends with the response of the same name. */
  ghost predicate BlockNames(blockStart: map<string, string>, blockEnd: map<string, string>) {
    && (forall n :: n in blockStart ==> n == Begin(blockStart[n]))
    && (forall n :: n in blockEnd ==> n == End(blockEnd[n]))
    && blockStart.Values == blockEnd.Values
  }

  lemma BlockValues(blockStart: map<string, string>, blockEnd: map<string, string>, b: string)
    requires BlockNames(blockStart, blockEnd)
    ensures b in blockStart.Values <==> Begin(b) in blockStart
    ensures b in blockStart.Values <==> End(b) in blockEnd
    ensures Begin(b) in blockStart ==> blockStart[Begin(b)] == b && blockEnd[End(b)] == b
    ensures Begin(b) !in blockEnd && End(b) !in blockStart
  {
    hide Begin, End;
    BoundariesDiffer(b, b);
    if b in blockStart.Values {
      var n :| n in blockStart && blockStart[n] == b;
      var m :| m in blockEnd && blockEnd[m] == b;
    }
    if Begin(b) in blockStart {
      BoundariesDiffer(b, blockStart[Begin(b)]);
    }
    if End(b) in blockEnd {
      BoundariesDiffer(b, blockEnd[End(b)]);
    }
    if Begin(b) in blockEnd {
      BoundariesDiffer(b, blockEnd[Begin(b)]);
    }
    if End(b) in blockStart {
      BoundariesDiffer(blockStart[End(b)], b);
    }
  }

  /** No block ends among `types` before it begins. */
  ghost predicate BeginFirst(types: seq<string>, blockStart: map<string, string>) {
    forall b :: b in blockStart.Values && End(b) in types ==> Precedes(types, Begin(b), End(b))
  }

  ghost predicate IsOpen(types: seq<string>, blockStart: map<string, string>, b: string) {
    b in blockStart.Values && Begin(b) in types && End(b) !in types
  }

  /** What is open after `types`. */
  ghost predicate OpenIs(types: seq<string>, blockStart: map<string, string>, blockEnd: map<string, string>) {
    var open := OpenBlocks(types, blockStart, blockEnd);
    && (open.Some? <==> BeginFirst(types, blockStart))
    && (open.Some? ==> forall b :: b in open.value <==> IsOpen(types, blockStart, b))
  }

  /** What one more type changes for a block. */
  lemma BlockStep(front: seq<string>, n: string, blockStart: map<string, string>, blockEnd: map<string, string>, b: string)
    requires BlockNames(blockStart, blockEnd) && b in blockStart.Values && n !in front
    ensures End(b) in front + [n] <==> End(b) in front || (n in blockEnd && blockEnd[n] == b)
    ensures Begin(b) in front + [n] <==> Begin(b) in front || (n in blockStart && blockStart[n] == b)
    ensures Precedes(front + [n], Begin(b), End(b)) <==>
      Precedes(front, Begin(b), End(b)) || (n in blockEnd && blockEnd[n] == b && Begin(b) in front)
  {
    hide Begin, End, Precedes;
    BlockValues(blockStart, blockEnd, b);
    PrecedesSnoc(front, n, Begin(b), End(b));
    assert n in blockEnd && blockEnd[n] == b ==> n == End(b);
    assert n in blockStart && blockStart[n] == b ==> n == Begin(b);
  }

  lemma PrecedesMembers(types: seq<string>, a: string, b: string)
    requires Precedes(types, a, b)
    ensures a in types && b in types
  {
  }

  lemma {:induction false} OpenBlocksIs(types: seq<string>, blockStart: map<string, string>, blockEnd: map<string, string>)
    requires BlockNames(blockStart, blockEnd) && Distinct(types)
    ensures OpenIs(types, blockStart, blockEnd)
  {
    if types != [] {
      var front, n := types[..|types| - 1], types[|types| - 1];
      assert types == front + [n];
      OpenBlocksIs(front, blockStart, blockEnd);
      OpenStep(front, n, blockStart, blockEnd);
    }
  }

  lemma FirstStep(front: seq<string>, n: string, blockStart: map<string, string>, blockEnd: map<string, string>)
    requires BlockNames(blockStart, blockEnd) && n !in front
    ensures BeginFirst(front + [n], blockStart) <==>
      BeginFirst(front, blockStart) && (n in blockEnd ==> Begin(blockEnd[n]) in front)
  {
    hide Begin, End, Precedes, BlockNames;
    var types := front + [n];
    if n in blockEnd {
      EndOf(blockStart, blockEnd, n);
      BlockStep(front, n, blockStart, blockEnd, blockEnd[n]);
    }
    forall b | b in blockStart.Values
      ensures (End(b) in types ==> Precedes(types, Begin(b), End(b))) <==>
        (End(b) in front ==> Precedes(front, Begin(b), End(b))) && (n in blockEnd && blockEnd[n] == b ==> Begin(b) in front)
    {
      BlockStep(front, n, blockStart, blockEnd, b);
      if Precedes(front, Begin(b), End(b)) {
        PrecedesMembers(front, Begin(b), End(b));
      }
      if n in blockEnd && blockEnd[n] == b {
        EndOf(blockStart, blockEnd, n);
      }
    }
  }

  lemma EndOf(blockStart: map<string, string>, blockEnd: map<string, string>, n: string)
    requires BlockNames(blockStart, blockEnd) && n in blockEnd
    ensures blockEnd[n] in blockStart.Values && n == End(blockEnd[n]) && n !in blockStart
  {
    hide Begin, End;
    BlockValues(blockStart, blockEnd, blockEnd[n]);
  }

  lemma IsOpenStep(front: seq<string>, n: string, blockStart: map<string, string>, blockEnd: map<string, string>, b: string)
    requires BlockNames(blockStart, blockEnd) && n !in front && BeginFirst(front, blockStart)
    ensures IsOpen(front + [n], blockStart, b) <==>
      (IsOpen(front, blockStart, b) || (n in blockStart && blockStart[n] == b)) && !(n in blockEnd && blockEnd[n] == b)
  {
    hide Begin, End, Precedes;
    if b in blockStart.Values {
      BlockStep(front, n, blockStart, blockEnd, b);
      if End(b) in front {
        PrecedesMembers(front, Begin(b), End(b));
      }
    }
  }

  lemma OpenStep(front: seq<string>, n: string, blockStart: map<string, string>, blockEnd: map<string, string>)
    requires BlockNames(blockStart, blockEnd) && n !in front && OpenIs(front, blockStart, blockEnd)
    ensures OpenIs(front + [n], blockStart, blockEnd)
  {
    hide BeginFirst, IsOpen, BlockNames;
    var types := front + [n];
    assert types[..|types| - 1] == front;
    FirstStep(front, n, blockStart, blockEnd);
    if BeginFirst(front, blockStart) {
      if n in blockEnd {
        EndOpen(front, n, blockStart, blockEnd);
      }
      forall b
        ensures IsOpen(types, blockStart, b) <==>
          (IsOpen(front, blockStart, b) || (n in blockStart && blockStart[n] == b)) && !(n in blockEnd && blockEnd[n] == b)
      {
        IsOpenStep(front, n, blockStart, blockEnd, b);
      }
    }
  }

  lemma EndOpen(front: seq<string>, n: string, blockStart: map<string, string>, blockEnd: map<string, string>)
    requires BlockNames(blockStart, blockEnd) && n in blockEnd && n !in front
    ensures IsOpen(front, blockStart, blockEnd[n]) <==> Begin(blockEnd[n]) in front
    ensures n !in blockStart
  {
    hide Begin, End, BlockNames;
    EndOf(blockStart, blockEnd, n);
  }

  /** The blocks of a list are paired if and only if, for each of them, the request comes before the response. */
  lemma PairedIff(types: seq<string>, blockStart: map<string, string>, blockEnd: map<string, string>)
    requires BlockNames(blockStart, blockEnd) && Distinct(types)
    ensures Paired(types, blockStart, blockEnd) <==>
      forall b :: b in blockStart.Values && (Begin(b) in types || End(b) in types) ==> Precedes(types, Begin(b), End(b))
  {
    hide Begin, End, Precedes;
    OpenBlocksIs(types, blockStart, blockEnd);
    forall b | b in blockStart.Values && Precedes(types, Begin(b), End(b))
      ensures Begin(b) in types && End(b) in types
    {
      PrecedesMembers(types, Begin(b), End(b));
    }
    var open := OpenBlocks(types, blockStart, blockEnd);
    if open == Some({}) {
      forall b | b in blockStart.Values && (Begin(b) in types || End(b) in types)
        ensures Precedes(types, Begin(b), End(b))
      {
        assert !IsOpen(types, blockStart, b);
      }
    } else if open.Some? {
      assert open.value != {};
      var b :| b in open.value;
      assert IsOpen(types, blockStart, b);
    }
  }

  // ----- Paired blocks are balanced conditions -----

  lemma {:induction false} DepthConcatenate(a: seq<Line>, b: seq<Line>, depth: nat)
    ensures Depth(a + b, depth) == if Depth(a, depth).None? then None else Depth(b, Depth(a, depth).value)
    decreases |a|
  {
    if a == [] {
      assert a + b == b;
    } else {
      assert (a + b)[0] == a[0] && (a + b)[1..] == a[1..] + b;
      if a[0].EndIf? && depth == 0 {
      } else {
        DepthConcatenate(a[1..], b, if a[0].IfNotExcluded? then depth + 1 else if a[0].EndIf? then depth - 1 else depth);
      }
    }
  }

  function DepthAfter(name: string, blockStart: map<string, string>, blockEnd: map<string, string>, depth: nat): Option<nat> {
    var begun := depth + if name in blockStart then 1 else 0;
    if name !in blockEnd then Some(begun) else if begun == 0 then None else Some(begun - 1)
  }

  /** The conditions of one type: its own is closed at once, the one of a block stays. */
  lemma TypeDepth(name: string, blockStart: map<string, string>, blockEnd: map<string, string>, depth: nat)
    ensures Depth(TypeLines(name, blockStart, blockEnd), depth) == DepthAfter(name, blockStart, blockEnd, depth)
  {
    var before: seq<Line> := if name in blockStart then [IfNotExcluded(blockStart[name])] else [];
    var own := [IfNotExcluded(name), Item(name), EndIf];
    var after: seq<Line> := if name in blockEnd then [EndIf] else [];
    var begun := depth + |before|;
    DepthConcatenate(before + own, after, depth);
    DepthConcatenate(before, own, depth);
    assert Depth(before, depth) == Some(begun);
    calc {
      Depth(own, begun);
      { assert own[1..] == [Item(name), EndIf]; }
      Depth([Item(name), EndIf], begun + 1);
      { assert [Item(name), EndIf][1..] == [EndIf]; }
      Depth([EndIf], begun + 1);
      Some(begun);
    }
  }

  lemma {:induction false} ListDepth(types: seq<string>, blockStart: map<string, string>, blockEnd: map<string, string>)
    requires BlockNames(blockStart, blockEnd) && Distinct(types) && OpenBlocks(types, blockStart, blockEnd).Some?
    ensures Depth(ListLines(types, blockStart, blockEnd), 0) == Some(|OpenBlocks(types, blockStart, blockEnd).value|)
  {
    hide Depth, ListLines, BlockNames, Distinct, DepthAfter;
    if types == [] {
      MoreDepth([], "", blockStart, blockEnd);
    } else {
      var front, n := types[..|types| - 1], types[|types| - 1];
      assert types == front + [n];
      FrontDistinct(types);
      ListDepth(front, blockStart, blockEnd);
      MoreDepth(front, n, blockStart, blockEnd);
      NotYetOpen(front, n, blockStart, blockEnd);
      OpenSize(OpenBlocks(front, blockStart, blockEnd).value, n, blockStart, blockEnd);
    }
  }

  lemma OpenSize(open: set<string>, n: string, blockStart: map<string, string>, blockEnd: map<string, string>)
    requires n in blockStart ==> blockStart[n] !in open
    ensures var begun := open + if n in blockStart then {blockStart[n]} else {};
      && (n !in blockEnd ==> DepthAfter(n, blockStart, blockEnd, |open|) == Some(|begun|))
      && (n in blockEnd && blockEnd[n] in begun ==>
            DepthAfter(n, blockStart, blockEnd, |open|) == Some(|begun - {blockEnd[n]}|))
  {
  }

  lemma FrontDistinct(types: seq<string>)
    requires Distinct(types) && types != []
    ensures Distinct(types[..|types| - 1]) && types[|types| - 1] !in types[..|types| - 1]
  {
  }

  lemma NotYetOpen(front: seq<string>, n: string, blockStart: map<string, string>, blockEnd: map<string, string>)
    requires BlockNames(blockStart, blockEnd) && Distinct(front) && n !in front
    requires OpenBlocks(front, blockStart, blockEnd).Some?
    ensures n in blockStart ==> blockStart[n] !in OpenBlocks(front, blockStart, blockEnd).value
  {
    hide OpenBlocks;
    OpenBlocksIs(front, blockStart, blockEnd);
  }

  lemma MoreDepth(front: seq<string>, n: string, blockStart: map<string, string>, blockEnd: map<string, string>)
    ensures Depth(ListLines([], blockStart, blockEnd), 0) == Some(0)
    ensures var depth := Depth(ListLines(front, blockStart, blockEnd), 0);
      Depth(ListLines(front + [n], blockStart, blockEnd), 0) ==
      if depth.None? then None else DepthAfter(n, blockStart, blockEnd, depth.value)
  {
    var types := front + [n];
    assert types[..|types| - 1] == front;
    var depth := Depth(ListLines(front, blockStart, blockEnd), 0);
    DepthConcatenate(ListLines(front, blockStart, blockEnd), TypeLines(n, blockStart, blockEnd), 0);
    if depth.Some? {
      TypeDepth(n, blockStart, blockEnd, depth.value);
    }
  }

  /** A list whose blocks are paired is accepted by C. */
  lemma PairedBalanced(types: seq<string>, blockStart: map<string, string>, blockEnd: map<string, string>)
    requires BlockNames(blockStart, blockEnd) && Distinct(types) && Paired(types, blockStart, blockEnd)
    ensures Balanced(ListLines(types, blockStart, blockEnd))
  {
    ListDepth(types, blockStart, blockEnd);
  }

  /** The number of `types` that are keys of the map. */
  function Count(types: seq<string>, m: map<string, string>): nat {
    if types == [] then 0
    else Count(types[..|types| - 1], m) + if types[|types| - 1] in m then 1 else 0
  }

  /** No prefix of the list ends more blocks than it begins. */
  ghost predicate NeverBelow(types: seq<string>, blockStart: map<string, string>, blockEnd: map<string, string>) {
    forall i :: 0 <= i <= |types| ==> Count(types[..i], blockEnd) <= Count(types[..i], blockStart)
  }

  lemma {:induction false} DepthIsCount(types: seq<string>, blockStart: map<string, string>, blockEnd: map<string, string>)
    ensures Depth(ListLines(types, blockStart, blockEnd), 0) ==
      if NeverBelow(types, blockStart, blockEnd) then Some(Count(types, blockStart) - Count(types, blockEnd)) else None
  {
    hide Depth, ListLines, NeverBelow;
    if types == [] {
      MoreDepth([], "", blockStart, blockEnd);
      NeverBelowMore([], "", blockStart, blockEnd);
    } else {
      var front, n := types[..|types| - 1], types[|types| - 1];
      assert types == front + [n];
      DepthIsCount(front, blockStart, blockEnd);
      MoreDepth(front, n, blockStart, blockEnd);
      NeverBelowMore(front, n, blockStart, blockEnd);
    }
  }

  lemma NeverBelowMore(front: seq<string>, n: string, blockStart: map<string, string>, blockEnd: map<string, string>)
    ensures NeverBelow([], blockStart, blockEnd)
    ensures NeverBelow(front + [n], blockStart, blockEnd) <==>
      NeverBelow(front, blockStart, blockEnd) && Count(front + [n], blockEnd) <= Count(front + [n], blockStart)
    ensures NeverBelow(front, blockStart, blockEnd) ==> Count(front, blockEnd) <= Count(front, blockStart)
  {
    hide Count;
    var types := front + [n];
    assert types[..|types|] == types && front[..|front|] == front;
    assert forall i :: 0 <= i <= |front| ==> types[..i] == front[..i];
    EmptyCount(blockStart);
    EmptyCount(blockEnd);
  }

  lemma EmptyCount(m: map<string, string>)
    ensures Count([], m) == 0
  {
  }

  /** C accepts a list if and only if it ends as many blocks as it begins and no prefix ends more. */
  lemma BalancedIff(types: seq<string>, blockStart: map<string, string>, blockEnd: map<string, string>)
    ensures Balanced(ListLines(types, blockStart, blockEnd)) <==>
      NeverBelow(types, blockStart, blockEnd) && Count(types, blockStart) == Count(types, blockEnd)
  {
    DepthIsCount(types, blockStart, blockEnd);
    assert types[..|types|] == types;
  }

  /** A list that starts with the response of a block is refused. */
  lemma ResponseFirstRefused(types: seq<string>, blockStart: map<string, string>, blockEnd: map<string, string>)
    requires types != [] && types[0] in blockEnd && types[0] !in blockStart
    ensures !Balanced(ListLines(types, blockStart, blockEnd))
  {
    FirstLines(types, blockStart, blockEnd);
    var first := TypeLines(types[0], blockStart, blockEnd);
    TypeDepth(types[0], blockStart, blockEnd, 0);
    var lines := ListLines(types, blockStart, blockEnd);
    assert lines == first + lines[|first|..];
    DepthConcatenate(first, lines[|first|..], 0);
  }

  lemma {:induction false} FirstLines(types: seq<string>, blockStart: map<string, string>, blockEnd: map<string, string>)
    requires types != []
    ensures TypeLines(types[0], blockStart, blockEnd) <= ListLines(types, blockStart, blockEnd)
  {
    hide TypeLines;
    if |types| > 1 {
      FirstLines(types[..|types| - 1], blockStart, blockEnd);
    } else {
      assert types[..0] == [];
      assert ListLines([], blockStart, blockEnd) == [];
    }
  }

  /** C only counts conditions: it also accepts a list where one block ends before it begins, inside of another. */
  lemma CrossedBlocks(blockStart: map<string, string>, blockEnd: map<string, string>)
    requires blockStart == map[Begin("A") := "A", Begin("B") := "B"]
    requires blockEnd == map[End("A") := "A", End("B") := "B"]
    ensures var types := [Begin("A"), End("B"), Begin("B"), End("A")];
      BlockNames(blockStart, blockEnd) && Balanced(ListLines(types, blockStart, blockEnd)) && !Paired(types, blockStart, blockEnd)
  {
    hide Begin, End, ListLines, Paired, Balanced;
    BoundariesDiffer("A", "B");
    BoundariesDiffer("B", "A");
    BoundariesDiffer("A", "A");
    BoundariesDiffer("B", "B");
    var q, r, x, y := Begin("A"), End("B"), Begin("B"), End("A");
    assert blockStart.Values == {"A", "B"} by { assert blockStart[q] == "A" && blockStart[x] == "B"; }
    assert blockEnd.Values == {"A", "B"} by { assert blockEnd[y] == "A" && blockEnd[r] == "B"; }
    var types := [q, r, x, y];
    CrossedBalanced(q, r, x, y, blockStart, blockEnd);
    PairedIff(types, blockStart, blockEnd);
    assert r in types && !Precedes(types, x, r);
  }

  lemma CrossedBalanced(
    q: string, r: string, x: string, y: string, blockStart: map<string, string>, blockEnd: map<string, string>)
    requires q in blockStart && x in blockStart && r !in blockStart && y !in blockStart
    requires q !in blockEnd && x !in blockEnd && r in blockEnd && y in blockEnd
    ensures Balanced(ListLines([q, r, x, y], blockStart, blockEnd))
  {
    hide Depth, ListLines;
    MoreDepth([], q, blockStart, blockEnd);
    MoreDepth([q], r, blockStart, blockEnd);
    MoreDepth([q, r], x, blockStart, blockEnd);
    MoreDepth([q, r, x], y, blockStart, blockEnd);
    assert [] + [q] == [q] && [q] + [r] == [q, r] && [q, r] + [x] == [q, r, x] && [q, r, x] + [y] == [q, r, x, y];
  }
}

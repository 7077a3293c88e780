/** Which types the generated table holds when some `OPCUA_EXCLUDE_` macros are defined: those that are not excluded and
    in no excluded block, in order, as long as the blocks do not cross.
 */
module TypeTable {
  import opened Basics
  import opened TypeLists

  // ----- A list, piece by piece -----

  /** The conditions that are open after the lines. */
  function Conditions(lines: seq<Line>, open: seq<bool>, excluded: set<string>): Option<seq<bool>> {
    if lines == [] then Some(open)
    else
      var inner := Enter(open, lines[0], excluded);
      if inner.None? then None else Conditions(lines[1..], inner.value, excluded)
  }

  /** The entry of a line, if it has one that remains. */
  function EntryOf(line: Line, open: seq<bool>): seq<string> {
    if line.Item? && false !in open then [line.name] else []
  }

  /** The entries of the lines that remain. */
  function Entries(lines: seq<Line>, open: seq<bool>, excluded: set<string>): seq<string> {
    if lines == [] then []
    else
      var inner := Enter(open, lines[0], excluded);
      if inner.None? then [] else EntryOf(lines[0], open) + Entries(lines[1..], inner.value, excluded)
  }

  lemma {:induction false} ConditionsConcatenate(a: seq<Line>, b: seq<Line>, open: seq<bool>, excluded: set<string>)
    requires Conditions(a, open, excluded).Some?
    ensures Conditions(a + b, open, excluded) == Conditions(b, Conditions(a, open, excluded).value, excluded)
    decreases |a|
  {
    hide Enter;
    if a == [] {
      assert a + b == b;
    } else {
      assert (a + b)[0] == a[0] && (a + b)[1..] == a[1..] + b;
      ConditionsConcatenate(a[1..], b, Enter(open, a[0], excluded).value, excluded);
    }
  }

  lemma {:induction false} EntriesConcatenate(a: seq<Line>, b: seq<Line>, open: seq<bool>, excluded: set<string>)
    requires Conditions(a, open, excluded).Some?
    ensures Entries(a + b, open, excluded) ==
            Entries(a, open, excluded) + Entries(b, Conditions(a, open, excluded).value, excluded)
    decreases |a|
  {
    hide Enter, EntryOf;
    if a == [] {
      assert a + b == b && Entries(a, open, excluded) == [];
    } else {
      var inner := Enter(open, a[0], excluded).value;
      assert (a + b)[0] == a[0] && (a + b)[1..] == a[1..] + b;
      EntriesConcatenate(a[1..], b, inner, excluded);
      var head := EntryOf(a[0], open);
      var rest, last := Entries(a[1..], inner, excluded), Entries(b, Conditions(a, open, excluded).value, excluded);
      calc {
        Entries(a + b, open, excluded);
        head + (rest + last);
        head + rest + last;
      }
    }
  }

  lemma PiecesConcatenate(a: seq<Line>, b: seq<Line>, open: seq<bool>, excluded: set<string>)
    requires Conditions(a, open, excluded).Some?
    ensures var inner := Conditions(a, open, excluded).value;
      && Conditions(a + b, open, excluded) == Conditions(b, inner, excluded)
      && Entries(a + b, open, excluded) == Entries(a, open, excluded) + Entries(b, inner, excluded)
  {
    ConditionsConcatenate(a, b, open, excluded);
    EntriesConcatenate(a, b, open, excluded);
  }

  lemma {:induction false} TableIsEntries(lines: seq<Line>, open: seq<bool>, excluded: set<string>)
    ensures Table(lines, open, excluded) ==
      if Conditions(lines, open, excluded) == Some([]) then Some(Entries(lines, open, excluded)) else None
  {
    if lines != [] {
      var inner := Enter(open, lines[0], excluded);
      if inner.Some? {
        TableIsEntries(lines[1..], inner.value, excluded);
      }
    }
  }

  // ----- The blocks around a type, as the preprocessor keeps them -----

  function Push(stack: seq<string>, n: string, blockStart: map<string, string>): seq<string> {
    if n in blockStart then stack + [blockStart[n]] else stack
  }

  /** The blocks that are open after `types`: an end ends the block that began last. */
  function Stack(types: seq<string>, blockStart: map<string, string>, blockEnd: map<string, string>): Option<seq<string>> {
    if types == [] then Some([])
    else
      var before, n := Stack(types[..|types| - 1], blockStart, blockEnd), types[|types| - 1];
      if before.None? then None
      else
        var begun := Push(before.value, n, blockStart);
        if n !in blockEnd then Some(begun)
        else if begun == [] then None
        else Some(begun[..|begun| - 1])
  }

  function Flags(stack: seq<string>, excluded: set<string>): seq<bool> {
    seq(|stack|, i requires 0 <= i < |stack| => stack[i] !in excluded)
  }

  ghost predicate Clear(stack: seq<string>, excluded: set<string>) {
    forall b :: b in stack ==> b !in excluded
  }

  lemma FlagsClear(stack: seq<string>, excluded: set<string>)
    ensures false !in Flags(stack, excluded) <==> Clear(stack, excluded)
  {
    var flags := Flags(stack, excluded);
    if b :| b in stack && b in excluded {
      var i :| 0 <= i < |stack| && stack[i] == b;
      assert flags[i] == false;
    }
  }

  /** The lines of one type: it remains if it and the blocks around it are not excluded. */
  lemma TypePiece(n: string, stack: seq<string>, blockStart: map<string, string>, blockEnd: map<string, string>, excluded: set<string>)
    ensures var begun := Push(stack, n, blockStart);
      var after := if n !in blockEnd then Some(begun) else if begun == [] then None else Some(begun[..|begun| - 1]);
      after.Some? ==>
        && Conditions(TypeLines(n, blockStart, blockEnd), Flags(stack, excluded), excluded) == Some(Flags(after.value, excluded))
        && Entries(TypeLines(n, blockStart, blockEnd), Flags(stack, excluded), excluded) ==
             if n !in excluded && Clear(begun, excluded) then [n] else []
  {
    hide Conditions, Entries, Flags, Clear;
    var begun := Push(stack, n, blockStart);
    var first: seq<Line> := if n in blockStart then [IfNotExcluded(blockStart[n])] else [];
    var own := [IfNotExcluded(n), Item(n), EndIf];
    var last: seq<Line> := if n in blockEnd then [EndIf] else [];
    FirstPiece(n, stack, blockStart, excluded);
    OwnPiece(n, begun, excluded);
    LastPiece(begun, excluded);
    PiecesConcatenate(first, own, Flags(stack, excluded), excluded);
    PiecesConcatenate(first + own, last, Flags(stack, excluded), excluded);
    NoPiece(Flags(begun, excluded), excluded);
  }

  lemma NoPiece(open: seq<bool>, excluded: set<string>)
    ensures Conditions([], open, excluded) == Some(open) && Entries([], open, excluded) == []
  {
  }

  lemma FirstPiece(n: string, stack: seq<string>, blockStart: map<string, string>, excluded: set<string>)
    ensures var first: seq<Line> := if n in blockStart then [IfNotExcluded(blockStart[n])] else [];
      && Conditions(first, Flags(stack, excluded), excluded) == Some(Flags(Push(stack, n, blockStart), excluded))
      && Entries(first, Flags(stack, excluded), excluded) == []
  {
    if n in blockStart {
      assert [IfNotExcluded(blockStart[n])][1..] == [];
      assert Flags(stack + [blockStart[n]], excluded) == Flags(stack, excluded) + [blockStart[n] !in excluded];
    }
  }

  lemma LastPiece(stack: seq<string>, excluded: set<string>)
    ensures stack != [] ==>
      Conditions([EndIf], Flags(stack, excluded), excluded) == Some(Flags(stack[..|stack| - 1], excluded))
    ensures Entries([EndIf], Flags(stack, excluded), excluded) == []
  {
    assert [EndIf][1..] == [];
    if stack != [] {
      assert Flags(stack, excluded)[..|stack| - 1] == Flags(stack[..|stack| - 1], excluded);
    }
  }

  lemma OwnPiece(n: string, stack: seq<string>, excluded: set<string>)
    ensures Conditions([IfNotExcluded(n), Item(n), EndIf], Flags(stack, excluded), excluded) == Some(Flags(stack, excluded))
    ensures Entries([IfNotExcluded(n), Item(n), EndIf], Flags(stack, excluded), excluded) ==
            if n !in excluded && Clear(stack, excluded) then [n] else []
  {
    hide Clear;
    var open := Flags(stack, excluded);
    var own := [IfNotExcluded(n), Item(n), EndIf];
    var inside := open + [n !in excluded];
    FlagsClear(stack, excluded);
    assert inside[..|open|] == open;
    assert own[1..] == [Item(n), EndIf] && [Item(n), EndIf][1..] == [EndIf] && [EndIf][1..] == [];
    assert Conditions([EndIf], inside, excluded) == Some(open) && Entries([EndIf], inside, excluded) == [];
    assert Conditions([Item(n), EndIf], inside, excluded) == Some(open);
    assert false in inside <==> false in open || n in excluded;
  }

  /** The types that remain after the preprocessor. */
  ghost function Remaining(
    types: seq<string>, blockStart: map<string, string>, blockEnd: map<string, string>, excluded: set<string>): seq<string>
    requires Stack(types, blockStart, blockEnd).Some?
  {
    if types == [] then []
    else
      var front, n := types[..|types| - 1], types[|types| - 1];
      Remaining(front, blockStart, blockEnd, excluded)
      + if n !in excluded && Clear(Push(Stack(front, blockStart, blockEnd).value, n, blockStart), excluded) then [n] else []
  }

  lemma {:induction false} ListPieces(
    types: seq<string>, blockStart: map<string, string>, blockEnd: map<string, string>, excluded: set<string>)
    requires Stack(types, blockStart, blockEnd).Some?
    ensures var lines := ListLines(types, blockStart, blockEnd);
      && Conditions(lines, [], excluded) == Some(Flags(Stack(types, blockStart, blockEnd).value, excluded))
      && Entries(lines, [], excluded) == Remaining(types, blockStart, blockEnd, excluded)
    decreases |types|
  {
    hide Clear;
    if types == [] {
      assert Flags([], excluded) == [];
    } else {
      var front, n := types[..|types| - 1], types[|types| - 1];
      ListPieces(front, blockStart, blockEnd, excluded);
      TypePiece(n, Stack(front, blockStart, blockEnd).value, blockStart, blockEnd, excluded);
      PiecesConcatenate(ListLines(front, blockStart, blockEnd), TypeLines(n, blockStart, blockEnd), [], excluded);
    }
  }

  // ----- The blocks around a type, by their places -----

  /** The type is at or after the request of the block, and at or before its response. */
  ghost predicate Encloses(types: seq<string>, b: string, i: nat) {
    exists p, q :: 0 <= p <= i <= q < |types| && types[p] == Begin(b) && types[q] == End(b)
  }

  /** Block b begins inside block a and ends after it. */
  ghost predicate Crossing(types: seq<string>, a: string, b: string) {
    Precedes(types, Begin(a), Begin(b)) && Precedes(types, Begin(b), End(a)) && Precedes(types, End(a), End(b))
  }

  ghost predicate NoCrossing(types: seq<string>, blocks: set<string>) {
    forall a, b :: a in blocks && b in blocks ==> !Crossing(types, a, b)
  }

  ghost predicate Hidden(types: seq<string>, blockStart: map<string, string>, excluded: set<string>, i: nat)
    requires i < |types|
  {
    types[i] in excluded || exists b :: b in blockStart.Values && b in excluded && Encloses(types, b, i)
  }

  /** The first k types without those that are excluded, themselves or by a block around them. */
  ghost function Visible(types: seq<string>, blockStart: map<string, string>, excluded: set<string>, k: nat): seq<string>
    requires k <= |types|
  {
    if k == 0 then []
    else
      Visible(types, blockStart, excluded, k - 1) + if Hidden(types, blockStart, excluded, k - 1) then [] else [types[k - 1]]
  }

  /** The stack after a part of the list holds the open blocks, in the order of their beginnings. */
  ghost predicate StackIs(types: seq<string>, k: nat, blockStart: map<string, string>, stack: seq<string>)
    requires k <= |types|
  {
    && (forall b :: b in stack <==> IsOpen(types[..k], blockStart, b))
    && (forall i, j :: 0 <= i < j < |stack| ==> Precedes(types, Begin(stack[i]), Begin(stack[j])))
  }

  lemma InFront(types: seq<string>, k: nat, a: string)
    requires k < |types| && Distinct(types)
    ensures types[k] !in types[..k]
    ensures a in types[..k] ==> Precedes(types, a, types[k])
    ensures a in types && a !in types[..k] && a != types[k] ==> Precedes(types, types[k], a)
    ensures a in types[..k + 1] <==> a in types[..k] || a == types[k]
  {
    assert types[..k + 1] == types[..k] + [types[k]];
    if a in types[..k] {
      var i :| 0 <= i < k && types[..k][i] == a;
      assert types[i] == a;
    } else if a in types && a != types[k] {
      var i :| 0 <= i < |types| && types[i] == a;
      assert i > k;
    }
  }

  lemma NotBothWays(types: seq<string>, a: string, b: string)
    requires Distinct(types) && Precedes(types, a, b)
    ensures !Precedes(types, b, a) && a != b
  {
  }

  /** All blocks of the list begin before they end. */
  ghost predicate Proper(types: seq<string>, blockStart: map<string, string>, blockEnd: map<string, string>) {
    && BlockNames(blockStart, blockEnd) && Distinct(types) && NoCrossing(types, blockStart.Values)
    && forall b :: b in blockStart.Values && (Begin(b) in types || End(b) in types) ==> Precedes(types, Begin(b), End(b))
  }

  lemma StackBegins(types: seq<string>, k: nat, blockStart: map<string, string>, blockEnd: map<string, string>, stack: seq<string>)
    requires k < |types| && Proper(types, blockStart, blockEnd) && StackIs(types, k, blockStart, stack) && types[k] in blockStart
    ensures StackIs(types, k + 1, blockStart, stack + [blockStart[types[k]]]) && types[k] !in blockEnd
  {
    hide Begin, End, Precedes, NoCrossing;
    var n, b := types[k], blockStart[types[k]];
    BlockValues(blockStart, blockEnd, b);
    InFront(types, k, n);
    var more := stack + [b];
    forall c
      ensures c in more <==> IsOpen(types[..k + 1], blockStart, c)
    {
      OpenAfterBegin(types, k, blockStart, blockEnd, c);
      assert c in more <==> c in stack || c == b;
    }
    forall i, j | 0 <= i < j < |more|
      ensures Precedes(types, Begin(more[i]), Begin(more[j]))
    {
      if j == |stack| {
        assert stack[i] in stack;
        InFront(types, k, Begin(stack[i]));
      }
    }
  }

  lemma OpenAfterBegin(
    types: seq<string>, k: nat, blockStart: map<string, string>, blockEnd: map<string, string>, c: string)
    requires k < |types| && Proper(types, blockStart, blockEnd) && types[k] in blockStart
    ensures IsOpen(types[..k + 1], blockStart, c) <==> IsOpen(types[..k], blockStart, c) || c == blockStart[types[k]]
  {
    hide Begin, End, Precedes, NoCrossing;
    var n, b := types[k], blockStart[types[k]];
    BlockValues(blockStart, blockEnd, b);
    BoundariesDiffer(c, b);
    BoundariesDiffer(b, c);
    InFront(types, k, Begin(c));
    InFront(types, k, End(c));
    if c == b && End(b) in types[..k] {
      assert End(b) in types;
      InFrontOf(types, k, End(b));
      NotBothWays(types, Begin(b), End(b));
    }
  }

  lemma InFrontOf(types: seq<string>, k: nat, a: string)
    requires k < |types| && a in types[..k]
    ensures Precedes(types, a, types[k]) && a in types
  {
    var i :| 0 <= i < k && types[..k][i] == a;
    assert types[i] == a;
  }

  /** The block that ends is the one that began last. */
  lemma StackEnds(types: seq<string>, k: nat, blockStart: map<string, string>, blockEnd: map<string, string>, stack: seq<string>)
    requires k < |types| && Proper(types, blockStart, blockEnd) && StackIs(types, k, blockStart, stack) && types[k] in blockEnd
    ensures types[k] !in blockStart && stack != [] && stack[|stack| - 1] == blockEnd[types[k]]
    ensures StackIs(types, k + 1, blockStart, stack[..|stack| - 1])
  {
    hide Begin, End, Precedes;
    var n, b := types[k], blockEnd[types[k]];
    BlockValues(blockStart, blockEnd, b);
    EndOf(blockStart, blockEnd, n);
    InFront(types, k, n);
    assert IsOpen(types[..k], blockStart, b) by {
      EndedIsOpen(types, k, b);
    }
    var x :| 0 <= x < |stack| && stack[x] == b;
    var last := stack[|stack| - 1];
    if x < |stack| - 1 {
      assert IsOpen(types[..k], blockStart, last);
      LaterCrosses(types, k, blockStart, b, last);
      assert false;
    }
    var less := stack[..|stack| - 1];
    forall c
      ensures c in less <==> IsOpen(types[..k + 1], blockStart, c)
    {
      BoundariesDiffer(c, b);
      InFront(types, k, Begin(c));
      InFront(types, k, End(c));
      assert c in stack <==> c in less || c == b;
      if c in less {
        var y :| 0 <= y < |less| && less[y] == c;
        assert Precedes(types, Begin(stack[y]), Begin(stack[|stack| - 1]));
        NotBothWays(types, Begin(c), Begin(b));
      }
    }
  }

  lemma EndedIsOpen(types: seq<string>, k: nat, b: string)
    requires k < |types| && Distinct(types) && types[k] == End(b) && Precedes(types, Begin(b), End(b))
    ensures Begin(b) in types[..k] && End(b) !in types[..k]
  {
    hide Begin, End;
    var i, j :| 0 <= i < j < |types| && types[i] == Begin(b) && types[j] == End(b);
    assert j == k && types[..k][i] == Begin(b);
  }

  /** A block that began inside block b and is still open when b ends crosses it. */
  lemma LaterCrosses(types: seq<string>, k: nat, blockStart: map<string, string>, b: string, c: string)
    requires k < |types| && Distinct(types) && types[k] == End(b) && IsOpen(types[..k], blockStart, c)
    requires Precedes(types, Begin(b), Begin(c)) && Precedes(types, Begin(c), End(c))
    ensures Crossing(types, b, c)
  {
    hide Begin, End;
    InFrontOf(types, k, Begin(c));
    InFront(types, k, End(c));
    NotBothWays(types, Begin(b), Begin(c));
    PrecedesMembers(types, Begin(c), End(c));
    BoundariesDiffer(b, c);
  }

  lemma StackStays(types: seq<string>, k: nat, blockStart: map<string, string>, blockEnd: map<string, string>, stack: seq<string>)
    requires k < |types| && Proper(types, blockStart, blockEnd) && StackIs(types, k, blockStart, stack)
    requires types[k] !in blockStart && types[k] !in blockEnd
    ensures StackIs(types, k + 1, blockStart, stack)
  {
    hide Begin, End, Precedes, NoCrossing;
    forall c
      ensures IsOpen(types[..k + 1], blockStart, c) <==> IsOpen(types[..k], blockStart, c)
    {
      BlockValues(blockStart, blockEnd, c);
      InFront(types, k, Begin(c));
      InFront(types, k, End(c));
    }
  }

  lemma {:induction false} StackAfter(types: seq<string>, k: nat, blockStart: map<string, string>, blockEnd: map<string, string>)
    requires k <= |types| && Proper(types, blockStart, blockEnd)
    ensures var stack := Stack(types[..k], blockStart, blockEnd); stack.Some? && StackIs(types, k, blockStart, stack.value)
    decreases k
  {
    hide Proper, StackIs;
    if k == 0 {
      NothingOpen(types, blockStart);
    } else {
      StackAfter(types, k - 1, blockStart, blockEnd);
      var n, before := types[k - 1], Stack(types[..k - 1], blockStart, blockEnd).value;
      assert types[..k][..k - 1] == types[..k - 1];
      if n in blockStart {
        StackBegins(types, k - 1, blockStart, blockEnd, before);
      } else if n in blockEnd {
        StackEnds(types, k - 1, blockStart, blockEnd, before);
      } else {
        StackStays(types, k - 1, blockStart, blockEnd, before);
      }
    }
  }

  lemma NothingOpen(types: seq<string>, blockStart: map<string, string>)
    ensures StackIs(types, 0, blockStart, [])
  {
  }

  /** The blocks around a type are those on the stack, with the one that it begins. */
  lemma EnclosesIff(
    types: seq<string>, k: nat, blockStart: map<string, string>, blockEnd: map<string, string>, stack: seq<string>, b: string)
    requires k < |types| && Proper(types, blockStart, blockEnd) && StackIs(types, k, blockStart, stack)
    ensures b in Push(stack, types[k], blockStart) <==> b in blockStart.Values && Encloses(types, b, k)
  {
    hide Begin, End, NoCrossing;
    var n := types[k];
    assert b in Push(stack, n, blockStart) <==> b in stack || (n in blockStart && blockStart[n] == b);
    BlockValues(blockStart, blockEnd, b);
    assert n in blockStart && blockStart[n] == b <==> b in blockStart.Values && n == Begin(b);
    if b in blockStart.Values && (Begin(b) in types || End(b) in types) {
      PlaceIff(types, k, b);
    } else if b in blockStart.Values {
      assert Begin(b) !in types[..k] && n != Begin(b);
    }
  }

  lemma PlaceIff(types: seq<string>, k: nat, b: string)
    requires k < |types| && Distinct(types) && Precedes(types, Begin(b), End(b))
    ensures Encloses(types, b, k) <==> (Begin(b) in types[..k] && End(b) !in types[..k]) || types[k] == Begin(b)
  {
    hide Begin, End;
    var i, j :| 0 <= i < j < |types| && types[i] == Begin(b) && types[j] == End(b);
    assert Encloses(types, b, k) <==> i <= k <= j;
    assert Begin(b) in types[..k] <==> i < k by {
      assert i < k ==> types[..k][i] == Begin(b);
    }
    assert End(b) in types[..k] <==> j < k by {
      assert j < k ==> types[..k][j] == End(b);
    }
  }

  lemma {:induction false} RemainingIsVisible(
    types: seq<string>, k: nat, blockStart: map<string, string>, blockEnd: map<string, string>, excluded: set<string>)
    requires k <= |types| && Proper(types, blockStart, blockEnd) && Stack(types[..k], blockStart, blockEnd).Some?
    ensures Remaining(types[..k], blockStart, blockEnd, excluded) == Visible(types, blockStart, excluded, k)
    decreases k
  {
    hide Proper, StackIs, Encloses, Push;
    if k > 0 {
      var front, n := types[..k - 1], types[k - 1];
      assert types[..k][..k - 1] == front;
      StackAfter(types, k - 1, blockStart, blockEnd);
      RemainingIsVisible(types, k - 1, blockStart, blockEnd, excluded);
      var begun := Push(Stack(front, blockStart, blockEnd).value, n, blockStart);
      forall b
        ensures b in begun <==> b in blockStart.Values && Encloses(types, b, k - 1)
      {
        EnclosesIff(types, k - 1, blockStart, blockEnd, Stack(front, blockStart, blockEnd).value, b);
      }
    }
  }

  /** With blocks that begin before they end and do not cross, the table holds, for every set of excluded names, exactly
      the types that are not excluded and in no excluded block, in order. */
  lemma TableHolds(types: seq<string>, blockStart: map<string, string>, blockEnd: map<string, string>, excluded: set<string>)
    requires BlockNames(blockStart, blockEnd) && Distinct(types)
    requires Paired(types, blockStart, blockEnd) && NoCrossing(types, blockStart.Values)
    ensures Table(ListLines(types, blockStart, blockEnd), [], excluded) ==
            Some(Visible(types, blockStart, excluded, |types|))
  {
    hide Paired, Table, StackIs, BlockNames;
    PairedIff(types, blockStart, blockEnd);
    assert types[..|types|] == types;
    StackAfter(types, |types|, blockStart, blockEnd);
    AllClosed(types, blockStart, blockEnd, Stack(types, blockStart, blockEnd).value);
    RemainingIsVisible(types, |types|, blockStart, blockEnd, excluded);
    ListPieces(types, blockStart, blockEnd, excluded);
    TableIsEntries(ListLines(types, blockStart, blockEnd), [], excluded);
    assert Flags([], excluded) == [];
  }

  lemma AllClosed(types: seq<string>, blockStart: map<string, string>, blockEnd: map<string, string>, stack: seq<string>)
    requires Proper(types, blockStart, blockEnd) && StackIs(types, |types|, blockStart, stack)
    ensures stack == []
  {
    hide Begin, End, Precedes, NoCrossing;
    assert types[..|types|] == types;
    if stack != [] {
      var b := stack[0];
      assert b in stack && IsOpen(types, blockStart, b);
      PrecedesMembers(types, Begin(b), End(b));
    }
  }

  // ----- Blocks that cross -----

  /** Where block b begins inside block a and ends after it, the end of a ends the condition of b: with a excluded, a type
      x behind a is lost, and with b excluded, x stays although it is in b. */
  lemma CrossedTable(a: string, b: string, x: string, types: seq<string>,
                     blockStart: map<string, string>, blockEnd: map<string, string>)
    requires a != b && x != a && x != b && b != Begin(a)
    requires x !in {Begin(a), Begin(b), End(a), End(b)}
    requires blockStart == map[Begin(a) := a, Begin(b) := b] && blockEnd == map[End(a) := a, End(b) := b]
    requires types == [Begin(a), Begin(b), End(a), x, End(b)]
    ensures Crossing(types, a, b) && Encloses(types, b, 3) && !Encloses(types, a, 3)
    ensures Table(ListLines(types, blockStart, blockEnd), [], {a}) == Some([])
    ensures Table(ListLines(types, blockStart, blockEnd), [], {b}) == Some([Begin(a), x, End(b)])
  {
    assert End(b) != b && |End(b)| > |b|;
    hide Begin, End, Table, ListLines, Clear;
    BoundariesDiffer(a, b);
    BoundariesDiffer(b, a);
    BoundariesDiffer(a, a);
    BoundariesDiffer(b, b);
    assert types[0] == Begin(a) && types[1] == Begin(b) && types[2] == End(a) && types[4] == End(b);
    CrossedRemains(Begin(a), Begin(b), End(a), x, End(b), a, b, types, blockStart, blockEnd, {a});
    CrossedRemains(Begin(a), Begin(b), End(a), x, End(b), a, b, types, blockStart, blockEnd, {b});
    CrossedClear(a, b);
    var none: seq<string> := [];
    assert none + [] + [] + [] + [] + [] == none;
    assert none + [Begin(a)] + [] + [] + [x] + [End(b)] == [Begin(a), x, End(b)];
  }

  lemma CrossedClear(a: string, b: string)
    requires a != b
    ensures !Clear([a], {a}) && !Clear([a, b], {a}) && Clear([a], {b}) && !Clear([a, b], {b})
  {
    assert a in [a] && a in [a, b] && b in [a, b];
  }

  function If(c: bool, n: string): seq<string> {
    if c then [n] else []
  }

  /** The conditions around each type, `qa` to `ra` and `qb` to `rb` being the blocks. */
  lemma CrossedRemains(
    qa: string, qb: string, ra: string, x: string, rb: string, a: string, b: string, types: seq<string>,
    blockStart: map<string, string>, blockEnd: map<string, string>, excluded: set<string>)
    requires qa != qb && ra != rb && qa !in {ra, rb} && qb !in {ra, rb} && x !in {qa, qb, ra, rb}
    requires blockStart == map[qa := a, qb := b] && blockEnd == map[ra := a, rb := b] && types == [qa, qb, ra, x, rb]
    ensures Table(ListLines(types, blockStart, blockEnd), [], excluded) == Some(
      [] + If(qa !in excluded && Clear([a], excluded), qa) + If(qb !in excluded && Clear([a, b], excluded), qb)
      + If(ra !in excluded && Clear([a, b], excluded), ra) + If(x !in excluded && Clear([a], excluded), x)
      + If(rb !in excluded && Clear([a], excluded), rb))
  {
    hide Stack, Remaining, Clear, Table, If;
    NoTypes(blockStart, blockEnd, excluded);
    assert [] + [a] == [a] && [a] + [b] == [a, b] && [a, b][..1] == [a] && [a][..0] == [];
    OneMore([], qa, blockStart, blockEnd, excluded, []);
    OneMore([] + [qa], qb, blockStart, blockEnd, excluded, [a]);
    OneMore([] + [qa] + [qb], ra, blockStart, blockEnd, excluded, [a, b]);
    OneMore([] + [qa] + [qb] + [ra], x, blockStart, blockEnd, excluded, [a]);
    OneMore([] + [qa] + [qb] + [ra] + [x], rb, blockStart, blockEnd, excluded, [a]);
    assert [] + [qa] + [qb] + [ra] + [x] + [rb] == types;
    ListPieces(types, blockStart, blockEnd, excluded);
    TableIsEntries(ListLines(types, blockStart, blockEnd), [], excluded);
    assert Flags([], excluded) == [];
  }

  lemma NoTypes(blockStart: map<string, string>, blockEnd: map<string, string>, excluded: set<string>)
    ensures Stack([], blockStart, blockEnd) == Some([]) && Remaining([], blockStart, blockEnd, excluded) == []
  {
  }

  lemma OneMore(front: seq<string>, n: string, blockStart: map<string, string>, blockEnd: map<string, string>,
                excluded: set<string>, stack: seq<string>)
    requires Stack(front, blockStart, blockEnd) == Some(stack)
    ensures var begun, more := Push(stack, n, blockStart), front + [n];
      && (n !in blockEnd ==> Stack(more, blockStart, blockEnd) == Some(begun))
      && (n in blockEnd && begun != [] ==> Stack(more, blockStart, blockEnd) == Some(begun[..|begun| - 1]))
      && (Stack(more, blockStart, blockEnd).Some? ==>
            Remaining(more, blockStart, blockEnd, excluded) ==
            Remaining(front, blockStart, blockEnd, excluded) + If(n !in excluded && Clear(begun, excluded), n))
  {
    assert (front + [n])[..|front|] == front;
  }
}

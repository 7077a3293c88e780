/** The in-place command line parser of the demonstration client (argparse.c).

    The parser compacts its own input array: arguments that are not options move to the front
    while the rest of the array is still being read. It is proved to compute what a parser on
    lists computes that never touches its input.
 */
module ArgParse {
  import opened Basics

  datatype Kind = Group | Boolean | Bit | Integer | Float | Text

  /** What the callback of an option does: nothing, return a code, or end the program. */
  datatype Callback = NoCallback | Returns(code: int) | Exits

  /** An entry of the option table; `stores` says whether it has a variable for its value. */
  datatype Entry = Entry(
    kind: Kind,
    shortName: Option<char>,
    longName: Option<string>,
    stores: bool,
    noNegation: bool,
    callback: Callback)

  /** An update of the variable of entry number `entry`. */
  datatype Update =
    | Increase(entry: nat)
    | Decrease(entry: nat)
    | SetBits(entry: nat)
    | ClearBits(entry: nat)
    | Assign(entry: nat, text: string)

  /** `accepts` says which texts strtol and strtof read completely, without an error. */
  datatype Config = Config(entries: seq<Entry>, stopAtNonOption: bool, accepts: (Kind, string) -> bool)

  // ----- The parser on lists -----

  /** The arguments after the current one, the value pending for the current option, and the updates so far. */
  datatype State = State(rest: seq<string>, pending: Option<string>, updates: seq<Update>)

  /** A handler goes on with a code, 0 or -1 for success and -2 for an unknown option, or the program ends. */
  datatype Step = Goes(code: int, s: State) | Ends

  datatype Outcome = Parsed(out: seq<string>, updates: seq<Update>) | Ended

  function RunCallback(e: Entry, s: State): (r: Step)
    ensures r.Goes? ==> r.s == s
  {
    match e.callback
    case NoCallback => Goes(0, s)
    case Returns(code) => Goes(code, s)
    case Exits => Ends
  }

  /** From `s` to `t` nothing is taken from the arguments to come, or the next one, as the text of the last update. */
  ghost predicate Takes(s: State, t: State) {
    && s.updates <= t.updates
    && (|| t.rest == s.rest
        || (&& s.rest != [] && t.rest == s.rest[1..] && |t.updates| > |s.updates|
            && t.updates[|t.updates| - 1].Assign? && t.updates[|t.updates| - 1].text == s.rest[0]))
  }

  /** Store the value of an option that needs one: the pending text, or else the next argument. */
  function StoreText(c: Config, n: nat, s: State): (r: Option<State>)
    requires n < |c.entries|
    ensures r.Some? ==> r.value.pending == None && Takes(s, r.value)
  {
    if s.pending.None? && s.rest == [] then None
    else
      var text := if s.pending.Some? then s.pending.value else s.rest[0];
      var rest := if s.pending.Some? then s.rest else s.rest[1..];
      var kind := c.entries[n].kind;
      if kind != Text && !c.accepts(kind, text) then None
      else Some(State(rest, None, s.updates + [Assign(n, text)]))
  }

  /** A handler takes at most one more argument, and keeps or uses up the pending text. */
  ghost predicate Consumes(s: State, r: Step) {
    r.Goes? ==>
      && Takes(s, r.s)
      && (r.s.pending == s.pending || r.s.pending == None)
      && (r.s.rest != s.rest ==> r.s.pending == None)
  }

  function GetValue(c: Config, n: nat, unset: bool, s: State): (r: Step)
    requires n < |c.entries|
    ensures Consumes(s, r)
  {
    var e := c.entries[n];
    if !e.stores then RunCallback(e, s)
    else
      match e.kind
      case Boolean => RunCallback(e, s.(updates := s.updates + [if unset then Decrease(n) else Increase(n)]))
      case Bit => RunCallback(e, s.(updates := s.updates + [if unset then ClearBits(n) else SetBits(n)]))
      case Group => Ends
      case _ =>
        var stored := StoreText(c, n, s);
        if stored.None? then Ends else RunCallback(e, stored.value)
  }

  predicate ShortMatches(e: Entry, ch: char) {
    e.shortName == Some(ch)
  }

  /** The rest of a cluster of short options, none when it is used up. */
  function Cluster(text: string): Option<string>
    requires text != ""
  {
    if |text| > 1 then Some(text[1..]) else None
  }

  function PendingSize(p: Option<string>): nat {
    if p.None? then 0 else 1 + |p.value|
  }

  function ShortOption(c: Config, from: nat, s: State): (r: Step)
    requires from <= |c.entries| && s.pending.Some? && s.pending.value != ""
    ensures r.Goes? && r != Goes(-2, s) ==>
      && Consumes(s.(pending := Cluster(s.pending.value)), r)
      && PendingSize(r.s.pending) < PendingSize(s.pending)
    decreases |c.entries| - from
  {
    if from == |c.entries| then Goes(-2, s)
    else if ShortMatches(c.entries[from], s.pending.value[0]) then
      GetValue(c, from, false, s.(pending := Cluster(s.pending.value)))
    else ShortOption(c, from + 1, s)
  }

  /** The text after `prefix`, if the argument starts with it. */
  function AfterPrefix(text: string, prefix: string): Option<string> {
    if prefix <= text then Some(text[|prefix|..]) else None
  }

  /** How the name of an argument matches an entry: what follows the name, and whether it is negated. */
  function LongMatch(e: Entry, name: string): Option<(string, bool)> {
    if e.longName.None? then None
    else
      var plain := AfterPrefix(name, e.longName.value);
      if plain.Some? then Some((plain.value, false))
      else if e.noNegation || (e.kind != Boolean && e.kind != Bit) then None
      else
        var positive := AfterPrefix(name, "no-");
        if positive.None? then None
        else
          var rest := AfterPrefix(positive.value, e.longName.value);
          if rest.None? then None else Some((rest.value, true))
  }

  /** `name` is the argument without its two dashes. A value given with `=` stays pending when the option
      does not take it. */
  function LongOption(c: Config, from: nat, name: string, s: State): (r: Step)
    requires from <= |c.entries|
    ensures r.Goes? ==> Takes(s, r.s)
    decreases |c.entries| - from
  {
    if from == |c.entries| then Goes(-2, s)
    else
      var m := LongMatch(c.entries[from], name);
      if m.None? || (m.value.0 != "" && m.value.0[0] != '=') then LongOption(c, from + 1, name, s)
      else
        var s' := if m.value.0 == "" then s else s.(pending := Some(m.value.0[1..]));
        GetValue(c, from, m.value.1, s')
  }

  predicate Succeeds(r: Step) {
    r.Goes? && (r.code == 0 || r.code == -1)
  }

  /** The options of a cluster such as `-xvf`, one after another; any of them may take the rest of the
      cluster, or the next argument, as its value. */
  function ShortCluster(c: Config, s: State): (r: Step)
    requires s.pending.Some? && s.pending.value != ""
    ensures r.Goes? ==> Succeeds(r) && r.s.pending == None && Takes(s, r.s)
    decreases PendingSize(s.pending)
  {
    var r := ShortOption(c, 0, s);
    if !Succeeds(r) then Ends
    else if r.s.pending.None? then r
    else ShortCluster(c, r.s)
  }

  /** An argument that is copied: it does not start with a dash, or is a single dash. */
  predicate NonOption(arg: string) {
    arg == "" || arg[0] != '-' || |arg| == 1
  }

  /** The handling of the first argument, an option. */
  function OptionStep(c: Config, args: seq<string>, pending: Option<string>, updates: seq<Update>): (r: Step)
    requires args != [] && !NonOption(args[0]) && args[0] != "--"
    ensures r.Goes? ==> |r.s.rest| < |args| && Takes(State(args[1..], pending, updates), r.s)
  {
    var arg, rest := args[0], args[1..];
    if arg[1] != '-' then ShortCluster(c, State(rest, Some(arg[1..]), updates))
    else LongOption(c, 0, arg[2..], State(rest, pending, updates))
  }

  /** The parser on lists; `kept` are the arguments copied so far. */
  function Parse(c: Config, args: seq<string>, pending: Option<string>, kept: seq<string>, updates: seq<Update>): Outcome
    decreases |args|
  {
    if args == [] then Parsed(kept, updates)
    else
      var arg, rest := args[0], args[1..];
      if NonOption(arg) then
        if c.stopAtNonOption then Parsed(kept + args, updates)
        else Parse(c, rest, pending, kept + [arg], updates)
      else if arg == "--" then Parsed(kept + rest, updates)
      else
        var r := OptionStep(c, args, pending, updates);
        if !Succeeds(r) then Ended
        else Parse(c, r.s.rest, r.s.pending, kept, r.s.updates)
  }

  // ----- A value that one option leaves to another -----

  /** The entry takes the text that is pending when it is handled. */
  predicate TakesText(e: Entry) {
    e.stores && (e.kind == Integer || e.kind == Float || e.kind == Text)
  }

  /** After an option that was given a value with `=`, the value is still pending, for whatever option
      comes next, if and only if the option does not take a text. */
  lemma ValueLeftPendingIff(c: Config, n: nat, unset: bool, s: State)
    requires n < |c.entries| && s.pending.Some? && GetValue(c, n, unset, s).Goes?
    ensures GetValue(c, n, unset, s).s.pending == s.pending <==> !TakesText(c.entries[n])
  {
  }

  /** `--v=x --name y`, where v is a flag: name gets x, and y is kept as an argument. */
  lemma ValueTakenByNextOption()
    ensures var v := Entry(Boolean, None, Some("v"), true, false, NoCallback);
      var name := Entry(Text, None, Some("name"), true, false, NoCallback);
      var c := Config([v, name], false, (_, _) => true);
      Parse(c, ["--v=x", "--name", "y"], None, [], []) == Parsed(["y"], [Increase(0), Assign(1, "x")])
  {
    var v := Entry(Boolean, None, Some("v"), true, false, NoCallback);
    var name := Entry(Text, None, Some("name"), true, false, NoCallback);
    var c := Config([v, name], false, (_, _) => true);
    var all, rest, u := ["--v=x", "--name", "y"], ["--name", "y"], [Increase(0), Assign(1, "x")];
    assert all[1..] == rest && rest[1..] == ["y"] && ["y"][1..] == [];
    assert "--v=x"[2..] == "v=x" && "--name"[2..] == "name";
    FlagWithValue(c, State(rest, None, []));
    NameTakesPending(c, State(["y"], Some("x"), [Increase(0)]));
    hide LongOption, Parse;
    assert [] + [Increase(0)] == [Increase(0)] && [Increase(0)] + [Assign(1, "x")] == u && [] + ["y"] == ["y"];
    ParseUnfolds(c, all, None, [], []);
    ParseUnfolds(c, rest, Some("x"), [], [Increase(0)]);
    ParseUnfolds(c, ["y"], None, [], u);
    ParseUnfolds(c, [], None, ["y"], u);
  }

  lemma FlagWithValue(c: Config, s: State)
    requires |c.entries| == 2 && c.entries[0] == Entry(Boolean, None, Some("v"), true, false, NoCallback)
    ensures LongOption(c, 0, "v=x", s) == Goes(0, s.(pending := Some("x"), updates := s.updates + [Increase(0)]))
  {
    assert "v=x"[1..] == "=x" && "=x"[1..] == "x";
  }

  lemma NameTakesPending(c: Config, s: State)
    requires |c.entries| == 2 && c.entries[0] == Entry(Boolean, None, Some("v"), true, false, NoCallback)
    requires c.entries[1] == Entry(Text, None, Some("name"), true, false, NoCallback) && s.pending == Some("x")
    ensures LongOption(c, 0, "name", s) == Goes(0, s.(pending := None, updates := s.updates + [Assign(1, "x")]))
  {
    assert "v"[0] != "name"[0] && "no-"[1] != "name"[1];
    assert !("v" <= "name") && !("no-" <= "name");
    assert "name"[4..] == "";
    assert LongOption(c, 0, "name", s) == LongOption(c, 1, "name", s);
  }

  // ----- The parser in place -----

  function Texts(slots: seq<Option<string>>): seq<string> {
    seq(|slots|, i requires 0 <= i < |slots| => if slots[i].Some? then slots[i].value else "")
  }

  class Parser {
    const config: Config
    /** The argument vector, which is also the output. */
    const args: array<Option<string>>
    /** The number of arguments left, including the current one, and the index of the current one. */
    var argc: nat
    var pos: nat
    /** The number of arguments copied to the front. */
    var cpidx: nat
    var optvalue: Option<string>
    var updates: seq<Update>
    /** The arguments as they were given. */
    ghost var input: seq<string>

    constructor (config: Config, args: array<Option<string>>)
      ensures this.config == config && this.args == args
      ensures cpidx == 0 && optvalue == None && updates == []
    {
      this.config, this.args := config, args;
      argc, pos, cpidx, optvalue, updates, input := 0, 0, 0, None, [], [];
    }

    /** No slot from the current argument on has been written. */
    ghost predicate Reading()
      reads this, args
    {
      && pos + argc == |input| < args.Length
      && cpidx < pos
      && forall i :: pos <= i < |input| ==> args[i] == Some(input[i])
    }

    ghost function View(): State
      requires pos + argc == |input| && argc > 0
      reads this
    {
      State(input[pos + 1..], optvalue, updates)
    }

    method Callback(n: nat) returns (ended: bool, code: int)
      requires n < |config.entries|
      ensures forall s :: RunCallback(config.entries[n], s) == if ended then Ends else Goes(code, s)
    {
      match config.entries[n].callback
      case NoCallback => return false, 0;
      case Returns(k) => return false, k;
      case Exits => return true, 0;
    }

    /** The value of an option: the pending text, or the next argument, which is then used up. */
    method StoreTextInPlace(n: nat) returns (ended: bool)
      requires Reading() && argc > 0 && n < |config.entries|
      modifies this`argc, this`pos, this`optvalue, this`updates
      ensures !ended ==> Reading() && argc > 0
      ensures StoreText(config, n, old(View())) == if ended then None else Some(View())
    {
      hide Takes;
      var text;
      if optvalue.Some? {
        text := optvalue.value;
        optvalue := None;
      } else if argc > 1 {
        argc := argc - 1;
        pos := pos + 1;
        text := args[pos].value;
      } else {
        return true;
      }
      var kind := config.entries[n].kind;
      if kind != Text && !config.accepts(kind, text) {
        return true;
      }
      updates := updates + [Assign(n, text)];
      return false;
    }

    /** `argparse_getvalue` */
    method GetValueInPlace(n: nat, unset: bool) returns (ended: bool, code: int)
      requires Reading() && argc > 0 && n < |config.entries|
      modifies this`argc, this`pos, this`optvalue, this`updates
      ensures !ended ==> Reading() && argc > 0
      ensures GetValue(config, n, unset, old(View())) == if ended then Ends else Goes(code, View())
    {
      var e := config.entries[n];
      if e.stores {
        match e.kind
        case Boolean => updates := updates + [if unset then Decrease(n) else Increase(n)];
        case Bit => updates := updates + [if unset then ClearBits(n) else SetBits(n)];
        case Group => return true, 0;
        case _ =>
          ended := StoreTextInPlace(n);
          if ended {
            return true, 0;
          }
      }
      ended, code := Callback(n);
    }

    /** `argparse_short_opt` */
    method ShortOpt() returns (ended: bool, code: int)
      requires Reading() && argc > 0 && optvalue.Some? && optvalue.value != ""
      modifies this`argc, this`pos, this`optvalue, this`updates
      ensures !ended ==> Reading() && argc > 0
      ensures ShortOption(config, 0, old(View())) == if ended then Ends else Goes(code, View())
    {
      hide GetValue;
      ghost var s := View();
      for n := 0 to |config.entries|
        invariant Reading() && argc > 0 && View() == s && optvalue.Some? && optvalue.value != ""
        invariant ShortOption(config, 0, s) == ShortOption(config, n, s)
      {
        if ShortMatches(config.entries[n], optvalue.value[0]) {
          optvalue := Cluster(optvalue.value);
          ended, code := GetValueInPlace(n, false);
          return;
        }
      }
      return false, -2;
    }

    /** `argparse_long_opt` */
    method LongOpt(name: string) returns (ended: bool, code: int)
      requires Reading() && argc > 0
      modifies this`argc, this`pos, this`optvalue, this`updates
      ensures !ended ==> Reading() && argc > 0
      ensures LongOption(config, 0, name, old(View())) == if ended then Ends else Goes(code, View())
    {
      hide GetValue;
      ghost var s := View();
      for n := 0 to |config.entries|
        invariant Reading() && argc > 0 && View() == s
        invariant LongOption(config, 0, name, s) == LongOption(config, n, name, s)
      {
        var m := LongMatch(config.entries[n], name);
        if m.None? || (m.value.0 != "" && m.value.0[0] != '=') {
          continue;
        }
        if m.value.0 != "" {
          optvalue := Some(m.value.0[1..]);
        }
        ended, code := GetValueInPlace(n, m.value.1);
        return;
      }
      return false, -2;
    }

    /** The loop over a cluster of short options. */
    method ShortOpts() returns (ended: bool)
      requires Reading() && argc > 0 && optvalue.Some? && optvalue.value != ""
      modifies this`argc, this`pos, this`optvalue, this`updates
      ensures !ended ==> Reading() && argc > 0
      ensures var r := ShortCluster(config, old(View()));
        if ended then r == Ends else r.Goes? && r.s == View()
    {
      ghost var s := View();
      var code;
      ended, code := ShortOpt();
      if ended || (code != 0 && code != -1) {
        return true;
      }
      while optvalue.Some?
        invariant Reading() && argc > 0 && !ended
        invariant optvalue.Some? ==> optvalue.value != "" && ShortCluster(config, s) == ShortCluster(config, View())
        invariant optvalue.None? ==> ShortCluster(config, s).Goes? && ShortCluster(config, s).s == View()
        decreases PendingSize(optvalue)
      {
        ended, code := ShortOpt();
        if ended || (code != 0 && code != -1) {
          return true;
        }
      }
    }

    /** The front of the array holds exactly the arguments `kept`. */
    ghost predicate Kept(kept: seq<string>)
      reads this`cpidx, args
    {
      |kept| == cpidx <= args.Length && forall i :: 0 <= i < cpidx ==> args[i] == Some(kept[i])
    }

    /** The final memmove and the terminator: the unread arguments follow those at the front. */
    method MoveTail(ghost kept: seq<string>) returns (n: nat)
      requires Reading() && Kept(kept)
      modifies args
      ensures n == cpidx + argc < args.Length
      ensures forall i :: 0 <= i < n ==> args[i] == Some((kept + input[pos..])[i])
      ensures args[n] == None
      ensures forall i :: n < i < args.Length ==> args[i] == old(args[i])
    {
      ghost var out := kept + input[pos..];
      for i := 0 to argc
        invariant forall j :: 0 <= j < cpidx + i ==> args[j] == Some(out[j])
        invariant forall j :: cpidx + i <= j < args.Length ==> args[j] == old(args[j])
      {
        args[cpidx + i] := args[pos + i];
      }
      n := cpidx + argc;
      args[n] := None;
    }

    /** The handling of an option, which is the current argument. */
    method HandleOption() returns (ended: bool)
      requires Reading() && argc > 0 && !NonOption(input[pos]) && input[pos] != "--"
      modifies this`argc, this`pos, this`optvalue, this`updates
      ensures !ended ==> Reading() && argc > 0
      ensures var r := OptionStep(config, old(input[pos..]), old(optvalue), old(updates));
        if ended then !Succeeds(r) else Succeeds(r) && r.s == View()
    {
      var arg := args[pos].value;
      assert input[pos..][1..] == input[pos + 1..];
      if arg[1] != '-' {
        optvalue := Some(arg[1..]);
        ended := ShortOpts();
      } else {
        var code;
        ended, code := LongOpt(arg[2..]);
        ended := ended || (code != 0 && code != -1);
      }
    }

    /** The current argument is copied to the front. */
    method KeepArgument(ghost kept: seq<string>)
      requires Reading() && Kept(kept) && argc > 0
      modifies this`cpidx, args
      ensures pos + argc == |input| < args.Length && cpidx <= pos
      ensures forall i :: pos < i < |input| ==> args[i] == Some(input[i])
      ensures Kept(kept + [input[pos]])
      ensures cpidx == old(cpidx) + 1
      ensures forall i :: cpidx <= i < args.Length ==> args[i] == old(args[i])
    {
      args[cpidx] := args[pos];
      cpidx := cpidx + 1;
    }

    /** The loop of `argparse_parse`; `given` are the arguments after the program name. */
    method ReadArguments(ghost given: seq<string>) returns (ended: bool, ghost kept: seq<string>)
      requires Reading() && Kept([]) && pos == 1 && input[1..] == given && optvalue == None && updates == []
      modifies this`argc, this`pos, this`cpidx, this`optvalue, this`updates, args
      ensures ended ==> Parse(config, given, None, [], []) == Ended
      ensures !ended ==> Reading() && Kept(kept)
      ensures !ended ==> Parse(config, given, None, [], []) == Parsed(kept + input[pos..], updates)
      ensures forall i :: cpidx <= i < args.Length ==> args[i] == old(args[i])
    {
      hide OptionStep, Parse, Kept, NonOption, Takes;
      kept := [];
      while argc > 0
        invariant Reading() && Kept(kept)
        invariant forall i :: cpidx <= i < args.Length ==> args[i] == old(args[i])
        invariant Parse(config, given, None, [], []) == Parse(config, input[pos..], optvalue, kept, updates)
        decreases argc
      {
        var arg := args[pos].value;
        assert input[pos..][1..] == input[pos + 1..];
        ParseUnfolds(config, input[pos..], optvalue, kept, updates);
        if NonOption(arg) {
          if config.stopAtNonOption {
            return false, kept;
          }
          KeepArgument(kept);
          kept := kept + [arg];
        } else if arg == "--" {
          argc, pos := argc - 1, pos + 1;
          return false, kept;
        } else {
          ended := HandleOption();
          if ended {
            return true, kept;
          }
        }
        argc, pos := argc - 1, pos + 1;
      }
      ParseUnfolds(config, input[pos..], optvalue, kept, updates);
      assert kept + input[pos..] == kept;
      ended := false;
    }

    /** `argparse_parse` on a terminated vector of at least one argument, the program name. When it returns
        (`ended` is false) the front of the vector holds the result of the parser on lists, then comes the
        terminator, and no slot behind it has been written. */
    method ParseInPlace(count: nat) returns (ended: bool, n: nat)
      requires 1 <= count < args.Length && forall i :: 0 <= i < count ==> args[i].Some?
      requires cpidx == 0 && optvalue == None && updates == []
      modifies this, args
      ensures match Parse(config, Texts(old(args[1..count])), None, [], [])
        case Ended => ended
        case Parsed(out, changes) =>
          && !ended && n == |out| < count && updates == changes
          && (forall i :: 0 <= i < n ==> args[i] == Some(out[i]))
          && args[n] == None
          && (forall i :: n < i < args.Length ==> args[i] == old(args[i]))
    {
      hide Parse;
      argc, pos := count - 1, 1;
      input := Texts(args[..count]);
      ghost var given := Texts(args[1..count]);
      assert input[1..] == given;
      ghost var kept;
      ended, kept := ReadArguments(given);
      n := 0;
      if !ended {
        n := MoveTail(kept);
      }
    }
  }

  lemma ParseUnfolds(c: Config, args: seq<string>, pending: Option<string>, kept: seq<string>, updates: seq<Update>)
    ensures Parse(c, args, pending, kept, updates) ==
      if args == [] then Parsed(kept, updates)
      else if NonOption(args[0]) then
        if c.stopAtNonOption then Parsed(kept + args, updates)
        else Parse(c, args[1..], pending, kept + [args[0]], updates)
      else if args[0] == "--" then Parsed(kept + args[1..], updates)
      else
        var r := OptionStep(c, args, pending, updates);
        if Succeeds(r) then Parse(c, r.s.rest, r.s.pending, kept, r.s.updates) else Ended
  {
    hide OptionStep;
  }
}

/** What the argument parser does with a command line, told from the command line and the option table alone: which
    arguments are options, which of them take the next argument, what each of them updates, when the program ends, and
    where parsing stops.
 */
module ArgShape {
  import opened Basics
  import opened ArgParse
  import opened ArgLaws

  // ----- What an option does -----

  /** Whether the option takes the next argument, the updates it makes, and the text pending after it. */
  datatype Effect = Effect(takesNext: bool, updates: seq<Update>, pending: Option<string>)

  /** The text for an option: the one that is pending, or else the next argument. */
  function TextFor(pending: Option<string>, rest: seq<string>): Option<string> {
    if pending.Some? then pending else if rest == [] then None else Some(rest[0])
  }

  /** Handling the entry does not end the program: its callback returns 0 or -1, it is no group with a variable, and if
      it takes a text there is one, which can be read. */
  predicate Handled(c: Config, n: nat, pending: Option<string>, rest: seq<string>)
    requires n < |c.entries|
  {
    var e, text := c.entries[n], TextFor(pending, rest);
    && (e.callback == NoCallback || e.callback == Returns(0) || e.callback == Returns(-1))
    && (e.stores ==> e.kind != Group)
    && (TakesText(e) ==> text.Some? && (e.kind == Text || c.accepts(e.kind, text.value)))
  }

  function FlagUpdates(e: Entry, n: nat, unset: bool): seq<Update> {
    if !e.stores then []
    else if e.kind == Boolean then [if unset then Decrease(n) else Increase(n)]
    else [if unset then ClearBits(n) else SetBits(n)]
  }

  /** What an entry does, none if it ends the program. */
  function EntryEffect(c: Config, n: nat, unset: bool, pending: Option<string>, rest: seq<string>): Option<Effect>
    requires n < |c.entries|
  {
    if !Handled(c, n, pending, rest) then None
    else if TakesText(c.entries[n]) then
      Some(Effect(pending.None?, [Assign(n, TextFor(pending, rest).value)], None))
    else Some(Effect(false, FlagUpdates(c.entries[n], n, unset), pending))
  }

  /** A cluster of short options: one after another, until one of them takes the rest of the cluster as its text. */
  function ClusterEffect(c: Config, cluster: string, rest: seq<string>): Option<Effect>
    requires cluster != ""
  {
    var n := FirstShort(c, 0, cluster[0]);
    if n.None? then None
    else
      var e := EntryEffect(c, n.value, false, Cluster(cluster), rest);
      if e.None? || e.value.pending.None? then e
      else
        var more := ClusterEffect(c, cluster[1..], rest);
        if more.None? then None else Some(more.value.(updates := e.value.updates + more.value.updates))
  }

  /** The first entry that matches a long option, whether it is negated, and what follows the name. */
  function LongEntry(c: Config, from: nat, name: string): (r: Option<(nat, bool, string)>)
    requires from <= |c.entries|
    ensures r.Some? ==> r.value.0 < |c.entries|
    decreases |c.entries| - from
  {
    if from == |c.entries| then None
    else
      var m := LongMatch(c.entries[from], name);
      if m.Some? && (m.value.0 == "" || m.value.0[0] == '=') then Some((from, m.value.1, m.value.0))
      else LongEntry(c, from + 1, name)
  }

  /** For a long option, the text after `=` is pending in place of one that was left over. */
  function LongEffect(c: Config, name: string, pending: Option<string>, rest: seq<string>): Option<Effect> {
    var e := LongEntry(c, 0, name);
    if e.None? then None
    else
      var (n, unset, after) := e.value;
      EntryEffect(c, n, unset, if after == "" then pending else Some(after[1..]), rest)
  }

  function OptionEffect(c: Config, arg: string, pending: Option<string>, rest: seq<string>): Option<Effect>
    requires !NonOption(arg)
  {
    if arg[1] != '-' then ClusterEffect(c, arg[1..], rest) else LongEffect(c, arg[2..], pending, rest)
  }

  // ----- Which entry an option names -----

  /** The option `--name` or `--no-name`, possibly with a value. */
  function Spelled(e: Entry, unset: bool, after: string): string
    requires e.longName.Some?
  {
    (if unset then "no-" else "") + e.longName.value + after
  }

  /** The entry can be called by this text: with its name, or negated if it is a flag that allows it. */
  ghost predicate Calls(e: Entry, unset: bool, after: string, name: string) {
    && e.longName.Some? && name == Spelled(e, unset, after) && (after == "" || after[0] == '=')
    && (unset ==> !e.noNegation && (e.kind == Boolean || e.kind == Bit) && !(e.longName.value <= name))
  }

  lemma LongMatchIff(e: Entry, name: string, unset: bool, after: string)
    requires after == "" || after[0] == '='
    ensures LongMatch(e, name) == Some((after, unset)) <==> Calls(e, unset, after, name)
  {
    if e.longName.Some? {
      var long := e.longName.value;
      if Calls(e, unset, after, name) && unset {
        assert name[..3] == "no-" && name[3..] == long + after;
      }
    }
  }

  /** A long option names the first entry that can be called by its text. */
  lemma {:induction false} LongEntryIs(c: Config, from: nat, name: string)
    requires from <= |c.entries|
    ensures match LongEntry(c, from, name)
      case Some((n, unset, after)) =>
        && from <= n && Calls(c.entries[n], unset, after, name)
        && forall i, u, a :: from <= i < n ==> !Calls(c.entries[i], u, a, name)
      case None => forall i, u, a :: from <= i < |c.entries| ==> !Calls(c.entries[i], u, a, name)
    decreases |c.entries| - from
  {
    hide LongMatch, Calls;
    if from < |c.entries| {
      LongEntryIs(c, from + 1, name);
      var m := LongMatch(c.entries[from], name);
      if m.Some? && (m.value.0 == "" || m.value.0[0] == '=') {
        LongMatchIff(c.entries[from], name, m.value.1, m.value.0);
      } else {
        forall u, a
          ensures !Calls(c.entries[from], u, a, name)
        {
          CallsAfter(c.entries[from], u, a, name);
          if a == "" || a[0] == '=' {
            LongMatchIff(c.entries[from], name, u, a);
          }
        }
      }
    }
  }

  lemma CallsAfter(e: Entry, unset: bool, after: string, name: string)
    ensures Calls(e, unset, after, name) ==> after == "" || after[0] == '='
  {
  }

  /** A short option names the first entry with its letter. */
  lemma {:induction false} FirstShortIs(c: Config, from: nat, ch: char)
    requires from <= |c.entries|
    ensures match FirstShort(c, from, ch)
      case Some(n) =>
        from <= n && c.entries[n].shortName == Some(ch) && forall i :: from <= i < n ==> c.entries[i].shortName != Some(ch)
      case None => forall i :: from <= i < |c.entries| ==> c.entries[i].shortName != Some(ch)
    decreases |c.entries| - from
  {
    if from < |c.entries| {
      FirstShortIs(c, from + 1, ch);
    }
  }

  // ----- The reading of a command line -----

  /** The arguments kept before parsing stops, the updates, and the number of arguments read. */
  datatype Split = Split(kept: seq<string>, updates: seq<Update>, read: nat)

  /** An argument is kept unless it is an option or the value that an option takes. None if the program ends. */
  function Splitting(c: Config, args: seq<string>, pending: Option<string>): Option<Split>
    decreases |args|
  {
    if args == [] || (NonOption(args[0]) && c.stopAtNonOption) then Some(Split([], [], 0))
    else if NonOption(args[0]) then
      var s := Splitting(c, args[1..], pending);
      if s.None? then None else Some(Split([args[0]] + s.value.kept, s.value.updates, s.value.read + 1))
    else if args[0] == "--" then Some(Split([], [], 1))
    else
      var e := OptionEffect(c, args[0], pending, args[1..]);
      if e.None? || (e.value.takesNext && |args| == 1) then None
      else
        var gap := if e.value.takesNext then 2 else 1;
        var s := Splitting(c, args[gap..], e.value.pending);
        if s.None? then None
        else Some(Split(s.value.kept, e.value.updates + s.value.updates, s.value.read + gap))
  }

  /** Where parsing stops: at the end, after `--`, or at the first argument that is no option. */
  predicate StopsAt(c: Config, args: seq<string>, k: nat)
    requires k <= |args|
  {
    || k == |args|
    || (k > 0 && args[k - 1] == "--")
    || (c.stopAtNonOption && Plain(args[k]))
  }

  /** The argument has no dash in front, or is just a dash. */
  predicate Plain(arg: string) {
    arg == "" || arg[0] != '-' || arg == "-"
  }

  lemma {:induction false} SplittingStops(c: Config, args: seq<string>, pending: Option<string>)
    requires Splitting(c, args, pending).Some?
    ensures var s := Splitting(c, args, pending).value;
      s.read <= |args| && StopsAt(c, args, s.read) && forall x :: x in s.kept ==> Plain(x)
    decreases |args|
  {
    hide OptionEffect;
    if args == [] || (NonOption(args[0]) && c.stopAtNonOption) {
    } else if NonOption(args[0]) {
      SplittingStops(c, args[1..], pending);
      StopsLater(c, args, 1, Splitting(c, args[1..], pending).value.read);
    } else if args[0] != "--" {
      var e := OptionEffect(c, args[0], pending, args[1..]).value;
      var gap := if e.takesNext then 2 else 1;
      SplittingStops(c, args[gap..], e.pending);
      StopsLater(c, args, gap, Splitting(c, args[gap..], e.pending).value.read);
    }
  }

  lemma StopsLater(c: Config, args: seq<string>, gap: nat, k: nat)
    requires gap + k <= |args| && StopsAt(c, args[gap..], k)
    ensures StopsAt(c, args, gap + k) && args[gap..][k..] == args[gap + k..]
  {
    var rest := args[gap..];
    assert k > 0 ==> rest[k - 1] == args[gap + k - 1];
    assert k < |rest| ==> rest[k] == args[gap + k];
  }

  /** Arguments without options are all kept, whatever the table. */
  lemma {:induction false} PlainKept(
    c: Config, args: seq<string>, pending: Option<string>, kept: seq<string>, updates: seq<Update>)
    requires forall x :: x in args ==> Plain(x)
    ensures Parse(c, args, pending, kept, updates) == Parsed(kept + args, updates)
    decreases |args|
  {
    hide Parse, OptionStep;
    ParseUnfolds(c, args, pending, kept, updates);
    if args == [] {
      assert kept + args == kept;
    } else {
      assert Plain(args[0]);
      if !c.stopAtNonOption {
        PlainKept(c, args[1..], pending, kept + [args[0]], updates);
        assert kept + [args[0]] + args[1..] == kept + args;
      }
    }
  }

  // ----- The parser does what the reading says -----

  /** `e` is what took place between `s` and the step `r`; without an effect the program ends or the option is unknown. */
  ghost predicate Happened(s: State, e: Option<Effect>, r: Step) {
    match e
    case None => !Succeeds(r)
    case Some(f) =>
      && Succeeds(r) && (f.takesNext ==> s.rest != [])
      && r.s == State(if f.takesNext then s.rest[1..] else s.rest, f.pending, s.updates + f.updates)
  }

  lemma EntryHappened(c: Config, n: nat, unset: bool, s: State)
    requires n < |c.entries|
    ensures Happened(s, EntryEffect(c, n, unset, s.pending, s.rest), GetValue(c, n, unset, s))
  {
    hide Takes;
    assert s.updates + [] == s.updates;
  }

  lemma {:induction false} LongOptionUses(c: Config, from: nat, name: string, s: State)
    requires from <= |c.entries|
    ensures LongOption(c, from, name, s) ==
      match LongEntry(c, from, name)
      case None => Goes(-2, s)
      case Some((n, unset, after)) =>
        GetValue(c, n, unset, if after == "" then s else s.(pending := Some(after[1..])))
    decreases |c.entries| - from
  {
    hide GetValue, LongMatch;
    if from < |c.entries| {
      LongOptionUses(c, from + 1, name, s);
    }
  }

  lemma LongHappened(c: Config, name: string, s: State)
    ensures Happened(s, LongEffect(c, name, s.pending, s.rest), LongOption(c, 0, name, s))
  {
    hide GetValue, LongOption, EntryEffect;
    LongOptionUses(c, 0, name, s);
    var e := LongEntry(c, 0, name);
    if e.Some? {
      var (n, unset, after) := e.value;
      EntryHappened(c, n, unset, if after == "" then s else s.(pending := Some(after[1..])));
    }
  }

  lemma {:induction false} ClusterHappened(c: Config, s: State)
    requires s.pending.Some? && s.pending.value != ""
    ensures Happened(s, ClusterEffect(c, s.pending.value, s.rest), ShortCluster(c, s))
    decreases PendingSize(s.pending)
  {
    hide GetValue, ShortOption, EntryEffect, Takes;
    ShortOptionIs(c, 0, s);
    var cluster := s.pending.value;
    var n := FirstShort(c, 0, cluster[0]);
    if n.Some? {
      var t := s.(pending := Cluster(cluster));
      EntryHappened(c, n.value, false, t);
      var e := EntryEffect(c, n.value, false, t.pending, t.rest);
      if e.Some? && e.value.pending.Some? {
        var r := ShortOption(c, 0, s);
        ClusterHappened(c, r.s);
        var more := ClusterEffect(c, cluster[1..], s.rest);
        if more.Some? {
          assert s.updates + e.value.updates + more.value.updates == s.updates + (e.value.updates + more.value.updates);
        }
      }
    }
  }

  /** An option succeeds exactly when it has an effect, and the effect takes place. */
  lemma OptionHappened(c: Config, args: seq<string>, pending: Option<string>, updates: seq<Update>)
    requires args != [] && !NonOption(args[0]) && args[0] != "--"
    ensures var s, e := State(args[1..], pending, updates), OptionEffect(c, args[0], pending, args[1..]);
      Happened(s, e, OptionStep(c, args, pending, updates))
  {
    hide ShortCluster, LongOption, ClusterEffect, LongEffect;
    var arg, rest := args[0], args[1..];
    if arg[1] != '-' {
      ClusterHappened(c, State(rest, Some(arg[1..]), updates));
    } else {
      LongHappened(c, arg[2..], State(rest, pending, updates));
    }
  }

  /** The parser ends the program exactly when the reading does. Otherwise its output is the arguments that the reading
      keeps, in order, followed by those from the place where parsing stops, and the updates are those of the reading. */
  lemma {:induction false} ParsedExactly(
    c: Config, args: seq<string>, pending: Option<string>, kept: seq<string>, updates: seq<Update>)
    ensures var r, s := Parse(c, args, pending, kept, updates), Splitting(c, args, pending);
      if s.None? then r == Ended
      else
        && s.value.read <= |args|
        && r == Parsed(kept + s.value.kept + args[s.value.read..], updates + s.value.updates)
    decreases |args|
  {
    hide OptionStep, OptionEffect, Parse;
    ParseUnfolds(c, args, pending, kept, updates);
    assert kept + [] == kept && updates + [] == updates;
    if args == [] || (NonOption(args[0]) && c.stopAtNonOption) {
      assert args[0..] == args;
    } else if NonOption(args[0]) {
      ParsedExactly(c, args[1..], pending, kept + [args[0]], updates);
      var rest := Splitting(c, args[1..], pending);
      if rest.Some? {
        assert args[1..][rest.value.read..] == args[rest.value.read + 1..];
        assert kept + [args[0]] + rest.value.kept == kept + ([args[0]] + rest.value.kept);
      }
    } else if args[0] != "--" {
      OptionHappened(c, args, pending, updates);
      var e := OptionEffect(c, args[0], pending, args[1..]);
      if e.Some? {
        var gap := if e.value.takesNext then 2 else 1;
        var r := OptionStep(c, args, pending, updates).s;
        assert r.rest == args[gap..];
        ParsedExactly(c, r.rest, r.pending, kept, r.updates);
        OptionRead(c, args, pending, updates, e.value, gap);
      }
    }
  }

  /** The rest of the reading after an option. */
  lemma OptionRead(
    c: Config, args: seq<string>, pending: Option<string>, updates: seq<Update>, e: Effect, gap: nat)
    requires args != [] && !NonOption(args[0]) && args[0] != "--" && gap <= |args| && gap == (if e.takesNext then 2 else 1)
    requires OptionEffect(c, args[0], pending, args[1..]) == Some(e)
    requires var s := Splitting(c, args[gap..], e.pending); s.Some? ==> s.value.read <= |args[gap..]|
    ensures var s, rest := Splitting(c, args, pending), Splitting(c, args[gap..], e.pending);
      && (s.Some? <==> rest.Some?)
      && (s.Some? ==>
            && s.value.kept == rest.value.kept && s.value.read <= |args|
            && args[s.value.read..] == args[gap..][rest.value.read..]
            && updates + s.value.updates == updates + e.updates + rest.value.updates)
  {
    hide OptionEffect;
    var rest := Splitting(c, args[gap..], e.pending);
    if rest.Some? {
      assert args[gap..][rest.value.read..] == args[gap + rest.value.read..];
      assert updates + (e.updates + rest.value.updates) == updates + e.updates + rest.value.updates;
    }
  }
}

/** What a user of the argument parser relies on: a cluster of short options is the options one by one, and a
    value may be attached to its option or follow it.
 */
module ArgLaws {
  import opened Basics
  import opened ArgParse

  // ----- Short options -----

  /** The entry for a short option: the first one with that character. */
  function FirstShort(c: Config, from: nat, ch: char): (r: Option<nat>)
    requires from <= |c.entries|
    ensures r.Some? ==> r.value < |c.entries|
    decreases |c.entries| - from
  {
    if from == |c.entries| then None
    else if ShortMatches(c.entries[from], ch) then Some(from)
    else FirstShort(c, from + 1, ch)
  }

  lemma {:induction false} ShortOptionIs(c: Config, from: nat, s: State)
    requires from <= |c.entries| && s.pending.Some? && s.pending.value != ""
    ensures ShortOption(c, from, s) ==
      match FirstShort(c, from, s.pending.value[0])
      case None => Goes(-2, s)
      case Some(n) => GetValue(c, n, false, s.(pending := Cluster(s.pending.value)))
    decreases |c.entries| - from
  {
    if from < |c.entries| {
      ShortOptionIs(c, from + 1, s);
    }
  }

  /** An option without a text treats all situations alike: it neither reads nor changes the pending text
      and the arguments to come. */
  lemma FlagIgnoresText(c: Config, n: nat, unset: bool, s: State, t: State)
    requires n < |c.entries| && !TakesText(c.entries[n]) && s.updates == t.updates
    ensures GetValue(c, n, unset, s) ==
      match GetValue(c, n, unset, t)
      case Ends => Ends
      case Goes(code, t') => Goes(code, s.(updates := t'.updates))
  {
  }

  /** An option with a text gets the same text whether it is pending or the next argument. */
  lemma TextEitherWay(c: Config, n: nat, unset: bool, text: string, rest: seq<string>, updates: seq<Update>)
    requires n < |c.entries| && TakesText(c.entries[n])
    ensures GetValue(c, n, unset, State(rest, Some(text), updates)) ==
            GetValue(c, n, unset, State([text] + rest, None, updates))
    ensures GetValue(c, n, unset, State(rest, Some(text), updates)).Goes? ==>
            GetValue(c, n, unset, State(rest, Some(text), updates)).s.pending == None
  {
    assert ([text] + rest)[1..] == rest;
  }

  /** The options of a cluster after the first one do not depend on how they were given. */
  lemma ParseCluster(
    c: Config, cluster: string, rest: seq<string>, pending: Option<string>, kept: seq<string>, updates: seq<Update>)
    requires cluster != "" && cluster[0] != '-'
    ensures Parse(c, ["-" + cluster] + rest, pending, kept, updates) ==
      var r := ShortCluster(c, State(rest, Some(cluster), updates));
      if Succeeds(r) then Parse(c, r.s.rest, r.s.pending, kept, r.s.updates) else Ended
  {
    hide ShortCluster, Parse;
    var arg := "-" + cluster;
    var args := [arg] + rest;
    assert args[0] == arg && args[1..] == rest;
    assert arg[0] == '-' && arg[1] == cluster[0] && arg[1..] == cluster;
    assert "--"[1] == '-';
    ParseUnfolds(c, args, pending, kept, updates);
  }

  /** `-xyz` is `-x -yz` when x takes no text. */
  lemma ClusterSplits(
    c: Config, x: char, y: string, rest: seq<string>, pending: Option<string>, kept: seq<string>, updates: seq<Update>)
    requires x != '-' && y != "" && y[0] != '-'
    requires FirstShort(c, 0, x).Some? ==> !TakesText(c.entries[FirstShort(c, 0, x).value])
    ensures Parse(c, ["-" + ([x] + y)] + rest, pending, kept, updates) ==
            Parse(c, ["-" + [x]] + (["-" + y] + rest), pending, kept, updates)
  {
    hide Parse, ShortOption, GetValue;
    ParseCluster(c, [x] + y, rest, pending, kept, updates);
    ParseCluster(c, [x], ["-" + y] + rest, pending, kept, updates);
    var together := State(rest, Some([x] + y), updates);
    var apart := State(["-" + y] + rest, Some([x]), updates);
    ShortOptionIs(c, 0, together);
    ShortOptionIs(c, 0, apart);
    assert ([x] + y)[1..] == y;
    var found := FirstShort(c, 0, x);
    if found.Some? {
      var s, t := State(rest, Some(y), updates), State(["-" + y] + rest, None, updates);
      FlagIgnoresText(c, found.value, false, s, t);
      var r := GetValue(c, found.value, false, t);
      if r.Goes? {
        FlagIgnoresText(c, found.value, false, t, t);
        ParseCluster(c, y, rest, None, kept, r.s.updates);
      }
    }
  }

  /** `-xtext` is `-x text` when x takes a text. */
  lemma ShortTextAttached(
    c: Config, x: char, text: string, rest: seq<string>, pending: Option<string>, kept: seq<string>, updates: seq<Update>)
    requires x != '-' && text != ""
    requires FirstShort(c, 0, x).Some? && TakesText(c.entries[FirstShort(c, 0, x).value])
    ensures Parse(c, ["-" + ([x] + text)] + rest, pending, kept, updates) ==
            Parse(c, ["-" + [x]] + ([text] + rest), pending, kept, updates)
  {
    hide Parse, ShortOption, GetValue;
    ParseCluster(c, [x] + text, rest, pending, kept, updates);
    ParseCluster(c, [x], [text] + rest, pending, kept, updates);
    ShortOptionIs(c, 0, State(rest, Some([x] + text), updates));
    ShortOptionIs(c, 0, State([text] + rest, Some([x]), updates));
    assert ([x] + text)[1..] == text;
    TextEitherWay(c, FirstShort(c, 0, x).value, false, text, rest, updates);
  }

  // ----- Long options -----

  /** The entry for a long option without a value, and whether it is negated. */
  function FirstLong(c: Config, from: nat, name: string): (r: Option<(nat, bool)>)
    requires from <= |c.entries|
    ensures r.Some? ==> r.value.0 < |c.entries|
    decreases |c.entries| - from
  {
    if from == |c.entries| then None
    else
      var m := LongMatch(c.entries[from], name);
      if m.Some? && m.value.0 == "" then Some((from, m.value.1))
      else FirstLong(c, from + 1, name)
  }

  predicate PlainNames(c: Config) {
    forall i :: 0 <= i < |c.entries| && c.entries[i].longName.Some? ==> '=' !in c.entries[i].longName.value
  }

  lemma PrefixWithValue(name: string, value: string, prefix: string)
    requires '=' !in name && '=' !in prefix
    ensures AfterPrefix(name + "=" + value, prefix) ==
      match AfterPrefix(name, prefix) case None => None case Some(t) => Some(t + "=" + value)
  {
    var whole := name + "=" + value;
    assert whole[..|name|] == name && whole[|name|] == '=';
    if prefix <= name {
      assert whole[|prefix|..] == name[|prefix|..] + "=" + value;
    }
  }

  lemma MatchWithValue(e: Entry, name: string, value: string)
    requires '=' !in name && (e.longName.Some? ==> '=' !in e.longName.value)
    ensures LongMatch(e, name + "=" + value) ==
      match LongMatch(e, name) case None => None case Some((t, unset)) => Some((t + "=" + value, unset))
    ensures LongMatch(e, name).Some? ==> '=' !in LongMatch(e, name).value.0
  {
    hide AfterPrefix;
    if e.longName.Some? {
      PrefixWithValue(name, value, e.longName.value);
      PrefixWithValue(name, value, "no-");
      AfterPrefixChars(name, e.longName.value);
      AfterPrefixChars(name, "no-");
      var positive := AfterPrefix(name, "no-");
      if positive.Some? {
        PrefixWithValue(positive.value, value, e.longName.value);
        AfterPrefixChars(positive.value, e.longName.value);
      }
    }
  }

  lemma AfterPrefixChars(text: string, prefix: string)
    requires '=' !in text
    ensures AfterPrefix(text, prefix).Some? ==> '=' !in AfterPrefix(text, prefix).value
  {
  }

  lemma {:induction false} LongOptionIs(c: Config, from: nat, name: string, value: string, s: State)
    requires from <= |c.entries| && PlainNames(c) && '=' !in name
    ensures LongOption(c, from, name, s) ==
      match FirstLong(c, from, name)
      case None => Goes(-2, s)
      case Some((n, unset)) => GetValue(c, n, unset, s)
    ensures LongOption(c, from, name + "=" + value, s) ==
      match FirstLong(c, from, name)
      case None => Goes(-2, s)
      case Some((n, unset)) => GetValue(c, n, unset, s.(pending := Some(value)))
    decreases |c.entries| - from
  {
    hide LongMatch, GetValue;
    if from < |c.entries| {
      LongOptionIs(c, from + 1, name, value, s);
      MatchWithValue(c.entries[from], name, value);
      var m := LongMatch(c.entries[from], name);
      if m.Some? {
        var t := m.value.0;
        var u := t + "=" + value;
        if t == "" {
          assert u[0] == '=' && u[1..] == value;
        } else {
          assert u[0] == t[0] && t[0] in t;
        }
      }
    }
  }

  lemma ParseLong(
    c: Config, name: string, rest: seq<string>, pending: Option<string>, kept: seq<string>, updates: seq<Update>)
    requires name != ""
    ensures Parse(c, ["--" + name] + rest, pending, kept, updates) ==
      var r := LongOption(c, 0, name, State(rest, pending, updates));
      if Succeeds(r) then Parse(c, r.s.rest, r.s.pending, kept, r.s.updates) else Ended
  {
    hide LongOption, Parse;
    var arg := "--" + name;
    var args := [arg] + rest;
    assert args[0] == arg && args[1..] == rest;
    assert arg[0] == '-' && arg[1] == '-' && arg[2..] == name && |arg| > |"--"|;
    ParseUnfolds(c, args, pending, kept, updates);
  }

  /** `--name=text` is `--name text` when the option takes a text and no value is left over from before. */
  lemma LongTextAttached(c: Config, name: string, text: string, rest: seq<string>, kept: seq<string>, updates: seq<Update>)
    requires PlainNames(c) && name != "" && '=' !in name
    requires FirstLong(c, 0, name).Some? && TakesText(c.entries[FirstLong(c, 0, name).value.0])
    ensures Parse(c, ["--" + (name + "=" + text)] + rest, None, kept, updates) ==
            Parse(c, ["--" + name] + ([text] + rest), None, kept, updates)
  {
    hide Parse, LongOption, GetValue;
    ParseLong(c, name + "=" + text, rest, None, kept, updates);
    ParseLong(c, name, [text] + rest, None, kept, updates);
    LongOptionIs(c, 0, name, text, State(rest, None, updates));
    LongOptionIs(c, 0, name, text, State([text] + rest, None, updates));
    var (n, unset) := FirstLong(c, 0, name).value;
    TextEitherWay(c, n, unset, text, rest, updates);
  }
}

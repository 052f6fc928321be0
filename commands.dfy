/** Translation between "pretty" commands and ISCP messages
    (eiscp/core.py:131-269). The command catalogue lives in a module that is
    not part of this model, so it is a parameter: a `Catalogue` value with the
    four tables the code consults. */
module Commands {
  import opened Wrappers
  import opened Text

  /** A zone or group name; Python's `None` is a possible zone too. */
  type Zone = Option<string>

  /** A key of a command's value table: an alias, a `ValueRange` (modelled as
      the inclusive interval `lo..hi`), or a key of any other kind (the
      catalogue's patterns), which no argument matches. */
  datatype ValueKey = Literal(text: string) | Range(lo: int, hi: int) | Other

  /** One command of a zone: its name and its table from value code to value
      name. */
  datatype CommandInfo = CommandInfo(name: string, values: map<string, string>)

  /** `ZONE_MAPPINGS`, `COMMANDS`, `COMMAND_MAPPINGS` and `VALUE_MAPPINGS`.
      `COMMANDS` and each value table are iterated in order by the code, so
      they are sequences of entries; a lookup finds the first entry with the
      key, which for a dictionary is the only one. */
  datatype Catalogue = Catalogue(
    zoneMappings: map<Zone, Zone>,
    commands: seq<(Zone, map<string, CommandInfo>)>,
    commandMappings: map<Zone, map<string, string>>,
    valueMappings: map<Zone, map<string, seq<(ValueKey, string)>>>)

  /** An argument: an `int`, a `str` or `None`. */
  datatype Arg = IntArg(n: int) | StrArg(s: string) | NoneArg

  /** The `arguments` parameter: a single value (`None` when omitted) or a
      list, of which only the first element is used. */
  datatype Arguments = Single(arg: Arg) | Many(args: seq<Arg>)

  /** A command after the pretty string has been taken apart. */
  datatype Request = Request(zone: Zone, command: string, arguments: Arguments)

  const DEFAULT_ZONE: string := "main"
  const COMMAND_SEP: set<char> := {'.', ' '}
  const ARGUMENT_SEP: set<char> := {' ', ','}
  const VALUE_SEP: set<char> := {':', '='}

  // ---------------------------------------------------------------- normalize_command

  function Replace(s: string, from: char, to: char): (r: string)
    ensures |r| == |s| && forall i :: 0 <= i < |s| ==> r[i] == if s[i] == from then to else s[i]
  {
    seq(|s|, i requires 0 <= i < |s| => if s[i] == from then to else s[i])
  }

  /** `normalize_command`: lower-case, and '_' and '-' become spaces. */
  function NormalizeCommand(command: string): (r: string)
    ensures |r| == |command|
    ensures forall i :: 0 <= i < |r| ==> r[i] != '_' && r[i] != '-' && !('A' <= r[i] <= 'Z')
    ensures forall i :: 0 <= i < |r| ==>
      r[i] == if command[i] == '_' || command[i] == '-' then ' ' else LowerChar(command[i])
  {
    Replace(Replace(Lower(command), '_', ' '), '-', ' ')
  }

  /** Normalizing twice is normalizing once. */
  lemma NormalizeIdempotent(command: string)
    ensures NormalizeCommand(NormalizeCommand(command)) == NormalizeCommand(command)
  {
    var once := NormalizeCommand(command);
    var twice := NormalizeCommand(once);
    assert forall i :: 0 <= i < |once| ==> twice[i] == once[i];
  }

  // ---------------------------------------------------------------- pretty strings

  /** `norm`: `s.strip().lower()`. */
  function Norm(s: string): string
  {
    Lower(Strip(s))
  }

  /** What `norm` gives has no white space around it and no upper-case
      letter in it. */
  lemma NormIsNormal(s: string)
    ensures IsNormal(Norm(s))
  {
    StripEnds(s);
    LowerKeepsNormal(Strip(s));
  }

  lemma LowerKeepsNormal(t: string)
    requires t == [] || (!IsSpace(t[0]) && !IsSpace(t[|t| - 1]))
    ensures IsNormal(Lower(t))
  {
    var r := Lower(t);
    if t != [] {
      LowerCharSpace(t[0]);
      LowerCharSpace(t[|t| - 1]);
    }
    forall i | 0 <= i < |r| ensures !('A' <= r[i] <= 'Z') {
      LowerCharSpace(t[i]);
    }
  }

  /** A token as `norm` leaves it: no surrounding white space, no upper-case
      ASCII letter. */
  predicate IsNormal(t: string)
  {
    && (t == [] || (!IsSpace(t[0]) && !IsSpace(t[|t| - 1])))
    && forall i :: 0 <= i < |t| ==> !('A' <= t[i] <= 'Z')
  }

  /** A list of argument words, each passed through `norm`. */
  function NormArguments(words: seq<string>): (r: Arguments)
    requires |words| >= 1
    ensures r.Many? && |r.args| == |words|
    ensures forall i :: 0 <= i < |words| ==> r.args[i] == StrArg(Norm(words[i]))
  {
    Many(seq(|words|, i requires 0 <= i < |words| => StrArg(Norm(words[i]))))
  }

  /** Every argument word has been through `norm`. */
  lemma NormArgumentsNormal(words: seq<string>)
    requires |words| >= 1
    ensures NormalArgs(NormArguments(words))
  {
    forall i | 0 <= i < |words| ensures IsNormal(NormArguments(words).args[i].s) {
      NormIsNormal(words[i]);
    }
  }

  predicate NormalArgs(args: Arguments)
  {
    args.Many? && |args.args| >= 1 && forall i :: 0 <= i < |args.args| ==>
      args.args[i].StrArg? && IsNormal(args.args[i].s)
  }

  /** The separators a one-string command may use. */
  predicate IsSeparator(c: char)
  {
    c == ':' || c == '=' || c == '.' || c == ' '
  }

  predicate HasSeparator(command: string)
  {
    exists i :: 0 <= i < |command| && IsSeparator(command[i])
  }

  lemma DefaultZoneIsNormal()
    ensures IsNormal(DEFAULT_ZONE)
  {
    assert DEFAULT_ZONE[0] == 'm' && DEFAULT_ZONE[3] == 'n';
    assert forall i :: 0 <= i < 4 ==> 'a' <= DEFAULT_ZONE[i] <= 'z';
  }

  /** Taking a pretty command string apart (eiscp/core.py:174-197). With ':'
      or '=' the text is split once at the first of them: the part before
      gives the zone and command (or zone "main" and its first word), the part
      after the arguments, split at commas and spaces. Without them the words
      are zone, command and arguments, or, for two words, command and
      argument in zone "main". A single word is a `ValueError`. */
  function ParseCommand(command: string): (r: Result<Request>)
    ensures r.Err? ==> r.error == ValueError(TooFewParts)
    ensures r.Ok? ==> r.value.zone.Some? && r.value.arguments.Many? && |r.value.arguments.args| >= 1
  {
    if ':' in command || '=' in command then
      var (base, arguments) := SplitOnce(command, VALUE_SEP);
      var parts := Split(base, COMMAND_SEP);
      var args := NormArguments(Split(arguments, ARGUMENT_SEP));
      if |parts| == 2 then Ok(Request(Some(Norm(parts[0])), Norm(parts[1]), args))
      else Ok(Request(Some(DEFAULT_ZONE), Norm(parts[0]), args))
    else
      var parts := Split(command, COMMAND_SEP);
      if |parts| >= 3 then Ok(Request(Some(Norm(parts[0])), Norm(parts[1]), NormArguments(parts[2..])))
      else if |parts| == 2 then Ok(Request(Some(DEFAULT_ZONE), Norm(parts[0]), NormArguments(parts[1..])))
      else Err(ValueError(TooFewParts))
  }

  /** A pretty command string is refused exactly when it holds none of the
      separators ':', '=', '.' and ' ', that is, when it is a single word. */
  lemma ParseCommandFails(command: string)
    ensures ParseCommand(command).Err? <==> !HasSeparator(command)
  {
    if ':' in command || '=' in command {
      var i :| 0 <= i < |command| && (command[i] == ':' || command[i] == '=');
      assert IsSeparator(command[i]);
    } else {
      var parts := Split(command, COMMAND_SEP);
      if |parts| >= 2 {
        var i :| 0 <= i < |command| && command[i] in COMMAND_SEP;
        assert IsSeparator(command[i]);
      } else {
        forall i | 0 <= i < |command| ensures !IsSeparator(command[i]) {
          assert command[i] != ':' && command[i] != '=';
        }
      }
    }
  }

  predicate IsPlainWord(t: string)
  {
    forall i :: 0 <= i < |t| ==> 'a' <= t[i] <= 'z' || '0' <= t[i] <= '9'
  }

  /** Every token of a parsed pretty command has been through `norm`: no
      white space around it and no upper-case letter in it. */
  lemma ParseCommandNormal(command: string)
    requires ParseCommand(command).Ok?
    ensures var req := ParseCommand(command).value;
      && IsNormal(req.zone.value) && IsNormal(req.command) && NormalArgs(req.arguments)
  {
    DefaultZoneIsNormal();
    if ':' in command || '=' in command {
      var (base, arguments) := SplitOnce(command, VALUE_SEP);
      var parts := Split(base, COMMAND_SEP);
      NormArgumentsNormal(Split(arguments, ARGUMENT_SEP));
      NormIsNormal(parts[0]);
      if |parts| == 2 {
        NormIsNormal(parts[1]);
      }
    } else {
      var parts := Split(command, COMMAND_SEP);
      NormIsNormal(parts[0]);
      if |parts| >= 3 {
        NormIsNormal(parts[1]);
        NormArgumentsNormal(parts[2..]);
      } else if |parts| == 2 {
        NormArgumentsNormal(parts[1..]);
      }
    }
  }

  /** A word of lower-case letters and digits is its own `norm`. */
  lemma NormPlainWord(t: string)
    requires IsPlainWord(t)
    ensures Norm(t) == t
  {
    PlainWordStrip(t);
    PlainWordLower(t);
  }

  lemma PlainWordStrip(t: string)
    requires IsPlainWord(t)
    ensures Strip(t) == t
  {
    if t != [] {
      PlainCharNotSpace(t[0]);
      PlainCharNotSpace(t[|t| - 1]);
    }
    StripUnchanged(t);
  }

  lemma PlainCharNotSpace(c: char)
    requires 'a' <= c <= 'z' || '0' <= c <= '9'
    ensures !IsSpace(c)
  {
  }

  lemma PlainWordLower(t: string)
    requires IsPlainWord(t)
    ensures Lower(t) == t
  {
    assert forall i :: 0 <= i < |t| ==> Lower(t)[i] == t[i];
  }

  lemma NormArgumentOfPlainWord(w: string)
    requires IsPlainWord(w)
    ensures NormArguments([w]) == Many([StrArg(w)])
  {
    NormPlainWord(w);
    var r := NormArguments([w]);
    assert r.args[0] == StrArg(w);
  }

  lemma PlainWordHasNoSeparator(w: string)
    requires IsPlainWord(w)
    ensures forall i :: 0 <= i < |w| ==> w[i] !in COMMAND_SEP && w[i] !in VALUE_SEP && w[i] !in ARGUMENT_SEP
  {
  }

  /** "command argument" and "command.argument" (as in `command('power on')`)
      address zone "main". */
  lemma ParseTwoWords(command: string, sep: char, argument: string)
    requires IsPlainWord(command) && IsPlainWord(argument) && sep in COMMAND_SEP
    ensures ParseCommand(command + [sep] + argument)
         == Ok(Request(Some(DEFAULT_ZONE), command, Many([StrArg(argument)])))
  {
    var s := command + [sep] + argument;
    assert ':' !in s && '=' !in s by {
      PlainWordHasNoSeparator(command);
      PlainWordHasNoSeparator(argument);
      forall i | 0 <= i < |s| ensures s[i] != ':' && s[i] != '=' {
        if i < |command| { assert s[i] == command[i]; }
        else if i > |command| { assert s[i] == argument[i - |command| - 1]; }
      }
    }
    assert Split(s, COMMAND_SEP) == [command, argument] by {
      PlainWordHasNoSeparator(command);
      PlainWordHasNoSeparator(argument);
      SplitAt(command, sep, argument, COMMAND_SEP);
      assert Split(argument, COMMAND_SEP) == [argument];
    }
    NormPlainWord(command);
    NormArgumentOfPlainWord(argument);
    ParseOfTwoWords(s, command, argument);
  }

  /** `ParseCommand` of any string without ':' and '=' that splits into two
      words: zone "main", the first word through `norm` as command and the
      second as its argument. */
  lemma ParseOfTwoWords(s: string, command: string, argument: string)
    requires ':' !in s && '=' !in s && Split(s, COMMAND_SEP) == [command, argument]
    ensures ParseCommand(s) == Ok(Request(Some(DEFAULT_ZONE), Norm(command), NormArguments([argument])))
  {
    assert Split(s, COMMAND_SEP)[1..] == [argument];
  }

  /** The same for three words: zone, command and argument, each through
      `norm`. */
  lemma ParseOfThreeWords(s: string, zone: string, command: string, argument: string)
    requires ':' !in s && '=' !in s && Split(s, COMMAND_SEP) == [zone, command, argument]
    ensures ParseCommand(s) == Ok(Request(Some(Norm(zone)), Norm(command), NormArguments([argument])))
  {
    assert Split(s, COMMAND_SEP)[2..] == [argument];
  }

  /** `ParseCommand` of "command=argument": zone "main", and the words
      through `norm`. */
  lemma ParseOfAssignment(s: string, command: string, argument: string)
    requires '=' in s && SplitOnce(s, VALUE_SEP) == (command, argument)
    requires Split(command, COMMAND_SEP) == [command] && Split(argument, ARGUMENT_SEP) == [argument]
    ensures ParseCommand(s) == Ok(Request(Some(DEFAULT_ZONE), Norm(command), NormArguments([argument])))
  {
  }

  /** The same for "zone.command=argument". */
  lemma ParseOfZonedAssignment(s: string, base: string, zone: string, command: string, argument: string)
    requires '=' in s && SplitOnce(s, VALUE_SEP) == (base, argument)
    requires Split(base, COMMAND_SEP) == [zone, command] && Split(argument, ARGUMENT_SEP) == [argument]
    ensures ParseCommand(s) == Ok(Request(Some(Norm(zone)), Norm(command), NormArguments([argument])))
  {
  }

  /** "zone command argument" (as in `command('zone2 volume 66')`), with
      either separator in either place. */
  lemma ParseThreeWords(zone: string, sep1: char, command: string, sep2: char, argument: string)
    requires IsPlainWord(zone) && IsPlainWord(command) && IsPlainWord(argument)
    requires sep1 in COMMAND_SEP && sep2 in COMMAND_SEP
    ensures ParseCommand(zone + [sep1] + command + [sep2] + argument)
         == Ok(Request(Some(zone), command, Many([StrArg(argument)])))
  {
    var tail := command + [sep2] + argument;
    var s := zone + [sep1] + tail;
    assert s == zone + [sep1] + command + [sep2] + argument;
    assert ':' !in s && '=' !in s by {
      PlainWordHasNoSeparator(zone);
      PlainWordHasNoSeparator(command);
      PlainWordHasNoSeparator(argument);
      forall i | 0 <= i < |s| ensures s[i] != ':' && s[i] != '=' {
        if i < |zone| { assert s[i] == zone[i]; }
        else if |zone| < i < |zone| + 1 + |command| { assert s[i] == command[i - |zone| - 1]; }
        else if i > |zone| + 1 + |command| { assert s[i] == argument[i - |zone| - |command| - 2]; }
      }
    }
    assert Split(s, COMMAND_SEP) == [zone, command, argument] by {
      PlainWordHasNoSeparator(zone);
      PlainWordHasNoSeparator(command);
      PlainWordHasNoSeparator(argument);
      SplitAt(command, sep2, argument, COMMAND_SEP);
      SplitAt(zone, sep1, tail, COMMAND_SEP);
      assert Split(argument, COMMAND_SEP) == [argument];
    }
    NormPlainWord(zone);
    NormPlainWord(command);
    NormArgumentOfPlainWord(argument);
    ParseOfThreeWords(s, zone, command, argument);
  }

  /** "command=argument" (as in `command('power=on')`) addresses zone "main". */
  lemma ParseAssignment(command: string, argument: string)
    requires IsPlainWord(command) && IsPlainWord(argument)
    ensures ParseCommand(command + "=" + argument)
         == Ok(Request(Some(DEFAULT_ZONE), command, Many([StrArg(argument)])))
  {
    var s := command + "=" + argument;
    AssignmentParts(command, argument);
    ParseOfAssignment(s, command, argument);
    NormPlainWord(command);
    NormArgumentOfPlainWord(argument);
  }

  lemma AssignmentParts(command: string, argument: string)
    requires IsPlainWord(command) && IsPlainWord(argument)
    ensures '=' in command + "=" + argument
    ensures SplitOnce(command + "=" + argument, VALUE_SEP) == (command, argument)
    ensures Split(command, COMMAND_SEP) == [command] && Split(argument, ARGUMENT_SEP) == [argument]
  {
    PlainWordHasNoSeparator(command);
    PlainWordHasNoSeparator(argument);
    assert command + "=" + argument == command + ['='] + argument;
    SplitOnceAssignment(command, '=', argument);
  }

  /** "zone.command=argument" (as in `command('zone2.volume=66')`). */
  lemma ParseAssignmentWithZone(zone: string, command: string, argument: string)
    requires IsPlainWord(zone) && IsPlainWord(command) && IsPlainWord(argument)
    ensures ParseCommand(zone + "." + command + "=" + argument)
         == Ok(Request(Some(zone), command, Many([StrArg(argument)])))
  {
    var base := zone + ['.'] + command;
    var s := base + ['='] + argument;
    assert s == zone + "." + command + "=" + argument;
    SplitZoneCommand(zone, command);
    SplitOnceAssignment(base, '=', argument);
    assert Split(argument, ARGUMENT_SEP) == [argument] by {
      PlainWordHasNoSeparator(argument);
    }
    ParseOfZonedAssignment(s, base, zone, command, argument);
    NormPlainWord(zone);
    NormPlainWord(command);
    NormArgumentOfPlainWord(argument);
  }

  lemma SplitZoneCommand(zone: string, command: string)
    requires IsPlainWord(zone) && IsPlainWord(command)
    ensures Split(zone + ['.'] + command, COMMAND_SEP) == [zone, command]
    ensures forall i :: 0 <= i < |zone + ['.'] + command| ==> (zone + ['.'] + command)[i] !in VALUE_SEP
  {
    var base := zone + ['.'] + command;
    PlainWordHasNoSeparator(zone);
    PlainWordHasNoSeparator(command);
    forall i | 0 <= i < |base| ensures base[i] !in VALUE_SEP {
      if i < |zone| { assert base[i] == zone[i]; }
      else if i > |zone| { assert base[i] == command[i - |zone| - 1]; }
    }
    SplitAt(zone, '.', command, COMMAND_SEP);
    assert Split(command, COMMAND_SEP) == [command];
  }

  lemma SplitOnceAssignment(base: string, sep: char, argument: string)
    requires sep in VALUE_SEP && forall i :: 0 <= i < |base| ==> base[i] !in VALUE_SEP
    ensures sep in base + [sep] + argument
    ensures SplitOnce(base + [sep] + argument, VALUE_SEP) == (base, argument)
  {
    var s := base + [sep] + argument;
    assert s[|base|] == sep;
    IndexOfAnyAt(base, sep, argument, VALUE_SEP);
    assert s[..|base|] == base && s[|base| + 1..] == argument;
  }

  /** "zone command word…" (as in `command('zone2 volume 66 70')`): every
      word after the command is an argument, in order. */
  lemma ParseWordsArguments(zone: string, sep1: char, command: string, sep2: char, rest: string)
    requires IsPlainWord(zone) && IsPlainWord(command) && sep1 in COMMAND_SEP && sep2 in COMMAND_SEP
    requires ':' !in rest && '=' !in rest
    ensures ParseCommand(zone + [sep1] + command + [sep2] + rest)
         == Ok(Request(Some(zone), command, NormArguments(Split(rest, COMMAND_SEP))))
  {
    var s := zone + [sep1] + (command + [sep2] + rest);
    assert s == zone + [sep1] + command + [sep2] + rest;
    WordsHaveNoValueSep(zone, sep1, command, sep2, rest);
    SplitWords(zone, sep1, command, sep2, rest);
    NormPlainWord(zone);
    NormPlainWord(command);
    ParseOfWords(s, zone, command, Split(rest, COMMAND_SEP));
  }

  lemma WordsHaveNoValueSep(zone: string, sep1: char, command: string, sep2: char, rest: string)
    requires IsPlainWord(zone) && IsPlainWord(command) && sep1 in COMMAND_SEP && sep2 in COMMAND_SEP
    requires ':' !in rest && '=' !in rest
    ensures var s := zone + [sep1] + (command + [sep2] + rest); ':' !in s && '=' !in s
  {
    var s := zone + [sep1] + (command + [sep2] + rest);
    PlainWordHasNoSeparator(zone);
    PlainWordHasNoSeparator(command);
    forall i | 0 <= i < |s| ensures s[i] != ':' && s[i] != '=' {
      if i < |zone| { assert s[i] == zone[i]; }
      else if |zone| < i < |zone| + 1 + |command| { assert s[i] == command[i - |zone| - 1]; }
      else if i > |zone| + 1 + |command| { assert s[i] == rest[i - |zone| - |command| - 2]; }
    }
  }

  lemma SplitWords(zone: string, sep1: char, command: string, sep2: char, rest: string)
    requires IsPlainWord(zone) && IsPlainWord(command) && sep1 in COMMAND_SEP && sep2 in COMMAND_SEP
    ensures Split(zone + [sep1] + (command + [sep2] + rest), COMMAND_SEP)
         == [zone, command] + Split(rest, COMMAND_SEP)
  {
    PlainWordHasNoSeparator(zone);
    PlainWordHasNoSeparator(command);
    SplitAt(command, sep2, rest, COMMAND_SEP);
    SplitAt(zone, sep1, command + [sep2] + rest, COMMAND_SEP);
  }

  /** `ParseCommand` of any string without ':' and '=' that splits into a
      zone, a command and one or more further words: each word through
      `norm`, the further ones as the arguments in order. */
  lemma ParseOfWords(s: string, zone: string, command: string, words: seq<string>)
    requires ':' !in s && '=' !in s && Split(s, COMMAND_SEP) == [zone, command] + words && |words| >= 1
    ensures ParseCommand(s) == Ok(Request(Some(Norm(zone)), Norm(command), NormArguments(words)))
  {
    assert Split(s, COMMAND_SEP)[2..] == words;
  }

  /** "base=arguments" or "base:arguments": the text after the first ':' or
      '=' gives the arguments, split at spaces and commas. A base of exactly
      two words gives zone and command; any other base gives zone "main" and
      its first word as the command, and its other words are dropped. */
  lemma ParseAssignmentForm(base: string, sep: char, arguments: string)
    requires sep in VALUE_SEP && forall i :: 0 <= i < |base| ==> base[i] !in VALUE_SEP
    ensures var parts := Split(base, COMMAND_SEP);
      ParseCommand(base + [sep] + arguments) == Ok(Request(
        Some(if |parts| == 2 then Norm(parts[0]) else DEFAULT_ZONE),
        Norm(if |parts| == 2 then parts[1] else parts[0]),
        NormArguments(Split(arguments, ARGUMENT_SEP))))
  {
    SplitOnceAssignment(base, sep, arguments);
    ParseOfAssignmentForm(base + [sep] + arguments, base, arguments);
  }

  /** `ParseCommand` of a string split once at ':' or '=' into base and
      arguments. */
  lemma ParseOfAssignmentForm(s: string, base: string, arguments: string)
    requires (':' in s || '=' in s) && SplitOnce(s, VALUE_SEP) == (base, arguments)
    ensures var parts := Split(base, COMMAND_SEP);
      ParseCommand(s) == Ok(Request(
        Some(if |parts| == 2 then Norm(parts[0]) else DEFAULT_ZONE),
        Norm(if |parts| == 2 then parts[1] else parts[0]),
        NormArguments(Split(arguments, ARGUMENT_SEP))))
  {
  }

  /** "zone command a b" (as in `command('zone2 volume 66 70')`) passes both
      words on, in order. */
  lemma ParseTwoArguments(zone: string, command: string, a: string, b: string)
    requires IsPlainWord(zone) && IsPlainWord(command) && IsPlainWord(a) && IsPlainWord(b)
    ensures ParseCommand(zone + " " + command + " " + a + " " + b)
         == Ok(Request(Some(zone), command, Many([StrArg(a), StrArg(b)])))
  {
    var rest := a + [' '] + b;
    assert zone + " " + command + " " + a + " " + b == zone + [' '] + command + [' '] + rest;
    WordPair(a, ' ', b);
    ParseWordsArguments(zone, ' ', command, ' ', rest);
    NormTwoArguments(a, b);
  }

  lemma WordPair(a: string, sep: char, b: string)
    requires IsPlainWord(a) && IsPlainWord(b) && sep in COMMAND_SEP + ARGUMENT_SEP
    ensures ':' !in a + [sep] + b && '=' !in a + [sep] + b
    ensures sep in COMMAND_SEP ==> Split(a + [sep] + b, COMMAND_SEP) == [a, b]
    ensures sep in ARGUMENT_SEP ==> Split(a + [sep] + b, ARGUMENT_SEP) == [a, b]
  {
    var rest := a + [sep] + b;
    PlainWordHasNoSeparator(a);
    PlainWordHasNoSeparator(b);
    forall i | 0 <= i < |rest| ensures rest[i] != ':' && rest[i] != '=' {
      if i < |a| { assert rest[i] == a[i]; }
      else if i > |a| { assert rest[i] == b[i - |a| - 1]; }
    }
    if sep in COMMAND_SEP {
      SplitAt(a, sep, b, COMMAND_SEP);
      assert Split(b, COMMAND_SEP) == [b];
    }
    if sep in ARGUMENT_SEP {
      SplitAt(a, sep, b, ARGUMENT_SEP);
      assert Split(b, ARGUMENT_SEP) == [b];
    }
  }

  lemma NormTwoArguments(a: string, b: string)
    requires IsPlainWord(a) && IsPlainWord(b)
    ensures NormArguments([a, b]) == Many([StrArg(a), StrArg(b)])
  {
    NormArgumentsOfPair(a, b);
    NormPlainWord(a);
    NormPlainWord(b);
  }

  lemma NormArgumentsOfPair(a: string, b: string)
    ensures NormArguments([a, b]) == Many([StrArg(Norm(a)), StrArg(Norm(b))])
  {
    var w := [a, b];
    var r := NormArguments(w);
    assert r.args[0] == StrArg(Norm(w[0]));
    assert r.args[1] == StrArg(Norm(w[1]));
    ListOfTwo(r, StrArg(Norm(a)), StrArg(Norm(b)));
  }

  lemma ListOfTwo(r: Arguments, x: Arg, y: Arg)
    requires r.Many? && |r.args| == 2 && r.args[0] == x && r.args[1] == y
    ensures r == Many([x, y])
  {
    assert r.args == [x, y];
  }

  /** "zone.command=a,b" (as in `command('main.volume=1,2')`): the arguments
      are split at the comma. */
  lemma ParseArgumentList(zone: string, command: string, a: string, b: string)
    requires IsPlainWord(zone) && IsPlainWord(command) && IsPlainWord(a) && IsPlainWord(b)
    ensures ParseCommand(zone + "." + command + "=" + a + "," + b)
         == Ok(Request(Some(zone), command, Many([StrArg(a), StrArg(b)])))
  {
    var base := zone + ['.'] + command;
    var arguments := a + [','] + b;
    assert zone + "." + command + "=" + a + "," + b == base + ['='] + arguments;
    SplitZoneCommand(zone, command);
    WordPair(a, ',', b);
    NormPlainWord(zone);
    NormPlainWord(command);
    NormTwoArguments(a, b);
    ParseAssignmentForm(base, '=', arguments);
  }

  /** "a.b.c=x": a base of three words is not split into zone and command;
      the first word is the command, in zone "main", and the other two are
      dropped. */
  lemma ParseLongBase(a: string, b: string, c: string, x: string)
    requires IsPlainWord(a) && IsPlainWord(b) && IsPlainWord(c) && IsPlainWord(x)
    ensures ParseCommand(a + "." + b + "." + c + "=" + x)
         == Ok(Request(Some(DEFAULT_ZONE), a, Many([StrArg(x)])))
  {
    var base := a + ['.'] + (b + ['.'] + c);
    assert a + "." + b + "." + c + "=" + x == base + ['='] + x;
    LongBaseParts(a, b, c);
    assert Split(x, ARGUMENT_SEP) == [x] by {
      PlainWordHasNoSeparator(x);
    }
    NormPlainWord(a);
    NormArgumentOfPlainWord(x);
    ParseAssignmentForm(base, '=', x);
  }

  lemma LongBaseParts(a: string, b: string, c: string)
    requires IsPlainWord(a) && IsPlainWord(b) && IsPlainWord(c)
    ensures var base := a + ['.'] + (b + ['.'] + c);
      && (forall i :: 0 <= i < |base| ==> base[i] !in VALUE_SEP)
      && Split(base, COMMAND_SEP) == [a, b, c]
  {
    var base := a + ['.'] + (b + ['.'] + c);
    PlainWordHasNoSeparator(a);
    PlainWordHasNoSeparator(b);
    PlainWordHasNoSeparator(c);
    forall i | 0 <= i < |base| ensures base[i] !in VALUE_SEP {
      if i < |a| { assert base[i] == a[i]; }
      else if |a| < i < |a| + 1 + |b| { assert base[i] == b[i - |a| - 1]; }
      else if i > |a| + 1 + |b| { assert base[i] == c[i - |a| - |b| - 2]; }
    }
    SplitAt(b, '.', c, COMMAND_SEP);
    assert Split(c, COMMAND_SEP) == [c];
    SplitAt(a, '.', b + ['.'] + c, COMMAND_SEP);
  }

  // ---------------------------------------------------------------- catalogue lookups

  /** Index of the first `COMMANDS` entry for `zone`, or -1. */
  function ZoneIndex(commands: seq<(Zone, map<string, CommandInfo>)>, zone: Zone): (k: int)
    ensures -1 <= k < |commands|
    ensures k >= 0 ==> commands[k].0 == zone && forall i :: 0 <= i < k ==> commands[i].0 != zone
    ensures k < 0 ==> forall i :: 0 <= i < |commands| ==> commands[i].0 != zone
  {
    if |commands| == 0 then -1
    else if commands[0].0 == zone then 0
    else
      var k := ZoneIndex(commands[1..], zone);
      if k < 0 then -1 else k + 1
  }

  /** `zone in COMMANDS`. */
  predicate HasZone(cat: Catalogue, zone: Zone)
  {
    ZoneIndex(cat.commands, zone) >= 0
  }

  /** `ZONE_MAPPINGS.get(zone, zone)`. */
  function Group(cat: Catalogue, zone: Zone): Zone
  {
    if zone in cat.zoneMappings then cat.zoneMappings[zone] else zone
  }

  /** `COMMAND_MAPPINGS[group].get(command, command)`. */
  function Prefix(cat: Catalogue, group: Zone, command: string): string
    requires group in cat.commandMappings
  {
    var aliases := cat.commandMappings[group];
    if command in aliases then aliases[command] else command
  }

  /** `arguments[0]` for a list, the argument itself otherwise. */
  function FirstArgument(arguments: Arguments): (r: Result<Arg>)
    ensures r.Err? <==> arguments == Many([])
    ensures r.Err? ==> r.error == IndexError
  {
    match arguments
    case Single(a) => Ok(a)
    case Many(items) => if |items| == 0 then Err(IndexError) else Ok(items[0])
  }

  /** Index of the first value-table entry whose key is the alias `key`, or -1. */
  function AliasIndex(table: seq<(ValueKey, string)>, key: string): (k: int)
    ensures -1 <= k < |table|
    ensures k >= 0 ==> table[k].0 == Literal(key) && forall i :: 0 <= i < k ==> table[i].0 != Literal(key)
    ensures k < 0 ==> forall i :: 0 <= i < |table| ==> table[i].0 != Literal(key)
  {
    if |table| == 0 then -1
    else if table[0].0 == Literal(key) then 0
    else
      var k := AliasIndex(table[1..], key);
      if k < 0 then -1 else k + 1
  }

  /** A value table's code for an alias: `table[argument]` for a string
      argument, taken from the first entry with that key. */
  function LookupAlias(table: seq<(ValueKey, string)>, argument: Arg): (r: Option<string>)
    ensures r.Some? <==> argument.StrArg? && exists i :: 0 <= i < |table| && table[i].0 == Literal(argument.s)
    ensures r.Some? ==> exists i ::
      && 0 <= i < |table| && table[i] == (Literal(argument.s), r.value)
      && forall j :: 0 <= j < i ==> table[j].0 != Literal(argument.s)
  {
    if !argument.StrArg? then None
    else
      var k := AliasIndex(table, argument.s);
      if k < 0 then None
      else
        assert table[k] == (Literal(argument.s), table[k].1);
        Some(table[k].1)
  }

  // ---------------------------------------------------------------- numeric arguments

  /** The number of leading '-' characters, which `lstrip("-")` removes. */
  function LeadingDashes(s: string): (k: nat)
    ensures k <= |s| && (forall i :: 0 <= i < k ==> s[i] == '-') && (k < |s| ==> s[k] != '-')
  {
    if |s| > 0 && s[0] == '-' then 1 + LeadingDashes(s[1..]) else 0
  }

  /** `type(argument) is int or argument.lstrip("-").isdigit()`. */
  predicate IsNumeric(a: Arg)
  {
    a.IntArg? || (a.StrArg? && |a.s| > LeadingDashes(a.s) && AllDigits(a.s[LeadingDashes(a.s)..]))
  }

  /** `int(argument)` for a numeric argument: a string with two or more
      leading dashes passes the digit test but `int` rejects it. */
  function IntOf(a: Arg): (r: Result<int>)
    requires IsNumeric(a)
    ensures r.Err? <==> a.StrArg? && LeadingDashes(a.s) >= 2
    ensures r.Err? ==> r.error == ValueError(InvalidLiteral)
  {
    match a
    case IntArg(n) => Ok(n)
    case StrArg(s) =>
      var k := LeadingDashes(s);
      if k >= 2 then Err(ValueError(InvalidLiteral))
      else if k == 1 then Ok(0 - DecimalValue(s[1..]) as int)
      else Ok(DecimalValue(s))
  }

  predicate IsSigned(prefix: string)
  {
    prefix == "SWL" || prefix == "CTL"
  }

  /** The value code for a number in range (eiscp/core.py:229-238): the
      upper-cased `hex` digits padded to two; for the signed-offset commands
      SWL and CTL, "000" for zero and a '+' or '-' sign in front otherwise. */
  function EncodeNumber(prefix: string, n: int): (code: string)
    ensures |code| >= 2
    ensures !IsSigned(prefix) ==> (AllHexDigits(code) <==> n >= 0) && (code[0] == 'X' <==> n < 0)
    ensures IsSigned(prefix) ==>
      && |code| >= 3
      && (code[0] == '0' <==> n == 0) && (code[0] == '+' <==> n > 0) && (code[0] == '-' <==> n < 0)
  {
    var value := Upper(ZFill(PyHex(n)[2..], 2));
    assert n >= 0 ==>
      && value == HexCode(n) && |value| >= 2 && AllHexDigits(value)
      && value[0] != 'X' && (n == 0 <==> value == "00")
    by {
      if n >= 0 {
        RawCodeOfNonNegative(n);
        HexCodeShape(n);
        HexCodeValue(n);
      }
    }
    assert n < 0 ==> value == "X" + Upper(Hex(-n)) && |value| >= 2 && !IsHexDigit(value[0]) by {
      if n < 0 {
        RawCodeOfNegative(n);
      }
    }
    if IsSigned(prefix) then
      if value == "00" then "0" + value
      else if value[0] != 'X' then "+" + value
      else
        var value := if |value| == 2 then "-" + "0" + value[1..] else value;
        "-" + value[1..]
    else value
  }

  /** The upper-case hexadecimal code of `n`, padded to two digits. */
  function HexCode(n: nat): string
  {
    Upper(ZFill(Hex(n), 2))
  }

  /** `hex(n)[2:].zfill(2).upper()` for `n >= 0` is the padded code. */
  lemma RawCodeOfNonNegative(n: nat)
    ensures Upper(ZFill(PyHex(n)[2..], 2)) == HexCode(n)
  {
    assert PyHex(n)[2..] == Hex(n);
  }

  /** For `n < 0`, `hex(n)` is "-0x..." and so `hex(n)[2:]` starts with
      'x': the code is 'X' and the digits of `-n`. */
  lemma RawCodeOfNegative(n: int)
    requires n < 0
    ensures Upper(ZFill(PyHex(n)[2..], 2)) == "X" + Upper(Hex(-n))
  {
    var h := Hex(-n);
    assert PyHex(n)[2..] == "x" + h by {
      assert PyHex(n) == "-0" + ("x" + h);
    }
    assert ZFill("x" + h, 2) == "x" + h;
    UpperAfterX(h);
  }

  lemma UpperAfterX(h: string)
    ensures Upper("x" + h) == "X" + Upper(h)
  {
    var u := Upper("x" + h);
    forall i | 0 <= i < |h| ensures u[i + 1] == Upper(h)[i] {
      assert ("x" + h)[i + 1] == h[i];
    }
    assert u == "X" + Upper(h);
  }

  lemma HexCodeShape(n: nat)
    ensures n == 0 <==> HexCode(n) == "00"
    ensures HexCode(n)[0] != 'X'
    ensures |Hex(n)| == 1 ==> HexCode(n) == "0" + Upper(Hex(n))
    ensures |Hex(n)| >= 2 ==> HexCode(n) == Upper(Hex(n))
  {
    HexCodeValue(n);
    if n == 0 {
      HexCodeOfZero();
    } else if HexCode(n) == "00" {
      HexCodeZeroOnly(n);
    }
    if |Hex(n)| == 1 {
      HexCodeShort(n);
    }
  }

  lemma HexCodeOfZero()
    ensures HexCode(0) == "00"
  {
    assert Hex(0) == "0";
    assert ZFill("0", 2) == "00";
  }

  lemma HexCodeZeroOnly(n: nat)
    requires HexCode(n) == "00"
    ensures n == 0
  {
    HexCodeValue(n);
    assert HexValue("00"[..1]) == 0;
  }

  lemma HexCodeShort(n: nat)
    requires |Hex(n)| == 1
    ensures HexCode(n) == "0" + Upper(Hex(n))
  {
    var h := Hex(n);
    assert ZFill(h, 2) == "0" + h;
    assert Upper("0" + h) == "0" + Upper(h);
  }

  /** What `EncodeNumber` produces for commands other than SWL and CTL: the
      padded code, or for a negative number 'X' and its digits, as `hex` of a
      negative number leaves it. */
  lemma EncodeUnsignedForms(prefix: string, n: int)
    requires !IsSigned(prefix)
    ensures n >= 0 ==> EncodeNumber(prefix, n) == HexCode(n)
    ensures n < 0 ==> EncodeNumber(prefix, n) == "X" + Upper(Hex(-n))
  {
    if n >= 0 {
      RawCodeOfNonNegative(n);
    } else {
      RawCodeOfNegative(n);
    }
  }

  /** What `EncodeNumber` produces for SWL and CTL: "000" for zero, and the
      padded code of the magnitude after a '+' or '-' sign otherwise. */
  lemma EncodeSignedForms(prefix: string, n: int)
    requires IsSigned(prefix)
    ensures n == 0 ==> EncodeNumber(prefix, n) == "000"
    ensures n > 0 ==> EncodeNumber(prefix, n) == "+" + HexCode(n)
    ensures n < 0 ==> EncodeNumber(prefix, n) == "-" + HexCode(-n)
  {
    if n >= 0 {
      RawCodeOfNonNegative(n);
      HexCodeShape(n);
    } else {
      SignedNegativeCode(prefix, n);
    }
  }

  lemma SignedNegativeCode(prefix: string, n: int)
    requires IsSigned(prefix) && n < 0
    ensures EncodeNumber(prefix, n) == "-" + HexCode(-n)
  {
    RawCodeOfNegative(n);
    var h := Upper(Hex(-n));
    var value := "X" + h;
    assert value[0] == 'X' && value != "00";
    assert value[1..] == h;
    if |Hex(-n)| == 1 {
      HexCodeShort(-n);
      assert ("-" + "0" + value[1..])[1..] == "0" + h;
    } else {
      HexCodeShape(-n);
    }
  }

  lemma HexCodeValue(n: nat)
    ensures AllHexDigits(HexCode(n)) && HexValue(HexCode(n)) == n && |HexCode(n)| >= 2
    ensures forall i :: 0 <= i < |HexCode(n)| ==> HexCode(n)[i] != 'X'
  {
    Text.HexCode(n);
  }

  /** The value-table search of a failed alias lookup (eiscp/core.py:224-244).
      Every entry first asks whether the argument is numeric and raises
      `ValueError` if not; a numeric argument is encoded by the first range
      that holds it. A table that runs out leaves `value` unbound. */
  function ScanValues(table: seq<(ValueKey, string)>, argument: Arg, prefix: string): (r: Result<string>)
    ensures |table| == 0 ==> r == Err(UnboundLocalError)
    ensures |table| > 0 && !IsNumeric(argument) ==> r == Err(ValueError(InvalidArgument))
    ensures IsNumeric(argument) && IntOf(argument).Ok? ==>
      var n := IntOf(argument).value;
      r == if InSomeRange(table, n) then Ok(EncodeNumber(prefix, n)) else Err(UnboundLocalError)
    ensures IsNumeric(argument) && IntOf(argument).Err? ==>
      r == if HasRange(table) then Err(ValueError(InvalidLiteral)) else Err(UnboundLocalError)
  {
    if |table| == 0 then Err(UnboundLocalError)
    else if !IsNumeric(argument) then Err(ValueError(InvalidArgument))
    else if table[0].0.Range? then
      match IntOf(argument)
      case Err(e) => Err(e)
      case Ok(n) =>
        if table[0].0.lo <= n <= table[0].0.hi then Ok(EncodeNumber(prefix, n))
        else ScanValues(table[1..], argument, prefix)
    else ScanValues(table[1..], argument, prefix)
  }

  predicate HasRange(table: seq<(ValueKey, string)>)
  {
    exists i :: 0 <= i < |table| && table[i].0.Range?
  }

  predicate InSomeRange(table: seq<(ValueKey, string)>, n: int)
  {
    exists i :: 0 <= i < |table| && table[i].0.Range? && table[i].0.lo <= n <= table[i].0.hi
  }

  // ---------------------------------------------------------------- command_to_iscp

  /** The value code for an argument (eiscp/core.py:219-244): the code of an
      alias if the argument is one, else what the range search makes of it.
      A success is therefore an alias code from the table or the encoding of
      a number inside one of its ranges, and a failure is one of the three
      errors of the search. */
  function ResolveValue(table: seq<(ValueKey, string)>, argument: Arg, prefix: string): (r: Result<string>)
    ensures argument.StrArg? && (exists i :: 0 <= i < |table| && table[i].0 == Literal(argument.s)) ==>
      && r.Ok?
      && exists i ::
        && 0 <= i < |table| && table[i] == (Literal(argument.s), r.value)
        && forall j :: 0 <= j < i ==> table[j].0 != Literal(argument.s)
    ensures !(argument.StrArg? && exists i :: 0 <= i < |table| && table[i].0 == Literal(argument.s)) ==>
      r == ScanValues(table, argument, prefix)
    ensures r.Ok? ==>
      || (argument.StrArg? && exists i :: 0 <= i < |table| && table[i] == (Literal(argument.s), r.value))
      || (&& IsNumeric(argument) && IntOf(argument).Ok? && InSomeRange(table, IntOf(argument).value)
          && r.value == EncodeNumber(prefix, IntOf(argument).value))
    ensures r.Err? ==>
      r.error in {ValueError(InvalidArgument), ValueError(InvalidLiteral), UnboundLocalError}
  {
    match LookupAlias(table, argument)
    case Some(code) => Ok(code)
    case None => ScanValues(table, argument, prefix)
  }

  /** Everything after the pretty string has been taken apart
      (eiscp/core.py:199-246). The zone is checked before it is mapped to its
      group; the group must then be a key of the remaining tables. */
  function Resolve(cat: Catalogue, req: Request): (r: Result<string>)
    ensures !HasZone(cat, req.zone) ==> r == Err(ValueError(InvalidZone))
    ensures HasZone(cat, req.zone) && Group(cat, req.zone) in cat.commandMappings
      && ZoneIndex(cat.commands, Group(cat, req.zone)) >= 0
      && Prefix(cat, Group(cat, req.zone), req.command) !in cat.commands[ZoneIndex(cat.commands, Group(cat, req.zone))].1
      ==> r == Err(ValueError(InvalidCommand))
    ensures r.Ok? ==>
      var group := Group(cat, req.zone);
      && HasZone(cat, req.zone) && group in cat.commandMappings && group in cat.valueMappings
      && var prefix := Prefix(cat, group, req.command);
      && ZoneIndex(cat.commands, group) >= 0
      && prefix in cat.commands[ZoneIndex(cat.commands, group)].1
      && prefix in cat.valueMappings[group]
      && FirstArgument(req.arguments).Ok?
      && ResolveValue(cat.valueMappings[group][prefix], FirstArgument(req.arguments).value, prefix).Ok?
      && r.value == prefix + ResolveValue(cat.valueMappings[group][prefix], FirstArgument(req.arguments).value, prefix).value
  {
    var group := Group(cat, req.zone);
    if !HasZone(cat, req.zone) then Err(ValueError(InvalidZone))
    else if group !in cat.commandMappings then Err(KeyError)
    else
      var prefix := Prefix(cat, group, req.command);
      var zi := ZoneIndex(cat.commands, group);
      if zi < 0 then Err(KeyError)
      else if prefix !in cat.commands[zi].1 then Err(ValueError(InvalidCommand))
      else
        match FirstArgument(req.arguments)
        case Err(e) => Err(e)
        case Ok(argument) =>
          // a missing table raises KeyError in the `try` and again in the `for`
          if group !in cat.valueMappings || prefix !in cat.valueMappings[group] then Err(KeyError)
          else
            match ResolveValue(cat.valueMappings[group][prefix], argument, prefix)
            case Err(e) => Err(e)
            case Ok(value) => Ok(prefix + value)
  }

  /** `command_to_iscp(command, arguments, zone)`: a pretty string is parsed
      only when both `arguments` and `zone` are omitted. */
  function CommandToIscp(cat: Catalogue, command: string, arguments: Arguments, zone: Zone): (r: Result<string>)
    ensures arguments == Single(NoneArg) && zone == None ==>
      && (!HasSeparator(command) ==> r == Err(ValueError(TooFewParts)))
      && (HasSeparator(command) ==> r == Resolve(cat, ParseCommand(command).value))
    ensures !(arguments == Single(NoneArg) && zone == None) ==>
      && r == Resolve(cat, Request(zone, command, arguments))
      && (!HasZone(cat, zone) ==> r == Err(ValueError(InvalidZone)))
  {
    ParseCommandFails(command);
    if arguments == Single(NoneArg) && zone == None then
      match ParseCommand(command)
      case Err(e) => Err(e)
      case Ok(req) => Resolve(cat, req)
    else Resolve(cat, Request(zone, command, arguments))
  }

  /** Only the first argument reaches the value lookup, so one argument
      passed alone or as a one-element list gives the same result. */
  lemma OneArgumentEitherWay(cat: Catalogue, zone: Zone, command: string, argument: Arg)
    ensures Resolve(cat, Request(zone, command, Many([argument])))
         == Resolve(cat, Request(zone, command, Single(argument)))
  {
    assert FirstArgument(Many([argument])) == FirstArgument(Single(argument));
  }

  /** `command('zone2 volume 66')` and `command('volume', '66', zone='zone2')`
      send the same message, for either separator in either place. */
  lemma ThreeWordsAsCall(cat: Catalogue, zone: string, sep1: char, command: string, sep2: char, argument: string)
    requires IsPlainWord(zone) && IsPlainWord(command) && IsPlainWord(argument)
    requires sep1 in COMMAND_SEP && sep2 in COMMAND_SEP
    ensures CommandToIscp(cat, zone + [sep1] + command + [sep2] + argument, Single(NoneArg), None)
         == CommandToIscp(cat, command, Single(StrArg(argument)), Some(zone))
  {
    ParseThreeWords(zone, sep1, command, sep2, argument);
    OneArgumentEitherWay(cat, Some(zone), command, StrArg(argument));
  }

  /** `command('power on')` addresses zone "main", as the explicit call
      `command('power', 'on', zone='main')` does; the explicit call without a
      zone instead fails unless `None` is a zone of the catalogue. */
  lemma TwoWordsAsCall(cat: Catalogue, command: string, sep: char, argument: string)
    requires IsPlainWord(command) && IsPlainWord(argument) && sep in COMMAND_SEP
    ensures CommandToIscp(cat, command + [sep] + argument, Single(NoneArg), None)
         == CommandToIscp(cat, command, Single(StrArg(argument)), Some(DEFAULT_ZONE))
    ensures !HasZone(cat, None) ==>
      CommandToIscp(cat, command, Single(StrArg(argument)), None) == Err(ValueError(InvalidZone))
  {
    ParseTwoWords(command, sep, argument);
    OneArgumentEitherWay(cat, Some(DEFAULT_ZONE), command, StrArg(argument));
  }

  /** `command('power=on')` addresses zone "main" too. */
  lemma AssignmentAsCall(cat: Catalogue, command: string, argument: string)
    requires IsPlainWord(command) && IsPlainWord(argument)
    ensures CommandToIscp(cat, command + "=" + argument, Single(NoneArg), None)
         == CommandToIscp(cat, command, Single(StrArg(argument)), Some(DEFAULT_ZONE))
  {
    ParseAssignment(command, argument);
    OneArgumentEitherWay(cat, Some(DEFAULT_ZONE), command, StrArg(argument));
  }

  /** `command('zone2.volume=66')` is `command('volume', '66', zone='zone2')`. */
  lemma ZonedAssignmentAsCall(cat: Catalogue, zone: string, command: string, argument: string)
    requires IsPlainWord(zone) && IsPlainWord(command) && IsPlainWord(argument)
    ensures CommandToIscp(cat, zone + "." + command + "=" + argument, Single(NoneArg), None)
         == CommandToIscp(cat, command, Single(StrArg(argument)), Some(zone))
  {
    ParseAssignmentWithZone(zone, command, argument);
    OneArgumentEitherWay(cat, Some(zone), command, StrArg(argument));
  }

  /** `command('power', 'on')` names no zone; the zone check looks at `None`
      itself, so the call fails unless `None` is a key of `COMMANDS`, whatever
      `ZONE_MAPPINGS` says. */
  lemma OmittedZoneIsChecked(cat: Catalogue, command: string, argument: Arg)
    requires argument != NoneArg && !HasZone(cat, None)
    ensures CommandToIscp(cat, command, Single(argument), None) == Err(ValueError(InvalidZone))
  {
  }

  /** When the argument is an alias of the command, its code is sent. */
  lemma {:induction false} AliasIsSent(cat: Catalogue, req: Request, code: string)
    requires HasZone(cat, req.zone)
    requires var group := Group(cat, req.zone);
      && group in cat.commandMappings && ZoneIndex(cat.commands, group) >= 0
      && Prefix(cat, group, req.command) in cat.commands[ZoneIndex(cat.commands, group)].1
      && group in cat.valueMappings && Prefix(cat, group, req.command) in cat.valueMappings[group]
      && FirstArgument(req.arguments).Ok?
      && LookupAlias(cat.valueMappings[group][Prefix(cat, group, req.command)], FirstArgument(req.arguments).value) == Some(code)
    ensures Resolve(cat, req) == Ok(Prefix(cat, Group(cat, req.zone), req.command) + code)
  {
  }

  /** A number that is no alias is sent hex-encoded when some range of the
      command holds it, and fails with `value` unbound when none does. */
  lemma {:induction false} NumberIsSent(cat: Catalogue, req: Request, n: int)
    requires HasZone(cat, req.zone)
    requires var group := Group(cat, req.zone);
      && group in cat.commandMappings && ZoneIndex(cat.commands, group) >= 0
      && Prefix(cat, group, req.command) in cat.commands[ZoneIndex(cat.commands, group)].1
      && group in cat.valueMappings && Prefix(cat, group, req.command) in cat.valueMappings[group]
    requires FirstArgument(req.arguments) == Ok(IntArg(n))
    ensures var group := Group(cat, req.zone);
      var prefix := Prefix(cat, group, req.command);
      Resolve(cat, req) == if InSomeRange(cat.valueMappings[group][prefix], n)
        then Ok(prefix + EncodeNumber(prefix, n)) else Err(UnboundLocalError)
  {
  }

  // ---------------------------------------------------------------- iscp_to_command

  /** Index of the first `COMMANDS` zone whose table holds `prefix`, or -1. */
  function FindZone(commands: seq<(Zone, map<string, CommandInfo>)>, prefix: string): (k: int)
    ensures -1 <= k < |commands|
    ensures k >= 0 ==> prefix in commands[k].1 && forall i :: 0 <= i < k ==> prefix !in commands[i].1
    ensures k < 0 ==> forall i :: 0 <= i < |commands| ==> prefix !in commands[i].1
  {
    if |commands| == 0 then -1
    else if prefix in commands[0].1 then 0
    else
      var k := FindZone(commands[1..], prefix);
      if k < 0 then -1 else k + 1
  }

  /** The part of `args` that `[+-]?[0-9a-f]+$` must match: `$` also
      matches before one final newline. */
  function BeforeFinalNewline(s: string): (r: string)
    ensures r == s || (|s| > 0 && s[|s| - 1] == '\n' && r == s[..|s| - 1])
  {
    if |s| > 0 && s[|s| - 1] == '\n' then s[..|s| - 1] else s
  }

  function Unsigned(s: string): string
  {
    if |s| > 0 && (s[0] == '+' || s[0] == '-') then s[1..] else s
  }

  /** `re.match('[+-]?[0-9a-f]+$', args, re.IGNORECASE)`. */
  predicate IsHexLiteral(s: string)
  {
    var digits := Unsigned(BeforeFinalNewline(s));
    |digits| > 0 && AllHexDigits(digits)
  }

  /** `int(args, 16)` for a matching `args` (`int` ignores the newline). */
  function HexLiteralValue(s: string): int
    requires IsHexLiteral(s)
  {
    var body := BeforeFinalNewline(s);
    var magnitude: int := HexValue(Unsigned(body));
    if body[0] == '-' then -magnitude else magnitude
  }

  /** The value part of a decoded message. */
  datatype Value = Name(name: string) | Number(n: int) | Raw(text: string)

  /** `iscp_to_command`'s result: with `with_zone`, the zone comes first. */
  datatype Decoded = WithZone(zone: Zone, name: string, value: Value) | WithoutZone(name: string, value: Value)

  /** The value of a message suffix for a command: a value name if the
      suffix is a known code, else the number if it reads as hexadecimal,
      else the suffix itself. */
  function DecodeValue(info: CommandInfo, args: string): (v: Value)
    ensures args in info.values ==> v == Name(info.values[args])
    ensures args !in info.values && IsHexLiteral(args) ==> v == Number(HexLiteralValue(args))
    ensures args !in info.values && !IsHexLiteral(args) ==> v == Raw(args)
    ensures forall prefix: string, n: int {:trigger EncodeNumber(prefix, n)} ::
      args == EncodeNumber(prefix, n) && args !in info.values ==>
        v == if IsSigned(prefix) || n >= 0 then Number(n) else Raw(args)
  {
    forall prefix: string, n: int | args == EncodeNumber(prefix, n)
      ensures IsSigned(prefix) || n >= 0 ==> IsHexLiteral(args) && HexLiteralValue(args) == n
      ensures !IsSigned(prefix) && n < 0 ==> !IsHexLiteral(args)
    {
      EncodeNumberReadsBack(prefix, n);
    }
    if args in info.values then Name(info.values[args])
    else if IsHexLiteral(args) then Number(HexLiteralValue(args))
    else Raw(args)
  }

  /** `iscp_to_command(message, with_zone)` (eiscp/core.py:249-269): the first
      zone in `COMMANDS` order that knows the three-character prefix decides;
      if none does, `ValueError`. */
  function IscpToCommand(cat: Catalogue, message: string, withZone: bool): (r: Result<Decoded>)
    ensures r.Err? <==> forall i :: 0 <= i < |cat.commands| ==> Take(message, 3) !in cat.commands[i].1
    ensures r.Err? ==> r.error == ValueError(UnknownMessage)
    ensures r.Ok? ==>
      var k := FindZone(cat.commands, Take(message, 3));
      && 0 <= k < |cat.commands|
      && (forall i :: 0 <= i < k ==> Take(message, 3) !in cat.commands[i].1)
      && var info := cat.commands[k].1[Take(message, 3)];
      && var value := DecodeValue(info, Drop(message, 3));
      && r.value == if withZone then WithZone(cat.commands[k].0, info.name, value)
                    else WithoutZone(info.name, value)
  {
    var command, args := Take(message, 3), Drop(message, 3);
    var k := FindZone(cat.commands, command);
    if k < 0 then Err(ValueError(UnknownMessage))
    else
      var (zone, zoneCommands) := cat.commands[k];
      var info := zoneCommands[command];
      var value := DecodeValue(info, args);
      Ok(if withZone then WithZone(zone, info.name, value) else WithoutZone(info.name, value))
  }

  /** A padded code reads back as its number. */
  lemma PlainCodeReadsBack(m: nat)
    ensures IsHexLiteral(HexCode(m)) && HexLiteralValue(HexCode(m)) == m
  {
    HexCodeValue(m);
    var digits := HexCode(m);
    assert digits[|digits| - 1] != '\n';
    assert BeforeFinalNewline(digits) == digits;
    assert digits[0] != '+' && digits[0] != '-';
    assert Unsigned(digits) == digits;
  }

  /** A '+' or '-' and a padded code read back as the signed number. */
  lemma SignedCodeReadsBack(sign: string, m: nat)
    requires sign == "+" || sign == "-"
    ensures IsHexLiteral(sign + HexCode(m))
    ensures sign == "+" ==> HexLiteralValue(sign + HexCode(m)) == m
    ensures sign == "-" ==> HexLiteralValue(sign + HexCode(m)) == -(m as int)
  {
    HexCodeValue(m);
    var digits := HexCode(m);
    var code := sign + digits;
    assert code[|code| - 1] == digits[|digits| - 1] != '\n';
    assert BeforeFinalNewline(code) == code;
    assert code[1..] == digits;
    assert Unsigned(code) == digits;
  }

  /** "000", the code of zero for SWL and CTL, reads back as zero. */
  lemma ZeroCodeReadsBack()
    ensures IsHexLiteral("000") && HexLiteralValue("000") == 0
  {
    assert "000"[..2] == "00" && "00"[..1] == "0" && "0"[..0] == "";
    assert HexValue("000") == 0;
    assert Unsigned(BeforeFinalNewline("000")) == "000";
  }

  /** An 'X' code is not a hexadecimal literal. */
  lemma XCodeIsNotHex(m: nat)
    ensures !IsHexLiteral("X" + Upper(Hex(m)))
  {
    var h := Upper(Hex(m));
    var code := "X" + h;
    assert code[|code| - 1] == UpperChar(Hex(m)[|h| - 1]) != '\n';
    assert BeforeFinalNewline(code) == code;
    assert Unsigned(code) == code;
    assert !IsHexDigit(code[0]);
  }

  /** The hexadecimal codes that `EncodeNumber` produces read back as the
      number, except a negative number for a command other than SWL and CTL,
      whose 'X' code is not hexadecimal at all. */
  lemma EncodeNumberReadsBack(prefix: string, n: int)
    ensures IsSigned(prefix) || n >= 0 ==>
      IsHexLiteral(EncodeNumber(prefix, n)) && HexLiteralValue(EncodeNumber(prefix, n)) == n
    ensures !IsSigned(prefix) && n < 0 ==> !IsHexLiteral(EncodeNumber(prefix, n))
  {
    if IsSigned(prefix) {
      SignedReadsBack(prefix, n);
    } else {
      UnsignedReadsBack(prefix, n);
    }
  }

  lemma UnsignedReadsBack(prefix: string, n: int)
    requires !IsSigned(prefix)
    ensures n >= 0 ==> IsHexLiteral(EncodeNumber(prefix, n)) && HexLiteralValue(EncodeNumber(prefix, n)) == n
    ensures n < 0 ==> !IsHexLiteral(EncodeNumber(prefix, n))
  {
    EncodeUnsignedForms(prefix, n);
    if n >= 0 {
      PlainCodeReadsBack(n);
    } else {
      XCodeIsNotHex(-n);
    }
  }

  lemma SignedReadsBack(prefix: string, n: int)
    requires IsSigned(prefix)
    ensures IsHexLiteral(EncodeNumber(prefix, n)) && HexLiteralValue(EncodeNumber(prefix, n)) == n
  {
    EncodeSignedForms(prefix, n);
    SignedCodeValue(EncodeNumber(prefix, n), n);
  }

  /** The three forms of a SWL or CTL code read back as their number. */
  lemma SignedCodeValue(code: string, n: int)
    requires n == 0 ==> code == "000"
    requires n > 0 ==> code == "+" + HexCode(n)
    requires n < 0 ==> code == "-" + HexCode(-n)
    ensures IsHexLiteral(code) && HexLiteralValue(code) == n
  {
    if n == 0 {
      ZeroCodeReadsBack();
    } else if n > 0 {
      SignedCodeOf(code, "+", n);
    } else {
      SignedCodeOf(code, "-", -n);
    }
  }

  lemma SignedCodeOf(code: string, sign: string, m: nat)
    requires sign == "+" || sign == "-"
    requires code == sign + HexCode(m)
    ensures IsHexLiteral(code)
    ensures HexLiteralValue(code) == if sign == "+" then m else -(m as int)
  {
    SignedCodeReadsBack(sign, m);
  }

  /** A number sent for a command comes back as that number from the
      receiver's echo of the same message, provided the code is not also a
      value code of the command and the prefix is one of the catalogue's
      three-character ones. */
  lemma NumberRoundTrip(cat: Catalogue, prefix: string, n: int)
    requires |prefix| == 3 && (IsSigned(prefix) || n >= 0)
    requires FindZone(cat.commands, prefix) >= 0
    requires EncodeNumber(prefix, n) !in cat.commands[FindZone(cat.commands, prefix)].1[prefix].values
    ensures IscpToCommand(cat, prefix + EncodeNumber(prefix, n), false)
         == Ok(WithoutZone(cat.commands[FindZone(cat.commands, prefix)].1[prefix].name, Number(n)))
  {
    var message := prefix + EncodeNumber(prefix, n);
    assert Take(message, 3) == prefix;
    assert Drop(message, 3) == EncodeNumber(prefix, n);
    EncodeNumberReadsBack(prefix, n);
  }
}

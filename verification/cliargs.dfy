/**
 The command-line parser that `init` configures: a required positional `message`,
 an optional `--repeat` converted with `int()` whose string default "1" goes
 through the same conversion, and an `--app-help` flag that prints usage and exits.
 The parse is the left-to-right scan such a parser performs over the tokens the
 launcher leaves over; the token shapes it reads differently from the real parser
 are listed under "Left out" in the README.
 */
module CliArgs {
  import opened Options
  import PyStr

  const RepeatFlag: string := "--repeat"
  const AppHelpFlag: string := "--app-help"

  /** The default of `--repeat` is the string "1", converted like a supplied value. */
  const RepeatDefault: string := "1"

  /** The parsed namespace: the message and the repeat count. */
  datatype Config = Config(message: string, repeat: int)

  /** The reasons the parser reports a usage error and exits. */
  datatype ArgError =
    | ExpectedOneArgument(option: string)
    | InvalidInt(text: string)
    | MissingMessage
    | Unrecognized(extras: seq<string>)

  /** What a parse ends in: a configuration, the help exit, or a usage error. */
  datatype ParseOutcome = Parsed(config: Config) | ShowHelp | Rejected(error: ArgError)

  /** How the parser reads a single token. */
  datatype TokenKind = KnownOption | UnknownOption | Argument

  /** The parser's negative-number shape: "-" then digits, or "-" digits* "." digits+. */
  predicate IsNegativeNumberLike(t: string) {
    |t| >= 2 && t[0] == '-' &&
    var tail := t[1..];
    PyStr.AllDigits(tail) ||
    ('.' in tail &&
     var p := PyStr.IndexOf(tail, '.');
     PyStr.AllDigits(tail[..p]) && p + 1 < |tail| && PyStr.AllDigits(tail[p + 1..]))
  }

  /** The token's role: the empty string, anything not starting with '-', a lone "-",
      a negative number and anything holding a space are arguments; the two flags are
      known options; every other '-' token is an unknown option. */
  function Classify(t: string): (k: TokenKind)
    ensures k == KnownOption <==> t == RepeatFlag || t == AppHelpFlag
    ensures |t| == 0 || t[0] != '-' ==> k == Argument
  {
    if |t| == 0 || t[0] != '-' then Argument
    else if t == RepeatFlag || t == AppHelpFlag then KnownOption
    else if |t| == 1 then Argument
    else if IsNegativeNumberLike(t) then Argument
    else if ' ' in t then Argument
    else UnknownOption
  }

  /** What the scan has collected so far. */
  datatype Seen = Seen(message: Option<string>, repeat: Option<int>, extras: seq<string>)

  const NothingSeen: Seen := Seen(None, None, [])

  /** End of the scan: convert the default of an absent `--repeat`, then demand the
      message, then refuse any left-over tokens. */
  function Finish(seen: Seen): (r: ParseOutcome)
    ensures r.Parsed? <==> seen.message.Some? && |seen.extras| == 0
    ensures seen.message.None? ==> r == Rejected(MissingMessage)
    ensures seen.message.Some? && |seen.extras| > 0 ==> r == Rejected(Unrecognized(seen.extras))
    ensures r.Parsed? ==> r.config == Config(seen.message.value, ValueOr(seen.repeat, 1))
  {
    var repeat :=
      match seen.repeat
      case Some(v) => Some(v)
      case None => PyStr.ParseInt(RepeatDefault);
    assert PyStr.ParseInt(RepeatDefault) == Some(1) by {
      assert RepeatDefault[1..] == [];
    }
    match repeat
    case None => Rejected(InvalidInt(RepeatDefault))
    case Some(n) =>
      if seen.message.None? then Rejected(MissingMessage)
      else if |seen.extras| > 0 then Rejected(Unrecognized(seen.extras))
      else Parsed(Config(seen.message.value, n))
  }

  /** The tokens the scan takes as positional arguments, in order: argument tokens
      other than the value that directly follows a `--repeat`. */
  function Positionals(tokens: seq<string>): (r: seq<string>)
    ensures forall i :: 0 <= i < |r| ==> r[i] in tokens && Classify(r[i]) == Argument
    decreases |tokens|
  {
    if |tokens| == 0 then []
    else if tokens[0] == RepeatFlag && |tokens| >= 2 && Classify(tokens[1]) == Argument then
      var r := Positionals(tokens[2..]);
      assert forall x :: x in tokens[2..] ==> x in tokens;
      r
    else
      var r := Positionals(tokens[1..]);
      assert forall x :: x in tokens[1..] ==> x in tokens;
      if Classify(tokens[0]) == Argument then [tokens[0]] + r else r
  }

  /** The positionals of a concatenation are those of its halves when the second
      half does not open with an argument a trailing `--repeat` could take. */
  lemma {:induction false} PositionalsAppend(pre: seq<string>, rest: seq<string>)
    requires |rest| == 0 || Classify(rest[0]) != Argument
    ensures Positionals(pre + rest) == Positionals(pre) + Positionals(rest)
    decreases |pre|
  {
    if |pre| > 0 {
      var s := pre + rest;
      if pre[0] == RepeatFlag && |pre| >= 2 && Classify(pre[1]) == Argument {
        assert s[2..] == pre[2..] + rest;
        PositionalsAppend(pre[2..], rest);
      } else {
        assert s[1..] == pre[1..] + rest;
        PositionalsAppend(pre[1..], rest);
      }
    } else {
      assert pre + rest == rest;
    }
  }

  /** The argument after a `--repeat`, wherever the pair sits, is never a positional:
      dropping the pair leaves the positionals of what is around it. */
  lemma PositionalsSkipRepeatValue(pre: seq<string>, value: string, post: seq<string>)
    requires Classify(value) == Argument
    ensures Positionals(pre + [RepeatFlag, value] + post) == Positionals(pre) + Positionals(post)
  {
    var rest := [RepeatFlag, value] + post;
    assert pre + [RepeatFlag, value] + post == pre + rest;
    PositionalsAppend(pre, rest);
    assert rest[2..] == post;
  }

  /** The value text of the last `--repeat` that has an argument after it, if any. */
  function LastRepeatText(tokens: seq<string>): (r: Option<string>)
    ensures RepeatFlag !in tokens ==> r.None?
    decreases |tokens|
  {
    if |tokens| == 0 then None
    else if tokens[0] == RepeatFlag && |tokens| >= 2 && Classify(tokens[1]) == Argument then
      match LastRepeatText(tokens[2..])
      case Some(v) => Some(v)
      case None => Some(tokens[1])
    else
      assert RepeatFlag !in tokens ==> RepeatFlag !in tokens[1..];
      LastRepeatText(tokens[1..])
  }

  /** The left-to-right scan. `--app-help` exits when it is reached; `--repeat` takes
      the next token if that is an argument and converts it at once; the first
      argument is the message and later ones, like unknown options, are extras. */
  function Scan(tokens: seq<string>, seen: Seen): (r: ParseOutcome)
    ensures r.Parsed? ==> AppHelpFlag !in tokens && |seen.extras| == 0
    ensures r.Parsed? ==> forall t :: t in tokens ==> Classify(t) != UnknownOption
    ensures r.Parsed? && seen.message.Some? ==>
              r.config.message == seen.message.value && Positionals(tokens) == []
    ensures r.Parsed? && seen.message.None? ==> Positionals(tokens) == [r.config.message]
    ensures r.Parsed? ==>
              match LastRepeatText(tokens)
              case Some(v) => PyStr.ParseInt(v) == Some(r.config.repeat)
              case None => r.config.repeat == ValueOr(seen.repeat, 1)
    decreases |tokens|
  {
    if |tokens| == 0 then Finish(seen)
    else
      var t := tokens[0];
      if t == AppHelpFlag then ShowHelp
      else if t == RepeatFlag then
        if |tokens| < 2 || Classify(tokens[1]) != Argument then
          Rejected(ExpectedOneArgument(RepeatFlag))
        else
          match PyStr.ParseInt(tokens[1])
          case None => Rejected(InvalidInt(tokens[1]))
          case Some(v) => Scan(tokens[2..], seen.(repeat := Some(v)))
      else
        var seen' :=
          if Classify(t) == Argument && seen.message.None? then seen.(message := Some(t))
          else seen.(extras := seen.extras + [t]);
        Scan(tokens[1..], seen')
  }

  /** `parse_args(tokens)` for the parser `init` configures: on success the message is
      the one positional token, and the count is the last `--repeat` value, or the
      default "1", as converted by `int`. */
  function Parse(tokens: seq<string>): (r: ParseOutcome)
    ensures r.Parsed? ==> AppHelpFlag !in tokens
    ensures r.Parsed? ==> forall t :: t in tokens ==> Classify(t) != UnknownOption
    ensures r.Parsed? ==> Positionals(tokens) == [r.config.message]
    ensures r.Parsed? ==> r.config.message in tokens && Classify(r.config.message) == Argument
    ensures r.Parsed? ==> PyStr.ParseInt(ValueOr(LastRepeatText(tokens), RepeatDefault)) == Some(r.config.repeat)
    ensures r.Parsed? && RepeatFlag !in tokens ==> r.config.repeat == 1
  {
    assert PyStr.ParseInt(RepeatDefault) == Some(1) by {
      assert RepeatDefault[1..] == [];
    }
    var r := Scan(tokens, NothingSeen);
    assert r.Parsed? ==> Positionals(tokens)[0] in tokens;
    r
  }

  /** A lone message resolves with the default repeat count, the integer 1. */
  lemma ParseMessageOnly(message: string)
    requires Classify(message) == Argument
    ensures Parse([message]) == Parsed(Config(message, 1))
  {
    var seen := Seen(Some(message), None, []);
    assert [message][1..] == [];
    assert Scan([], seen) == Parsed(Config(message, 1));
    assert Scan([message], NothingSeen) == Scan([], seen);
  }

  /** Every integer literal `int` accepts is an argument token, never an option. */
  lemma IntLiteralIsArgument(s: string)
    requires PyStr.IsIntLiteral(s)
    ensures Classify(s) == Argument
  {
    if s[0] == '-' {
      assert s[1..][0] == s[1];
      assert PyStr.IsDigit(s[1]);
      assert IsNegativeNumberLike(s);
      assert s != RepeatFlag && s != AppHelpFlag by {
        assert RepeatFlag[1] == '-' && AppHelpFlag[1] == '-';
      }
    }
  }

  /** What `--repeat s` yields beside `message`: the configuration with `int(s)`, or
      the invalid-int error when `int` refuses s. */
  function RepeatOutcome(message: string, s: string): ParseOutcome {
    match PyStr.ParseInt(s)
    case Some(v) => Parsed(Config(message, v))
    case None => Rejected(InvalidInt(s))
  }

  /** `message --repeat s` and `--repeat s message`, for any integer literal s
      (signed, with leading zeros, ...), resolve to the message and `int(s)`; a
      literal longer than `int` accepts is refused with the invalid-int error. */
  lemma ParseRepeatLiteral(message: string, s: string)
    requires Classify(message) == Argument
    requires PyStr.IsIntLiteral(s)
    ensures Parse([message, RepeatFlag, s]) == RepeatOutcome(message, s)
    ensures Parse([RepeatFlag, s, message]) == RepeatOutcome(message, s)
  {
    IntLiteralIsArgument(s);
    var a := [message, RepeatFlag, s];
    var s1 := Seen(Some(message), None, []);
    assert a[1..] == [RepeatFlag, s];
    assert Scan(a, NothingSeen) == Scan([RepeatFlag, s], s1);
    var b := [RepeatFlag, s, message];
    if PyStr.ParseInt(s).Some? {
      var config := Config(message, PyStr.ParseInt(s).value);
      var done := Seen(Some(message), Some(config.repeat), []);
      assert Scan([], done) == Parsed(config);
      assert [RepeatFlag, s][2..] == [];
      assert Scan([RepeatFlag, s], s1) == Scan([], done);
      var s2 := Seen(None, Some(config.repeat), []);
      assert b[2..] == [message];
      assert [message][1..] == [];
      assert Scan([message], s2) == Scan([], done);
      assert Scan(b, NothingSeen) == Scan([message], s2);
    } else {
      assert Scan([RepeatFlag, s], s1) == Rejected(InvalidInt(s));
      assert Scan(b, NothingSeen) == Rejected(InvalidInt(s));
    }
  }

  /** A configuration written out as `message --repeat N`, or `--repeat N message`,
      parses back to itself, unless N has more digits than `int` accepts. */
  lemma ParseRoundTrip(config: Config)
    requires Classify(config.message) == Argument
    ensures var n := PyStr.ShowInt(config.repeat);
      var expected := if PyStr.DigitCount(n) <= PyStr.MaxStrDigits then Parsed(config) else Rejected(InvalidInt(n));
      && Parse([config.message, RepeatFlag, n]) == expected
      && Parse([RepeatFlag, n, config.message]) == expected
  {
    ParseRepeatLiteral(config.message, PyStr.ShowInt(config.repeat));
  }

  /** The scan reaches `--app-help` at position k, with no `--repeat` before it that
      could fail first, and exits through help. */
  lemma {:induction false} ScanHelpWins(tokens: seq<string>, seen: Seen, k: nat)
    requires k < |tokens| && tokens[k] == AppHelpFlag
    requires RepeatFlag !in tokens[..k]
    ensures Scan(tokens, seen) == ShowHelp
    decreases |tokens|
  {
    if k > 0 {
      var t := tokens[0];
      assert t in tokens[..k];
      assert tokens[1..][..k - 1] == tokens[..k][1..];
      if t != AppHelpFlag {
        var seen' :=
          if Classify(t) == Argument && seen.message.None? then seen.(message := Some(t))
          else seen.(extras := seen.extras + [t]);
        ScanHelpWins(tokens[1..], seen', k - 1);
      }
    }
  }

  /** `--app-help` with no `--repeat` before it ends the parse in the help exit. */
  lemma ParseHelpWins(tokens: seq<string>, k: nat)
    requires k < |tokens| && tokens[k] == AppHelpFlag
    requires RepeatFlag !in tokens[..k]
    ensures Parse(tokens) == ShowHelp
  {
    ScanHelpWins(tokens, NothingSeen, k);
  }

  /** A scan over tokens holding `--app-help` ends in help, or in the error of a
      `--repeat` reached before it. */
  lemma {:induction false} ScanHelpOrRepeatError(tokens: seq<string>, seen: Seen)
    requires AppHelpFlag in tokens
    ensures var r := Scan(tokens, seen);
      r == ShowHelp || (r.Rejected? && (r.error.ExpectedOneArgument? || r.error.InvalidInt?))
    decreases |tokens|
  {
    var t := tokens[0];
    if t != AppHelpFlag {
      assert AppHelpFlag in tokens[1..] by {
        assert tokens == [t] + tokens[1..];
      }
      if t == RepeatFlag {
        if |tokens| >= 2 && Classify(tokens[1]) == Argument && PyStr.ParseInt(tokens[1]).Some? {
          assert tokens[1..] == [tokens[1]] + tokens[2..];
          assert AppHelpFlag in tokens[2..];
          ScanHelpOrRepeatError(tokens[2..], seen.(repeat := Some(PyStr.ParseInt(tokens[1]).value)));
        }
      } else {
        var seen' :=
          if Classify(t) == Argument && seen.message.None? then seen.(message := Some(t))
          else seen.(extras := seen.extras + [t]);
        ScanHelpOrRepeatError(tokens[1..], seen');
      }
    }
  }

  /** A parse of tokens holding `--app-help` ends in the help exit, or in the error of
      a `--repeat` before it that lacks a value or has a non-integer one; a
      `--repeat` that succeeds before the flag does not stop the help exit. */
  lemma ParseHelpOrRepeatError(tokens: seq<string>)
    requires AppHelpFlag in tokens
    ensures Parse(tokens) == ShowHelp
         || (Parse(tokens).Rejected? && (Parse(tokens).error.ExpectedOneArgument? || Parse(tokens).error.InvalidInt?))
  {
    ScanHelpOrRepeatError(tokens, NothingSeen);
  }

  /** A scan that meets `--app-help` at position k ends in help, or in the error of a
      `--repeat` before position k: one without a value, or one whose value, also
      before k, `int` refuses. Nothing after the flag can change the outcome. */
  lemma {:induction false} ScanHelpErrorBefore(tokens: seq<string>, seen: Seen, k: nat)
    requires k < |tokens| && tokens[k] == AppHelpFlag
    ensures var r := Scan(tokens, seen);
      || r == ShowHelp
      || (&& r.Rejected?
          && RepeatFlag in tokens[..k]
          && (r.error.ExpectedOneArgument? || (r.error.InvalidInt? && r.error.text in tokens[..k])))
    decreases |tokens|
  {
    var t := tokens[0];
    if k > 0 && t != AppHelpFlag {
      assert t == tokens[..k][0];
      if t == RepeatFlag {
        if Classify(tokens[1]) == Argument {
          assert k != 1 && tokens[1] == tokens[..k][1];
          if PyStr.ParseInt(tokens[1]).Some? {
            assert tokens[2..][..k - 2] == tokens[..k][2..];
            ScanHelpErrorBefore(tokens[2..], seen.(repeat := Some(PyStr.ParseInt(tokens[1]).value)), k - 2);
          }
        }
      } else {
        var seen' :=
          if Classify(t) == Argument && seen.message.None? then seen.(message := Some(t))
          else seen.(extras := seen.extras + [t]);
        assert tokens[1..][..k - 1] == tokens[..k][1..];
        ScanHelpErrorBefore(tokens[1..], seen', k - 1);
      }
    }
  }

  /** `--app-help` at position k ends the parse in the help exit unless a `--repeat`
      before it fails first, for want of a value or on a value, also before k, that
      `int` refuses. */
  lemma ParseHelpErrorBefore(tokens: seq<string>, k: nat)
    requires k < |tokens| && tokens[k] == AppHelpFlag
    ensures var r := Parse(tokens);
      || r == ShowHelp
      || (&& r.Rejected?
          && RepeatFlag in tokens[..k]
          && (r.error.ExpectedOneArgument? || (r.error.InvalidInt? && r.error.text in tokens[..k])))
  {
    ScanHelpErrorBefore(tokens, NothingSeen, k);
  }

  /** With no argument token at all and no help flag, the scan finds no message. */
  lemma {:induction false} ScanNoMessage(tokens: seq<string>, seen: Seen)
    requires seen.message.None?
    requires forall i :: 0 <= i < |tokens| ==> Classify(tokens[i]) == UnknownOption
    ensures Scan(tokens, seen) == Rejected(MissingMessage)
    decreases |tokens|
  {
    if |tokens| > 0 {
      assert tokens[0] != AppHelpFlag && tokens[0] != RepeatFlag;
      ScanNoMessage(tokens[1..], seen.(extras := seen.extras + [tokens[0]]));
    }
  }

  /** Without the positional message the parse fails with the missing-message error,
      whatever unknown options come with it. */
  lemma ParseWithoutMessage(tokens: seq<string>)
    requires forall i :: 0 <= i < |tokens| ==> Classify(tokens[i]) == UnknownOption
    ensures Parse(tokens) == Rejected(MissingMessage)
  {
    ScanNoMessage(tokens, NothingSeen);
  }

  /** `--repeat N` without the positional message fails with the missing-message
      error: the count is no message. (A literal `int` refuses fails first.) */
  lemma ParseRepeatWithoutMessage(s: string)
    requires PyStr.IsIntLiteral(s)
    ensures Parse([RepeatFlag, s]) == if PyStr.ParseInt(s).Some? then Rejected(MissingMessage) else Rejected(InvalidInt(s))
  {
    IntLiteralIsArgument(s);
    assert [RepeatFlag, s][2..] == [];
    if PyStr.ParseInt(s).Some? {
      assert Scan([], Seen(None, PyStr.ParseInt(s), [])) == Rejected(MissingMessage);
    }
  }

  /** Without a positional token the parse never yields a configuration. */
  lemma ParseNeedsPositional(tokens: seq<string>)
    requires Positionals(tokens) == []
    ensures !Parse(tokens).Parsed?
  {
  }

  /** A `--repeat` value that `int` refuses, not an integer literal or one with too
      many digits, is refused with the invalid-int error. */
  lemma ParseBadRepeat(message: string, value: string)
    requires Classify(message) == Argument && Classify(value) == Argument
    requires PyStr.ParseInt(value).None?
    ensures Parse([message, RepeatFlag, value]) == Rejected(InvalidInt(value))
  {
    var a := [message, RepeatFlag, value];
    assert a[1..] == [RepeatFlag, value];
    assert Scan([RepeatFlag, value], Seen(Some(message), None, [])) == Rejected(InvalidInt(value));
    assert Scan(a, NothingSeen) == Scan([RepeatFlag, value], Seen(Some(message), None, []));
  }

  /** Worked cases that yield a configuration. */
  lemma AcceptedScenarios()
    ensures Parse(["hello"]) == Parsed(Config("hello", 1))
    ensures Parse(["hi", "--repeat", "3"]) == Parsed(Config("hi", 3))
    ensures Parse(["hi", "--repeat", "007"]) == Parsed(Config("hi", 7))
  {
    ParseMessageOnly("hello");
    PyStr.ParseIntScenarios();
    ParseRepeatLiteral("hi", "3");
    ParseRepeatLiteral("hi", "007");
  }

  /** Worked cases that end in a usage error. */
  lemma RejectedScenarios()
    ensures Parse([]) == Rejected(MissingMessage)
    ensures Parse(["hi", "--repeat", "x"]) == Rejected(InvalidInt("x"))
    ensures Parse(["hi", "--repeat"]) == Rejected(ExpectedOneArgument(RepeatFlag))
    ensures Parse(["hi", "there"]) == Rejected(Unrecognized(["there"]))
  {
    ParseBadRepeat("hi", "x");
    assert Classify("there") == Argument;
    var extra := Seen(Some("hi"), None, ["there"]);
    assert Scan([], extra) == Rejected(Unrecognized(["there"]));
    assert ["hi", "there"][1..] == ["there"];
    assert ["there"][1..] == [];
    assert Seen(Some("hi"), None, []).(extras := [] + ["there"]) == extra;
    assert Scan(["there"], Seen(Some("hi"), None, [])) == Scan([], extra);
  }

  /** Worked cases that end in the help exit, also after a successful `--repeat`. */
  lemma HelpScenarios()
    ensures Parse(["hi", "--app-help"]) == ShowHelp
    ensures Parse(["--repeat", "3", "hi", "--app-help"]) == ShowHelp
    ensures Parse(["--repeat", "3", "--app-help", "--repeat", "x"]) == ShowHelp
  {
    ParseHelpWins(["hi", "--app-help"], 1);
    var late := ["--repeat", "3", "hi", "--app-help"];
    assert late[2..] == ["hi", "--app-help"];
    ScanHelpWins(late[2..], Seen(None, Some(3), []), 1);
    var early := ["--repeat", "3", "--app-help", "--repeat", "x"];
    assert early[2..] == ["--app-help", "--repeat", "x"];
    ScanHelpWins(early[2..], Seen(None, Some(3), []), 0);
  }

  /** Worked case: a count far outside any machine integer is still accepted. */
  lemma HugeRepeatScenario()
    ensures Parse(["hi", "--repeat", "-100000000000000000000"]) == Parsed(Config("hi", -100000000000000000000))
  {
    PyStr.ParseIntScenarios();
    ParseRepeatLiteral("hi", "-100000000000000000000");
  }
}

# cli_app: an application factory driven by command-line arguments

This project models `examples/cli_app.py` from aiohttp's examples in Dafny. That file is an
application factory that the `aiohttp.web` launcher calls with the command-line tokens
the launcher does not consume itself. The Dafny model covers three parts:

- **Argument resolution** (`CliArgs`). `init` configures a parser with:
  - a required positional `message`;
  - an optional `--repeat`, converted with `int()`, whose string default `"1"` goes through the same conversion;
  - an `--app-help` flag that prints usage and exits.

  Parsing is modelled as the left-to-right scan that parser performs. The result is one of:
  - a `Config(message, repeat)`;
  - the help exit;
  - one of four usage errors: `--repeat` without a value, a value `int()` refuses (not an integer literal, or one of more than 4300 digits), a missing message, or unrecognized extra tokens.
- **The handler `display_message`** (`Display`, `CliApp.HandleDisplayMessage`). The response
  text is `"\n".join([message] * repeat)`. That means `repeat` copies of the message with one
  newline between neighbours and none after the last copy. It is the empty string when
  `repeat <= 0`, because Python's `[x] * n` is `[]` for `n <= 0`. List repetition converts
  the count to a 64-bit index first: for a count below -2^63 or from 2^63 up it raises
  `OverflowError`, and the framework answers 500 instead of the text. The handler only
  reads the application state.
- **Application construction** (`CliApp.Init`). An application is a value with two parts:
  - one state slot, `Option<Config>`, standing for the single-key `StateDict`;
  - the list of route registrations.

  `init` parses first. Only then does it create the application, write the state and
  register `GET /`. The construction is modelled as explicit steps with a trace of
  intermediate applications. This makes the invariant "a registered handler always finds
  its state" visible at every moment, and shows that the swapped order breaks it.

The Python built-ins involved are written out in `PyStr`: list repetition, `str.join`,
`str.split` (the partner of `join` in the round-trip lemmas), `int()` and the decimal
literal `str()` writes. Python's integers are unbounded, as are Dafny's, but two of these
built-ins bound their input: list repetition needs a count that fits a 64-bit index, and
`int()` refuses a literal of more than 4300 digits (the interpreter's default limit).

The parser accepts an empty-string token as the message, and so does the model
(`Classify("")` is `Argument`). The code does not validate `repeat`, so a negative count
renders `""` (`Display.Render`'s first postcondition), and a count outside the index range
is accepted by the parser and only fails when `GET /` is served
(`CliApp.InitRepeatOverflow`).

## Model

| member | source | states |
|---|---|---|
| `PyStr.Replicate` | examples/cli_app.py:28 | the copies `[message] * repeat` builds for an index-sized count: `repeat` elements (none when `repeat <= 0`), every one equal to the message |
| `PyStr.ListRepeat` | examples/cli_app.py:28 | `[message] * repeat` succeeds exactly when `repeat` fits a 64-bit index, and then holds `repeat` copies (none when `repeat <= 0`); otherwise it is the `OverflowError` |
| `PyStr.ParseInt` | examples/cli_app.py:41-43 | the `type=int` conversion succeeds exactly on an optionally signed run of decimal digits with at most 4300 digits; the sign of the value follows the leading `-` |
| `PyStr.ShowInt` | examples/cli_app.py:41-43 | every int has a decimal literal; `int()` reads it back as that same int when it has at most 4300 digits and refuses it otherwise; negative ones are `-` followed by digits |
| `PyStr.ShowNat` | examples/cli_app.py:41-43 | a natural number's digits, without leading zeros, evaluate back to that number |
| `PyStr.Join` | examples/cli_app.py:28 | `sep.join(parts)` is empty for no parts and starts with the first part otherwise; `JoinSplit` and `SplitJoin` tie it to `split` in both directions |
| `PyStr.JoinLength` | examples/cli_app.py:28 | a join of one or more parts is as long as the parts together plus one separator between each neighbouring pair |
| `PyStr.JoinSplit` | examples/cli_app.py:28 | splitting any string at a character and joining the pieces with that character gives the string back |
| `PyStr.SplitJoin` | examples/cli_app.py:28 | joining one or more separator-free parts and splitting again recovers exactly those parts |
| `Display.Render` | examples/cli_app.py:28 | the copies joined by newlines are empty when `repeat <= 0` and are the message itself when `repeat == 1` |
| `Display.Body` | examples/cli_app.py:28 | `"\n".join([message] * repeat)` yields a text exactly when `repeat` fits an index, and that text meets the slot description (it is `Render`'s); otherwise it is the `OverflowError` |
| `Display.RenderUnfold` | examples/cli_app.py:28 | for two or more copies the body is the message, one newline, then the body for one copy fewer |
| `Display.RenderLength` | examples/cli_app.py:28 | for n >= 1 copies the body has n·\|message\| + (n − 1) characters |
| `Display.PrependCopy` | examples/cli_app.py:28 | a copy of the message and a newline in front of a text laid out for n − 1 copies gives the layout for n copies |
| `Display.RenderMeetsSpec` | examples/cli_app.py:28 | the body has copy i of the message at offset i·(\|message\|+1) for every i < n, and a newline after each copy but the last |
| `Display.SlotChar` | examples/cli_app.py:28 | in a text meeting the slot description, position j of slot i holds the message's j-th character, and the position right after the slot a newline |
| `Display.SpecCharAt` | examples/cli_app.py:28 | in any text meeting that slot description, each character is the matching character of the message, or a newline at the slot boundaries |
| `Display.SpecUnique` | examples/cli_app.py:28 | two texts that meet the slot description for the same message and count are equal |
| `Display.RenderCharacterized` | examples/cli_app.py:28 | a string is the handler's body if and only if it meets the slot description, in both directions |
| `Display.RenderNoTrailingSeparator` | examples/cli_app.py:28 | for n >= 1 the body starts with the message and ends with it, with no separator after the last copy |
| `Display.RenderNewlineCount` | examples/cli_app.py:28 | for a newline-free message the body holds exactly n − 1 newlines, and none for n <= 0 |
| `Display.RenderSplitsIntoCopies` | examples/cli_app.py:28 | for a newline-free message and n >= 1, splitting the body at newlines yields exactly n copies of the message |
| `Display.RenderScenarios` | examples/cli_app.py:28 | worked cases: `a` once is `"a"`, `b` twice is `"b\nb"`, `hi` three times is `"hi\nhi\nhi"` |
| `CliArgs.Classify` | examples/cli_app.py:38-48 | a token is a known option exactly when it is `--repeat` or `--app-help`; the empty token and tokens not starting with `-` are arguments |
| `CliArgs.Finish` | examples/cli_app.py:38-43 | at the end of the parse a missing message is an error before leftovers are; the result is a configuration only when a message is present and nothing is left over; an absent `--repeat` resolves to 1 |
| `CliArgs.Positionals` | examples/cli_app.py:38-43 | the tokens taken as positionals are argument-classified tokens of the input |
| `CliArgs.PositionalsAppend` | examples/cli_app.py:38-43 | the positionals of two token runs joined are those of each run, when the second does not open with an argument a trailing `--repeat` could take |
| `CliArgs.PositionalsSkipRepeatValue` | examples/cli_app.py:41-43 | the argument right after a `--repeat`, wherever the pair sits, is never a positional: the positionals are those of the tokens around the pair |
| `CliArgs.LastRepeatText` | examples/cli_app.py:41-43 | without a `--repeat` token there is no repeat value text |
| `CliArgs.Scan` | examples/cli_app.py:38-50 | a scan that yields a configuration never met `--app-help`, started with no extras and met no unknown option; with no message yet, its message is the one positional token (not a `--repeat` value); its count is `int` of the last `--repeat` value, or the count collected so far, else 1 |
| `CliArgs.Parse` | examples/cli_app.py:33-50 | a successful parse has no help flag and no unknown option among the tokens; the positional tokens are exactly `[message]`; the count is `int` of the last `--repeat` value, or of the default `"1"`; when `--repeat` is absent the count is 1 |
| `CliArgs.ParseMessageOnly` | examples/cli_app.py:41-43 | a lone message resolves to `Config(message, 1)`: the default `"1"` passes through `int` |
| `CliArgs.IntLiteralIsArgument` | examples/cli_app.py:41-43 | every integer literal `int` accepts, negative ones included, is read as an argument token, so it can be the value of `--repeat` |
| `CliArgs.ParseRepeatLiteral` | examples/cli_app.py:38-43 | `message --repeat s` and `--repeat s message` resolve to `Config(message, int(s))` for every integer literal s (signs, leading zeros), and to the invalid-int error when s has more than 4300 digits |
| `CliArgs.ParseRoundTrip` | examples/cli_app.py:38-43 | `message --repeat N` and `--repeat N message` both resolve to `Config(message, N)` for every int N of at most 4300 digits, and to the invalid-int error beyond |
| `CliArgs.ScanHelpWins` | examples/cli_app.py:46-48 | a scan that reaches `--app-help` with no `--repeat` before it ends in the help exit, whatever it has collected |
| `CliArgs.ParseHelpWins` | examples/cli_app.py:46-48 | `--app-help` with no `--repeat` before it ends the parse in the help exit |
| `CliArgs.ScanHelpOrRepeatError` | examples/cli_app.py:41-48 | a scan over tokens holding `--app-help` ends in help, or in the missing-value or invalid-int error of a `--repeat` |
| `CliArgs.ParseHelpOrRepeatError` | examples/cli_app.py:41-48 | with `--app-help` among the tokens the parse ends in the help exit, or in a missing-value or invalid-int error of a `--repeat`; it never yields a configuration |
| `CliArgs.ScanHelpErrorBefore` | examples/cli_app.py:41-48 | a scan that meets `--app-help` at position k ends in help, or in the error of a `--repeat` before k, with a refused value that also lies before k |
| `CliArgs.ParseHelpErrorBefore` | examples/cli_app.py:41-48 | `--app-help` at position k ends the parse in help unless a `--repeat` before k fails first, for want of a value or on a refused value before k; nothing after the flag matters |
| `CliArgs.ScanNoMessage` | examples/cli_app.py:38 | a scan over unknown options only, having no message yet, ends in the missing-message error |
| `CliArgs.ParseWithoutMessage` | examples/cli_app.py:38 | without the positional message (only unknown options, or nothing) the parse fails with the missing-message error |
| `CliArgs.ParseRepeatWithoutMessage` | examples/cli_app.py:38-43 | `--repeat N` without the positional message fails with the missing-message error, or first with the invalid-int error when N has too many digits |
| `CliArgs.ParseNeedsPositional` | examples/cli_app.py:38 | with no positional token the parse never yields a configuration |
| `CliArgs.ParseBadRepeat` | examples/cli_app.py:41-43 | a `--repeat` value that `int` refuses (not an integer literal, or more than 4300 digits) is refused with the invalid-int error |
| `PyStr.ParseIntScenarios` | examples/cli_app.py:41-43 | worked cases: `int` reads `3` as 3, `007` as 7 and `-100000000000000000000` as that number |
| `CliArgs.AcceptedScenarios` | examples/cli_app.py:33-50 | worked cases: `hello` gives count 1; `hi --repeat 3` gives count 3; `hi --repeat 007` gives count 7 |
| `CliArgs.RejectedScenarios` | examples/cli_app.py:33-50 | worked cases: no tokens, `hi --repeat x`, `hi --repeat` and `hi there` each end in their usage error |
| `CliArgs.HelpScenarios` | examples/cli_app.py:46-50 | worked cases: `hi --app-help`, `--repeat 3 hi --app-help` and `--repeat 3 --app-help --repeat x` end in the help exit |
| `CliArgs.HugeRepeatScenario` | examples/cli_app.py:41-43 | worked case: `hi --repeat -100000000000000000000` parses, with that count |
| `CliApp.HandleDisplayMessage` | examples/cli_app.py:26-29 | the handler fails on a missing state exactly when the state is absent; it answers exactly when the state holds the arguments and the count fits an index, with status 200 and a body meeting the slot description; otherwise it raises the overflow; it returns the application unchanged |
| `CliApp.FindRoute` | examples/cli_app.py:54 | the route found is the first registration matching the request's method and path; none is found exactly when no registration matches |
| `CliApp.DispatchKeepsApp` | examples/cli_app.py:26-29 | dispatching a request leaves the application as it was |
| `CliApp.Dispatch` | examples/cli_app.py:54 | dispatching keeps the application; a request is not found exactly when no registration matches it, and otherwise gets the reply of a matching registration's handler |
| `CliApp.ServeAll` | examples/cli_app.py:26-29 | requests served one after another get one reply each, in order, the first being that request's own reply; `ServeAllIsolated` extends this to every position |
| `CliApp.ServeAllIsolated` | examples/cli_app.py:26-29 | in any run of requests served one after another, each reply equals the reply that request gets alone |
| `CliApp.RepeatedRequestsIdentical` | examples/cli_app.py:26-29 | n repeated identical requests get n identical replies |
| `CliApp.ApplyStep` | examples/cli_app.py:53-54 | writing the state sets the slot and leaves the routes alone; registering appends one GET route and leaves the state alone; a present state is never removed |
| `CliApp.TraceReady` | examples/cli_app.py:52-54 | if the state is published before any state-reading handler is registered, every intermediate application has its state whenever it has such a route |
| `CliApp.Build` | examples/cli_app.py:52-54 | the built application holds the parsed configuration in its state, has exactly the route `GET /`, and every state-reading route finds the state |
| `CliApp.BuildEndsTrace` | examples/cli_app.py:52-54 | the built application is the last application in the trace of `init`'s two steps from an empty application |
| `CliApp.InitConstructionReady` | examples/cli_app.py:52-54 | no moment of `init`'s construction shows the route without the state |
| `CliApp.SwappedOrderNotReady` | examples/cli_app.py:53-54 | registering the route before writing the state breaks the publish-first order and exposes the route without state |
| `CliApp.Init` | examples/cli_app.py:32-56 | an application is built exactly when parsing succeeds; help and usage errors build nothing and pass through unchanged; a built application holds the parsed configuration and exactly one route, `GET /` |
| `CliApp.InitServesMessage` | examples/cli_app.py:50-56 | every request dispatched to a registered route of a built application finds the state and answers 200 with the rendered message when the count fits an index, and raises the overflow otherwise |
| `CliApp.InitRoutesOnlyRoot` | examples/cli_app.py:54 | a built application handles a request exactly when it is `GET /` |
| `CliApp.InitAnswers` | examples/cli_app.py:27-28 | when the arguments parse, `init` starts the built application and its `GET /` answers 200 with the parsed message rendered, or raises the overflow for a count outside the index range |
| `CliApp.InitRepeatAnswers` | examples/cli_app.py:38-56 | `message --repeat s`, for an s that `int` accepts, starts the application built from the message and `int(s)`, and `GET /` gets that configuration's reply |
| `CliApp.InitRepeatOverflow` | examples/cli_app.py:28 | a `--repeat` that `int` accepts but that does not fit an index still starts the application, and its `GET /` raises the overflow |
| `CliApp.InitScenarios` | examples/cli_app.py:26-56 | worked case: `hi --repeat 3` answers `"hi\nhi\nhi"` |
| `CliApp.InitIsolation` | examples/cli_app.py:26-56 | applications built from `a` and from `b --repeat 2` answer `"a"` and `"b\nb"`, each from its own configuration |
| `CliApp.InitOverflowScenario` | examples/cli_app.py:26-56 | worked case: `hi --repeat -100000000000000000000` starts, and its `GET /` raises the overflow |

## Left out

- Serving. The `aiohttp.web` launcher and its `-H`/`-P` flags are not modelled, nor are the event loop, the async nature of the handler, or concurrency between requests. The handler is modelled as a synchronous function of the application. Request independence is stated by `CliApp.ServeAllIsolated`.
- The framework's own objects. `web.Application`, `web.Request` and `web.Response` are reduced to plain values, and router matching to an exact method-and-path lookup. The `HEAD` route that `add_get` adds on its own is left out, as are 405 answers and the content-type charset.
- `Init`: when no argument list is given, the parser reads `sys.argv[1:]`. The model takes those process arguments as a parameter.
- `CliArgs.Classify`: these token shapes are treated differently from the real parser.
  - `--repeat=N`: the parser splits at `=`; the model sees an unknown option.
  - `--app-help=x`: the parser matches the flag and reports an ignored explicit argument; the model sees an unknown option.
  - Option abbreviations (`--rep`, `--app`): the parser expands them; the model sees unknown options.
  - `--` itself: the parser drops it, so `-- hi` and `hi --` parse as `hi`; the model sees an unknown option and rejects it as unrecognized.
  - A token after `--`: the parser always treats it as positional; the model classifies it normally.
- `CliArgs.Classify`: the negative-number and digit shapes use ASCII digits only. Python's `\d` also matches other Unicode digits, and its `$` also matches before a final newline.
- `PyStr.ParseInt`: `int()` also accepts surrounding whitespace, `_` between digits and non-ASCII digits. The model accepts only an optional sign followed by ASCII digits.
- `PyStr.ParseInt`: the 4300-digit limit is the interpreter's default. `sys.set_int_max_str_digits`, `PYTHONINTMAXSTRDIGITS` or `-X int_max_str_digits` can change or lift it, and interpreters older than 3.11 (other than the security releases that added it) have no limit.
- `PyStr.ShowInt`: `str(n)` itself raises `ValueError` for an int of more than 4300 digits; `ShowInt` still writes the literal, since it serves only as the partner that `ParseInt` reads back.
- `PyStr.ListRepeat`: the index range is that of a 64-bit build. A 32-bit build bounds the count by 2^31 instead.
- The 500 answer. A handler that raises (missing state, overflow) is an outcome of the handler; the framework's error page for it is not modelled.
- Usage text, error-message wording and exit status codes. The help exit and the four usage errors are outcomes, not process exits.
- Isolation between two applications built by separate `init` calls holds by construction: applications are immutable values and share no state. `CliApp.InitIsolation` works one pair through; no lemma states it for every pair.
- Memory exhaustion for a very large `repeat` is not modelled.

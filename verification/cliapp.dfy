/**
 The application factory `init` and its one request handler `display_message`.
 An application is a value: a single state slot for the parsed arguments (the
 one-key state dictionary) and the list of route registrations made on its router.
 `init` parses first and only then creates the application, writes the state, and
 registers `GET /`; the handler reads the state and writes nothing.
 */
module CliApp {
  import opened Options
  import opened CliArgs
  import Display
  import PyStr

  /** The request handlers this module defines. */
  datatype Handler = DisplayMessage

  /** A registration on the router: method, path and the handler it dispatches to. */
  datatype Route = Route(httpMethod: string, path: string, handler: Handler)

  /** An application: the `args` state slot and the registrations in order. */
  datatype App = App(state: Option<Config>, routes: seq<Route>)

  datatype Request = Request(httpMethod: string, path: string)

  /** A plain-text response. */
  datatype Response = Response(status: int, contentType: string, text: string)

  /** A handler either answers, or raises: `state["args"]` is absent, or the repeat
      count does not fit an index (`OverflowError`); the framework answers a raised
      handler with status 500. */
  datatype HandlerResult = Responded(response: Response) | MissingState | IndexOverflow

  /** What the router does with a request: no registration matches, or the matching
      handler ran. */
  datatype Reply = NotFound | Handled(result: HandlerResult)

  /** How `init` ends: a built application, the help exit, or a usage error. */
  datatype InitOutcome = Started(app: App) | HelpExit | UsageError(error: ArgError)

  const Get: string := "GET"
  const Root: string := "/"

  /** Whether a handler reads the `args` state slot. */
  predicate ReadsState(h: Handler) {
    match h
    case DisplayMessage => true
  }

  /** A freshly created application: no state, no routes. */
  function NewApp(): App {
    App(None, [])
  }

  /** `display_message`: look up the parsed arguments and answer with the message
      repeated; the application comes back untouched. */
  function HandleDisplayMessage(app: App): (r: (App, HandlerResult))
    ensures r.0 == app
    ensures r.1 == MissingState <==> app.state.None?
    ensures r.1.Responded? <==> app.state.Some? && PyStr.IsIndexSized(app.state.value.repeat)
    ensures r.1.Responded? ==>
              && r.1.response.status == 200
              && Display.RenderSpec(r.1.response.text, app.state.value.message, app.state.value.repeat)
  {
    match app.state
    case None => (app, MissingState)
    case Some(args) =>
      match Display.Body(args.message, args.repeat)
      case None => (app, IndexOverflow)
      case Some(text) => (app, Responded(Response(200, "text/plain", text)))
  }

  /** Run a handler against an application. */
  function Invoke(h: Handler, app: App): (App, HandlerResult) {
    match h
    case DisplayMessage => HandleDisplayMessage(app)
  }

  /** A registration answers a request with the same method and path. */
  predicate Matches(route: Route, req: Request) {
    route.httpMethod == req.httpMethod && route.path == req.path
  }

  /** The first registration matching the request's method and path exactly. */
  function FindRoute(routes: seq<Route>, req: Request): (r: Option<Route>)
    ensures r.Some? ==> exists i :: 0 <= i < |routes| && routes[i] == r.value && Matches(routes[i], req)
                                    && forall j :: 0 <= j < i ==> !Matches(routes[j], req)
    ensures r.None? <==> forall i :: 0 <= i < |routes| ==> !Matches(routes[i], req)
    decreases |routes|
  {
    if |routes| == 0 then None
    else if Matches(routes[0], req) then Some(routes[0])
    else
      var r := FindRoute(routes[1..], req);
      assert forall i :: 1 <= i < |routes| ==> routes[i] == routes[1..][i - 1];
      assert r.Some? ==> exists i :: 0 <= i < |routes| && routes[i] == r.value && Matches(routes[i], req)
                                     && forall j :: 0 <= j < i ==> !Matches(routes[j], req) by {
        if r.Some? {
          var i :| 0 <= i < |routes[1..]| && routes[1..][i] == r.value && Matches(routes[1..][i], req)
                   && forall j :: 0 <= j < i ==> !Matches(routes[1..][j], req);
          assert routes[i + 1] == r.value;
          assert forall j :: 0 <= j < i + 1 ==> !Matches(routes[j], req);
        }
      }
      r
  }

  /** Dispatch one request: route it and run the handler found, if any. */
  function Dispatch(app: App, req: Request): (r: (App, Reply))
    ensures r.0 == app
    ensures r.1 == NotFound <==> forall i :: 0 <= i < |app.routes| ==> !Matches(app.routes[i], req)
    ensures r.1.Handled? ==>
              exists i :: 0 <= i < |app.routes| && Matches(app.routes[i], req)
                          && r.1.result == Invoke(app.routes[i].handler, app).1
  {
    match FindRoute(app.routes, req)
    case None => (app, NotFound)
    case Some(route) =>
      var (app', result) := Invoke(route.handler, app);
      (app', Handled(result))
  }

  /** Serve requests one after another, each seeing the application the previous left. */
  function ServeAll(app: App, reqs: seq<Request>): (replies: seq<Reply>)
    ensures |replies| == |reqs|
    ensures |reqs| > 0 ==> replies[0] == Dispatch(app, reqs[0]).1
    decreases |reqs|
  {
    if |reqs| == 0 then []
    else
      var (app', reply) := Dispatch(app, reqs[0]);
      [reply] + ServeAll(app', reqs[1..])
  }

  /** Dispatching to this module's handler never changes the application. */
  lemma DispatchKeepsApp(app: App, req: Request)
    ensures Dispatch(app, req).0 == app
  {
  }

  /** Every reply in a run of requests is the reply that request gets on its own:
      requests do not interfere, in whatever order they arrive. */
  lemma {:induction false} ServeAllIsolated(app: App, reqs: seq<Request>)
    ensures forall i :: 0 <= i < |reqs| ==> ServeAll(app, reqs)[i] == Dispatch(app, reqs[i]).1
    decreases |reqs|
  {
    if |reqs| > 0 {
      DispatchKeepsApp(app, reqs[0]);
      ServeAllIsolated(app, reqs[1..]);
      assert forall i :: 1 <= i < |reqs| ==> reqs[i] == reqs[1..][i - 1];
    }
  }

  /** Repeated identical requests to the same application get identical replies. */
  lemma RepeatedRequestsIdentical(app: App, req: Request, n: nat)
    ensures forall i :: 0 <= i < n ==> ServeAll(app, PyStr.Replicate(req, n))[i] == Dispatch(app, req).1
  {
    ServeAllIsolated(app, PyStr.Replicate(req, n));
  }

  // Construction, step by step.

  /** One construction step of `init`: write the `args` state, or register a GET route. */
  datatype Step = PublishState(config: Config) | RegisterGet(path: string, handler: Handler)

  function ApplyStep(app: App, s: Step): (r: App)
    ensures app.state.Some? ==> r.state.Some?
    ensures s.PublishState? ==> r.state == Some(s.config) && r.routes == app.routes
    ensures s.RegisterGet? ==> r.state == app.state && r.routes == app.routes + [Route(Get, s.path, s.handler)]
  {
    match s
    case PublishState(config) => app.(state := Some(config))
    case RegisterGet(path, handler) => app.(routes := app.routes + [Route(Get, path, handler)])
  }

  /** The application before any step and after each step, in order. */
  function Trace(app: App, steps: seq<Step>): (t: seq<App>)
    ensures |t| == |steps| + 1 && t[0] == app
    decreases |steps|
  {
    [app] + (if |steps| == 0 then [] else Trace(ApplyStep(app, steps[0]), steps[1..]))
  }

  /** Every registered handler that reads the state will find it. */
  predicate Ready(app: App) {
    forall i :: 0 <= i < |app.routes| && ReadsState(app.routes[i].handler) ==> app.state.Some?
  }

  /** Some step before position j writes the state. */
  predicate PublishedBefore(steps: seq<Step>, j: int) {
    exists i :: 0 <= i < j && i < |steps| && steps[i].PublishState?
  }

  /** Each registration of a state-reading handler comes after the state is present:
      already in `app`, or written by an earlier step. */
  predicate PublishedFirst(app: App, steps: seq<Step>) {
    forall j :: 0 <= j < |steps| && steps[j].RegisterGet? && ReadsState(steps[j].handler) ==>
      app.state.Some? || PublishedBefore(steps, j)
  }

  /** Steps that publish the state before registering any state reader keep every
      intermediate application ready. */
  lemma {:induction false} TraceReady(app: App, steps: seq<Step>)
    requires Ready(app)
    requires PublishedFirst(app, steps)
    ensures forall k :: 0 <= k < |Trace(app, steps)| ==> Ready(Trace(app, steps)[k])
    decreases |steps|
  {
    if |steps| > 0 {
      var next := ApplyStep(app, steps[0]);
      var rest := steps[1..];
      assert Ready(next);
      assert PublishedFirst(next, rest) by {
        forall j | 0 <= j < |rest| && rest[j].RegisterGet? && ReadsState(rest[j].handler)
          ensures next.state.Some? || PublishedBefore(rest, j)
        {
          assert rest[j] == steps[j + 1];
          if app.state.None? {
            var i :| 0 <= i < j + 1 && i < |steps| && steps[i].PublishState?;
            if i > 0 {
              assert rest[i - 1].PublishState?;
            }
          }
        }
      }
      TraceReady(next, rest);
      assert Trace(app, steps) == [app] + Trace(next, rest);
    }
  }

  /** The steps `init` takes once the arguments are parsed: state, then the route. */
  function InitSteps(config: Config): seq<Step> {
    [PublishState(config), RegisterGet(Root, DisplayMessage)]
  }

  /** The application `init` builds from parsed arguments: it holds them in its state
      and has the one route `GET /`, whose handler finds the state. */
  function Build(config: Config): (app: App)
    ensures app.state == Some(config)
    ensures app.routes == [Route(Get, Root, DisplayMessage)]
    ensures Ready(app)
  {
    var s0 := NewApp();
    var s1 := ApplyStep(s0, PublishState(config));
    ApplyStep(s1, RegisterGet(Root, DisplayMessage))
  }

  /** `Build` is the last application in the trace of `init`'s construction steps. */
  lemma BuildEndsTrace(config: Config)
    ensures Build(config) == Trace(NewApp(), InitSteps(config))[2]
  {
  }

  /** No moment of `init`'s construction shows the route without the state. */
  lemma InitConstructionReady(config: Config)
    ensures forall k :: 0 <= k < 3 ==> Ready(Trace(NewApp(), InitSteps(config))[k])
  {
    assert InitSteps(config)[0].PublishState?;
    assert PublishedBefore(InitSteps(config), 1);
    TraceReady(NewApp(), InitSteps(config));
  }

  /** The other order, route before state, shows the route without the state. */
  lemma SwappedOrderNotReady(config: Config)
    ensures !PublishedFirst(NewApp(), [RegisterGet(Root, DisplayMessage), PublishState(config)])
    ensures !Ready(Trace(NewApp(), [RegisterGet(Root, DisplayMessage), PublishState(config)])[1])
  {
    var steps := [RegisterGet(Root, DisplayMessage), PublishState(config)];
    var t := Trace(NewApp(), steps);
    assert t[1] == ApplyStep(NewApp(), steps[0]);
    assert t[1].routes[0].handler == DisplayMessage;
  }

  /** The arguments `parse_args` sees: the ones given, or the process's own
      arguments after the program name when none are given. */
  function ArgvOrProcess(argv: Option<seq<string>>, processArgs: seq<string>): seq<string> {
    ValueOr(argv, processArgs)
  }

  /** `init(argv)`: parse, then create the application, write the state and
      register `GET /`. A parse that ends in help or an error builds nothing. */
  function Init(argv: Option<seq<string>>, processArgs: seq<string>): (r: InitOutcome)
    ensures var p := Parse(ArgvOrProcess(argv, processArgs));
      && (r.Started? <==> p.Parsed?)
      && (r.HelpExit? <==> p.ShowHelp?)
      && (r.UsageError? <==> p.Rejected?)
      && (r.UsageError? ==> r.error == p.error)
      && (r.Started? ==> r.app.state == Some(p.config))
    ensures r.Started? ==> r.app.routes == [Route(Get, Root, DisplayMessage)]
  {
    match Parse(ArgvOrProcess(argv, processArgs))
    case Parsed(config) => Started(Build(config))
    case ShowHelp => HelpExit
    case Rejected(e) => UsageError(e)
  }

  /** The reply `GET /` gets from an application built from `config`: 200 with the
      message rendered, or the overflow of a count that does not fit an index. */
  function RootReply(config: Config): Reply {
    if PyStr.IsIndexSized(config.repeat) then
      Handled(Responded(Response(200, "text/plain", Display.Render(config.message, config.repeat))))
    else Handled(IndexOverflow)
  }

  /** Every request dispatched to a route of a built application finds the state and
      answers 200 with the configured message rendered, or raises the overflow when
      the count does not fit an index. */
  lemma InitServesMessage(argv: Option<seq<string>>, processArgs: seq<string>)
    requires Init(argv, processArgs).Started?
    ensures var app := Init(argv, processArgs).app;
      forall i :: 0 <= i < |app.routes| ==>
        Dispatch(app, Request(app.routes[i].httpMethod, app.routes[i].path)).1 == RootReply(app.state.value)
  {
  }

  /** `GET /` on a built application answers with the rendered message; any other
      method or path is not routed. */
  lemma InitRoutesOnlyRoot(argv: Option<seq<string>>, processArgs: seq<string>, req: Request)
    requires Init(argv, processArgs).Started?
    ensures var app := Init(argv, processArgs).app;
      Dispatch(app, req).1.Handled? <==> req == Request(Get, Root)
  {
  }

  /** A successful parse of the given arguments starts an application whose `GET /`
      answers with the parsed message rendered, or with the overflow. */
  lemma InitAnswers(argv: seq<string>, processArgs: seq<string>, config: Config)
    requires Parse(argv) == Parsed(config)
    ensures Init(Some(argv), processArgs) == Started(Build(config))
    ensures Dispatch(Build(config), Request(Get, Root)).1 == RootReply(config)
  {
  }

  /** `message --repeat s` for an `s` that `int` accepts starts the application built
      from the message and `int(s)`, and `GET /` gets that configuration's reply. */
  lemma InitRepeatAnswers(message: string, s: string, processArgs: seq<string>)
    requires Classify(message) == Argument
    requires PyStr.ParseInt(s).Some?
    ensures var config := Config(message, PyStr.ParseInt(s).value);
      var r := Init(Some([message, RepeatFlag, s]), processArgs);
      r == Started(Build(config)) && Dispatch(r.app, Request(Get, Root)).1 == RootReply(config)
  {
    ParseRepeatLiteral(message, s);
    InitAnswers([message, RepeatFlag, s], processArgs, Config(message, PyStr.ParseInt(s).value));
  }

  /** A `--repeat` that `int` accepts but that does not fit an index still builds the
      application; its `GET /` then raises the overflow instead of answering. */
  lemma InitRepeatOverflow(message: string, s: string, processArgs: seq<string>)
    requires Classify(message) == Argument
    requires PyStr.ParseInt(s).Some? && !PyStr.IsIndexSized(PyStr.ParseInt(s).value)
    ensures var r := Init(Some([message, RepeatFlag, s]), processArgs);
      r.Started? && Dispatch(r.app, Request(Get, Root)).1 == Handled(IndexOverflow)
  {
    InitRepeatAnswers(message, s, processArgs);
  }

  /** Worked case: `hi --repeat 3` answers "hi\nhi\nhi". */
  lemma InitScenarios(processArgs: seq<string>)
    ensures var r := Init(Some(["hi", "--repeat", "3"]), processArgs);
      r.Started? && Dispatch(r.app, Request(Get, Root)).1 == Handled(Responded(Response(200, "text/plain", "hi\nhi\nhi")))
  {
    AcceptedScenarios();
    InitAnswers(["hi", "--repeat", "3"], processArgs, Config("hi", 3));
    assert PyStr.IsIndexSized(3);
    Display.RenderScenarios();
  }

  /** Applications built from `a` and from `b --repeat 2` each answer from their own
      configuration. */
  lemma InitIsolation(processArgs: seq<string>)
    ensures var a := Init(Some(["a"]), processArgs);
      var b := Init(Some(["b", "--repeat", "2"]), processArgs);
      && a.Started? && b.Started?
      && Dispatch(a.app, Request(Get, Root)).1 == Handled(Responded(Response(200, "text/plain", "a")))
      && Dispatch(b.app, Request(Get, Root)).1 == Handled(Responded(Response(200, "text/plain", "b\nb")))
  {
    ParseMessageOnly("a");
    InitAnswers(["a"], processArgs, Config("a", 1));
    assert PyStr.ShowInt(2) == "2";
    ParseRepeatLiteral("b", "2");
    InitAnswers(["b", "--repeat", "2"], processArgs, Config("b", 2));
    assert PyStr.IsIndexSized(2) && PyStr.IsIndexSized(1);
    Display.RenderScenarios();
  }

  /** Worked case: `hi --repeat -100000000000000000000` starts, and its `GET /`
      raises the overflow. */
  lemma InitOverflowScenario(processArgs: seq<string>)
    ensures var r := Init(Some(["hi", "--repeat", "-100000000000000000000"]), processArgs);
      r.Started? && Dispatch(r.app, Request(Get, Root)).1 == Handled(IndexOverflow)
  {
    HugeRepeatScenario();
    InitAnswers(["hi", "--repeat", "-100000000000000000000"], processArgs, Config("hi", -100000000000000000000));
  }
}

/** The two routes of an RPC call: the tiered dispatcher, and the transport's fast path in front of it. */
module Routing {
  import opened Prelude
  import opened Text
  import opened Json
  import opened Schema
  import opened Registry
  import opened Lookup
  import opened LegacyAliases

  const UNKNOWN_METHOD_PREFIX := "unknown method: "

  const SUBSCRIBE := "core." + "events_subscribe_token"

  /** A handler invocation: the controller it belongs to and the parameters it received. */
  datatype Call = Call(schema: ControllerSchema, params: Params)

  /** What a request leaves behind: the world, the handlers it ran, and its result. */
  datatype Outcome<W> = Outcome(world: W, calls: seq<Call>, result: Result<Value, string>)

  /** Everything the routes consult. The alias table rewrites no name twice, as that of the core does not.
      `mint` is the body of `core.events_subscribe_token` and `legacy` the dispatcher of tier 3; both may
      change the world. */
  datatype Core<!W> = Core(
    controllers: Controllers<W>,
    aliases: AliasTable,
    version: string,
    mint: (W, Value) -> (W, Result<Value, string>),
    legacy: (W, string, Value) -> Option<(W, Result<Value, string>)>)

  function ParamsToObject(params: Value): Result<Params, ParamError> {
    match params
    case Object(fields) => Ok(fields)
    case Null => Ok(map[])
    case other => Err(WrongShape(other.TypeName()))
  }

  function TryInvokeRegisteredRpc<W>(core: Core<W>, w: W, name: string, params: Params): Option<Outcome<W>> {
    match HandlerFor(core.controllers, name)
    case None => None
    case Some(c) =>
      var (w', result) := c.handler(w, params);
      Some(Outcome(w', [Call(c.schema, params)], result))
  }

  function TryCoreDispatch<W>(core: Core<W>, w: W, name: string, params: Value): Option<Outcome<W>> {
    if name == "core.ping" then Some(Outcome(w, [], Ok(Object(map["ok" := Bool(true)]))))
    else if name == "core.version" then Some(Outcome(w, [], Ok(Object(map["version" := Str(core.version)]))))
    else if name == SUBSCRIBE then
      var (w', result) := core.mint(w, params);
      Some(Outcome(w', [], result))
    else None
  }

  function TryRegistryDispatch<W>(core: Core<W>, w: W, name: string, params: Value): Option<Outcome<W>> {
    match SchemaForRpcMethod(core.controllers, name)
    case None => None
    case Some(schema) =>
      match ParamsToObject(params)
      case Err(e) => Some(Outcome(w, [], Err(e.Render())))
      case Ok(obj) =>
        match ValidateParams(schema, obj)
        case Err(e) => Some(Outcome(w, [], Err(e.Render())))
        case Ok(_) => TryInvokeRegisteredRpc(core, w, name, obj)
  }

  /** `dispatch`: rewrite the name, then core methods, then controllers, then the legacy dispatcher. */
  function Dispatch<W>(core: Core<W>, w: W, requested: string, params: Value): Outcome<W> {
    var name := ResolveIn(core.aliases, requested);
    match TryCoreDispatch(core, w, name, params)
    case Some(outcome) => outcome
    case None =>
      match TryRegistryDispatch(core, w, name, params)
      case Some(outcome) => outcome
      case None =>
        match core.legacy(w, name, params)
        case Some(r) => Outcome(r.0, [], r.1)
        case None => Outcome(w, [], Err(UNKNOWN_METHOD_PREFIX + name))
  }

  /** `invoke_method_inner`: the registry under the name as given, else the dispatcher. */
  function InvokeMethodInner<W>(core: Core<W>, w: W, requested: string, params: Value): Outcome<W> {
    match SchemaForRpcMethod(core.controllers, requested)
    case None => Dispatch(core, w, requested, params)
    case Some(schema) =>
      match ParamsToObject(params)
      case Err(e) => Outcome(w, [], Err(e.Render()))
      case Ok(obj) =>
        match ValidateParams(schema, obj)
        case Err(e) => Outcome(w, [], Err(e.Render()))
        case Ok(_) =>
          match TryInvokeRegisteredRpc(core, w, requested, obj)
          case Some(outcome) => outcome
          case None => Dispatch(core, w, requested, params)
  }

  predicate Registered<W>(core: Core<W>, name: string) {
    HandlerFor(core.controllers, name).Some?
  }

  // ----- one controller, one handler run

  /** Calling one controller: refuse a wrong shape or an unsatisfying map and leave the world
      alone, else run its handler once on exactly that map. */
  function RunOn<W>(c: Controller<W>, w: W, params: Value): Outcome<W> {
    match ParamsToObject(params)
    case Err(e) => Outcome(w, [], Err(e.Render()))
    case Ok(obj) =>
      match ValidateParams(c.schema, obj)
      case Err(e) => Outcome(w, [], Err(e.Render()))
      case Ok(_) => Outcome(c.handler(w, obj).0, [Call(c.schema, obj)], c.handler(w, obj).1)
  }

  lemma RegistryDispatchRuns<W>(core: Core<W>, w: W, name: string, params: Value)
    ensures TryRegistryDispatch(core, w, name, params) ==
            match HandlerFor(core.controllers, name) case Some(c) => Some(RunOn(c, w, params)) case None => None
  {
    SchemaIsTheHandlers(core.controllers, name);
  }

  /** A registered name reaches its controller directly; the fallback after a found schema is never taken. */
  lemma InvokeRuns<W>(core: Core<W>, w: W, requested: string, params: Value)
    ensures InvokeMethodInner(core, w, requested, params) ==
            match HandlerFor(core.controllers, requested)
            case Some(c) => RunOn(c, w, params)
            case None => Dispatch(core, w, requested, params)
  {
    SchemaIsTheHandlers(core.controllers, requested);
  }

  function WrongShapeText(kind: string): string {
    "invalid params: " + ("expected object or null, got " + kind)
  }

  /** A call to a registered name, shape by shape. Null stands for no parameters; an object reaches the handler, once and
      as it is, exactly when it satisfies the schema; anything else is refused by its kind, and a refused call changes nothing. */
  lemma RegisteredCall<W>(core: Core<W>, w: W, name: string, params: Value)
    requires Registered(core, name)
    ensures var c := HandlerFor(core.controllers, name).value;
            var outcome := InvokeMethodInner(core, w, name, params);
            match params
            case Null => outcome == InvokeMethodInner(core, w, name, Object(map[]))
            case Object(obj) =>
              if Satisfies(c.schema, obj)
              then outcome == Outcome(c.handler(w, obj).0, [Call(c.schema, obj)], c.handler(w, obj).1)
              else outcome.world == w && outcome.calls == [] && outcome.result.Err?
            case Bool(_) => outcome == Outcome(w, [], Err(WrongShapeText("bool")))
            case Num(_) => outcome == Outcome(w, [], Err(WrongShapeText("number")))
            case Str(_) => outcome == Outcome(w, [], Err(WrongShapeText("string")))
            case Array(_) => outcome == Outcome(w, [], Err(WrongShapeText("array")))
  {
    InvokeRuns(core, w, name, params);
    InvokeRuns(core, w, name, Object(map[]));
    if params.Object? {
      ValidateParamsExact(HandlerFor(core.controllers, name).value.schema, params.fields);
    }
  }

  /** The text of a refused call: it names the first missing input with its comment, else the least unknown key,
      else the first mistyped input with what was expected and what was given. */
  lemma RefusalText<W>(core: Core<W>, w: W, name: string, obj: Params)
    requires Registered(core, name)
    ensures var schema := HandlerFor(core.controllers, name).value.schema;
            var result := InvokeMethodInner(core, w, name, Object(obj)).result;
            var inputs := schema.inputs;
            var missing := exists i :: 0 <= i < |inputs| && Missing(inputs[i], obj);
            var unknown := obj.Keys - Names(inputs);
            && (forall i :: 0 <= i < |inputs| && Missing(inputs[i], obj) && (forall j :: 0 <= j < i ==> !Missing(inputs[j], obj)) ==>
                  result == Err("missing required param '" + (inputs[i].name + "': " + inputs[i].comment)))
            && (forall key :: !missing && IsLeast(key, unknown) ==>
                  result == Err("unknown param '" + (key + "' for " + schema.namespace + "." + schema.func)))
            && (forall i, expected ::
                  0 <= i < |inputs| && !missing && unknown == {} && inputs[i].name in obj
                  && CheckType(obj[inputs[i].name], inputs[i].ty) == Err(expected)
                  && (forall j :: 0 <= j < i ==> !Mistyped(inputs[j], obj)) ==>
                    result == Err("invalid type for param '" + (inputs[i].name + "' in " + schema.namespace + "." + schema.func
                                  + ": expected " + expected + ", got " + obj[inputs[i].name].TypeName())))
  {
    var schema := HandlerFor(core.controllers, name).value.schema;
    InvokeRuns(core, w, name, Object(obj));
    FirstMissingExact(schema.inputs, obj);
    LeastUnique(obj.Keys - Names(schema.inputs));
    FirstMismatchExact(schema.inputs, obj);
    forall i | 0 <= i < |schema.inputs| && schema.inputs[i].name in obj {
      CheckTypeExact(obj[schema.inputs[i].name], schema.inputs[i].ty);
    }
  }

  lemma CoreNamesAreNotRegistered<W>(core: Core<W>, name: string)
    requires Registered(core, name)
    ensures name != "core.ping" && name != "core.version" && name != SUBSCRIBE
  {
    SchemaIsTheHandlers(core.controllers, name);
    assert name[0] == "openhuman."[0];
  }

  lemma CoreNamesDiffer()
    ensures SUBSCRIBE != "core.ping" && SUBSCRIBE != "core.version"
  {
    assert SUBSCRIBE[5] == 'e' && "core.ping"[5] == 'p' && "core.version"[5] == 'v';
  }

  /** Whatever is registered, a subscription request reaches the minting body and no handler. */
  lemma SubscribeIsMinted<W>(core: Core<W>, w: W, params: Value)
    requires !IsAlias(core.aliases, SUBSCRIBE)
    ensures InvokeMethodInner(core, w, SUBSCRIBE, params) == Outcome(core.mint(w, params).0, [], core.mint(w, params).1)
  {
    ResolveInFindsRow(core.aliases, SUBSCRIBE);
    CoreNamesDiffer();
    if Registered(core, SUBSCRIBE) {
      CoreNamesAreNotRegistered(core, SUBSCRIBE);
    }
    InvokeRuns(core, w, SUBSCRIBE, params);
  }

  /** The two questions about the core itself are answered by it, whatever is registered and whatever the parameters. */
  lemma CoreAnswers<W>(core: Core<W>, w: W, params: Value)
    ensures !IsAlias(core.aliases, "core.ping") ==>
              InvokeMethodInner(core, w, "core.ping", params) == Outcome(w, [], Ok(Object(map["ok" := Bool(true)])))
    ensures !IsAlias(core.aliases, "core.version") ==>
              InvokeMethodInner(core, w, "core.version", params) == Outcome(w, [], Ok(Object(map["version" := Str(core.version)])))
  {
    ResolveInFindsRow(core.aliases, "core.ping");
    ResolveInFindsRow(core.aliases, "core.version");
    assert "core.ping"[5] == 'p' && "core.version"[5] == 'v';
    if Registered(core, "core.ping") {
      CoreNamesAreNotRegistered(core, "core.ping");
    }
    if Registered(core, "core.version") {
      CoreNamesAreNotRegistered(core, "core.version");
    }
    InvokeRuns(core, w, "core.ping", params);
    InvokeRuns(core, w, "core.version", params);
  }

  /** What neither the core nor a controller answers is the legacy dispatcher's, under the resolved name: its world, its result,
      and no handler. */
  lemma LegacyTierAnswers<W>(core: Core<W>, w: W, requested: string, params: Value)
    requires var name := ResolveIn(core.aliases, requested);
             name != "core.ping" && name != "core.version" && name != SUBSCRIBE
    requires !Registered(core, requested) && !Registered(core, ResolveIn(core.aliases, requested))
    requires core.legacy(w, ResolveIn(core.aliases, requested), params).Some?
    ensures var answer := core.legacy(w, ResolveIn(core.aliases, requested), params).value;
            InvokeMethodInner(core, w, requested, params) == Outcome(answer.0, [], answer.1)
  {
    InvokeRuns(core, w, requested, params);
    RegistryDispatchRuns(core, w, ResolveIn(core.aliases, requested), params);
  }

  lemma DispatchOfRegistered<W>(core: Core<W>, w: W, requested: string, params: Value)
    requires Registered(core, ResolveIn(core.aliases, requested))
    ensures Dispatch(core, w, requested, params) ==
            RunOn(HandlerFor(core.controllers, ResolveIn(core.aliases, requested)).value, w, params)
  {
    CoreNamesAreNotRegistered(core, ResolveIn(core.aliases, requested));
    RegistryDispatchRuns(core, w, ResolveIn(core.aliases, requested), params);
  }

  lemma DispatchOfUnregistered<W>(core: Core<W>, w: W, requested: string, params: Value)
    requires !Registered(core, ResolveIn(core.aliases, requested))
    ensures Dispatch(core, w, requested, params).calls == []
  {
    RegistryDispatchRuns(core, w, ResolveIn(core.aliases, requested), params);
  }

  // ----- the fast path against the dispatcher

  lemma FastPathAgrees<W>(core: Core<W>, w: W, requested: string, params: Value)
    requires !(IsAlias(core.aliases, requested) && Registered(core, requested))
    ensures InvokeMethodInner(core, w, requested, params) == Dispatch(core, w, requested, params)
  {
    InvokeRuns(core, w, requested, params);
    CanonicalIsNotAlias(core.aliases, requested);
    if Registered(core, requested) {
      DispatchOfRegistered(core, w, requested, params);
    }
  }

  /** Every input bound to null: it satisfies any schema. */
  function AllNull(schema: ControllerSchema): Params {
    map name | name in Names(schema.inputs) :: Null
  }

  lemma AllNullSatisfies(schema: ControllerSchema)
    ensures ValidateParams(schema, AllNull(schema)).Ok?
  {
    ValidateParamsExact(schema, AllNull(schema));
    forall i | 0 <= i < |schema.inputs|
      ensures schema.inputs[i].name in AllNull(schema) && !Mistyped(schema.inputs[i], AllNull(schema))
    {
      assert schema.inputs[i].name in Names(schema.inputs);
      CheckTypeExact(Null, schema.inputs[i].ty);
    }
  }

  lemma DispatchNeverRunsAnAlias<W>(core: Core<W>, w: W, alias: string, params: Value)
    requires IsAlias(core.aliases, alias)
    ensures forall call :: call in Dispatch(core, w, alias, params).calls ==> RpcMethodName(call.schema) != alias
  {
    CanonicalIsNotAlias(core.aliases, alias);
    var name := ResolveIn(core.aliases, alias);
    if Registered(core, name) {
      DispatchOfRegistered(core, w, alias, params);
      SchemaIsTheHandlers(core.controllers, name);
      RunOnIsChecked(HandlerFor(core.controllers, name).value, w, params);
    } else {
      DispatchOfUnregistered(core, w, alias, params);
    }
  }

  lemma FastPathDiffers<W>(core: Core<W>, w: W, requested: string)
    requires IsAlias(core.aliases, requested) && Registered(core, requested)
    ensures var params := Object(AllNull(HandlerFor(core.controllers, requested).value.schema));
            InvokeMethodInner(core, w, requested, params) != Dispatch(core, w, requested, params)
  {
    var c := HandlerFor(core.controllers, requested).value;
    var params := Object(AllNull(c.schema));
    var call := Call(c.schema, AllNull(c.schema));
    AllNullSatisfies(c.schema);
    SchemaIsTheHandlers(core.controllers, requested);
    assert InvokeMethodInner(core, w, requested, params).calls == [call] by {
      InvokeRuns(core, w, requested, params);
    }
    assert call !in Dispatch(core, w, requested, params).calls by {
      DispatchNeverRunsAnAlias(core, w, requested, params);
    }
  }

  /** The fast path and the dispatcher agree on every world and all parameters, in result, effect
      and handlers run, exactly for the methods that are not both an alias and registered. */
  lemma FastPathRefinesExactlyWhen<W(!new)>(core: Core<W>, some: W, requested: string)
    ensures (forall w, params :: InvokeMethodInner(core, w, requested, params) == Dispatch(core, w, requested, params))
            <==> !(IsAlias(core.aliases, requested) && Registered(core, requested))
  {
    if IsAlias(core.aliases, requested) && Registered(core, requested) {
      FastPathDiffers(core, some, requested);
    } else {
      forall w, params {
        FastPathAgrees(core, w, requested, params);
      }
    }
  }

  /** At most one handler runs per request; it belongs to the name as given or as rewritten,
      and gets parameters that satisfy its own schema. */
  lemma AtMostOneHandlerRuns<W>(core: Core<W>, w: W, requested: string, params: Value)
    ensures var calls := InvokeMethodInner(core, w, requested, params).calls;
            && |calls| <= 1
            && (|calls| == 1 ==>
                  && Satisfies(calls[0].schema, calls[0].params)
                  && (params == Object(calls[0].params) || (params == Null && calls[0].params == map[]))
                  && RpcMethodName(calls[0].schema) ==
                     if Registered(core, requested) then requested else ResolveIn(core.aliases, requested))
  {
    InvokeRuns(core, w, requested, params);
    if Registered(core, requested) {
      RunOnIsChecked(HandlerFor(core.controllers, requested).value, w, params);
      SchemaIsTheHandlers(core.controllers, requested);
    } else if Registered(core, ResolveIn(core.aliases, requested)) {
      DispatchOfRegistered(core, w, requested, params);
      RunOnIsChecked(HandlerFor(core.controllers, ResolveIn(core.aliases, requested)).value, w, params);
      SchemaIsTheHandlers(core.controllers, ResolveIn(core.aliases, requested));
    } else {
      DispatchOfUnregistered(core, w, requested, params);
    }
  }

  lemma RunOnIsChecked<W>(c: Controller<W>, w: W, params: Value)
    ensures var calls := RunOn(c, w, params).calls;
            calls == [] || (exists obj :: calls == [Call(c.schema, obj)] && Satisfies(c.schema, obj)
                                          && (params == Object(obj) || (params == Null && obj == map[])))
  {
    if ParamsToObject(params).Ok? {
      ValidateParamsExact(c.schema, ParamsToObject(params).value);
    }
  }

  lemma DispatchResolvesFirst<W>(core: Core<W>, w: W, requested: string, params: Value)
    ensures Dispatch(core, w, requested, params) == Dispatch(core, w, ResolveIn(core.aliases, requested), params)
  {
    ResolveInIsIdempotent(core.aliases, requested);
  }

  /** An unregistered alias and its canonical name are interchangeable. */
  lemma AliasMeansCanonical<W>(core: Core<W>, w: W, alias: string, params: Value)
    requires IsAlias(core.aliases, alias) && !Registered(core, alias)
    ensures InvokeMethodInner(core, w, alias, params) == InvokeMethodInner(core, w, ResolveIn(core.aliases, alias), params)
  {
    var canonical := ResolveIn(core.aliases, alias);
    assert !IsAlias(core.aliases, canonical) by {
      CanonicalIsNotAlias(core.aliases, alias);
    }
    FastPathAgrees(core, w, alias, params);
    DispatchResolvesFirst(core, w, alias, params);
    FastPathAgrees(core, w, canonical, params);
  }

  // ----- error texts

  /** The method an unknown-method text names, recovered by stripping the prefix. */
  function UnknownMethodName(message: string): Option<string> {
    if StartsWith(message, UNKNOWN_METHOD_PREFIX) then Some(message[|UNKNOWN_METHOD_PREFIX|..]) else None
  }

  /** A method that no tier knows fails with a text that gives its resolved name back. */
  lemma UnknownMethodRoundTrip<W>(core: Core<W>, w: W, requested: string, params: Value)
    requires TryCoreDispatch(core, w, ResolveIn(core.aliases, requested), params).None?
    requires !Registered(core, requested) && !Registered(core, ResolveIn(core.aliases, requested))
    requires core.legacy(w, ResolveIn(core.aliases, requested), params).None?
    ensures var outcome := InvokeMethodInner(core, w, requested, params);
            && outcome.world == w && outcome.calls == []
            && outcome.result == Err("unknown method: " + ResolveIn(core.aliases, requested))
            && UnknownMethodName(outcome.result.error) == Some(ResolveIn(core.aliases, requested))
  {
    InvokeRuns(core, w, requested, params);
    RegistryDispatchRuns(core, w, ResolveIn(core.aliases, requested), params);
    var name := ResolveIn(core.aliases, requested);
    assert (UNKNOWN_METHOD_PREFIX + name)[|UNKNOWN_METHOD_PREFIX|..] == name;
  }

  predicate IsParamValidationError(message: string) {
    || StartsWith(message, "unknown param '")
    || StartsWith(message, "missing required param '")
    || StartsWith(message, "invalid params: ")
  }

  /** The errors raised before any handler runs. */
  datatype EarlyError = BadParams(e: ParamError) | UnknownMethod(name: string) | NoClientId | TokensExhausted
  {
    function Render(): string {
      match this
      case BadParams(e) => e.Render()
      case UnknownMethod(name) => UNKNOWN_METHOD_PREFIX + name
      case NoClientId => "missing or empty 'client_id' parameter"
      case TokensExhausted => "events bind-token" + " store at capacity; try again shortly"
    }
  }

  lemma EarlyTextsDiffer(e: EarlyError)
    requires !e.BadParams?
    ensures !IsParamValidationError(e.Render())
  {
    var m := e.Render();
    assert "unknown param '"[0] == 'u' && "unknown param '"[8] == 'p';
    assert "missing required param '"[0] == 'm' && "missing required param '"[8] == 'r';
    assert "invalid params: "[0] == 'i';
    match e
    case UnknownMethod(name) => assert m[0] == 'u' && m[8] == 'm';
    case NoClientId => assert m[0] == 'm' && m[8] == 'o';
    case TokensExhausted => assert m[0] == 'e';
  }

  lemma ParamTexts(e: ParamError)
    ensures IsParamValidationError(e.Render()) <==> !e.TypeMismatch?
  {
    if e.TypeMismatch? {
      var head := "invalid type for param '";
      var rest := e.name + "' in " + e.namespace + "." + e.func + ": expected " + e.expected + ", got " + e.got;
      assert e.Render() == head + rest;
      assert (head + rest)[0] == 'i' && (head + rest)[8] == 't';
      assert "unknown param '"[0] == 'u' && "missing required param '"[0] == 'm' && "invalid params: "[8] == 'p';
    }
  }

  /** Of those, exactly missing, unknown and wrongly shaped parameters are classed as
      parameter validation; type mismatches are not. */
  lemma ClassedAsValidationExactly(e: EarlyError)
    ensures IsParamValidationError(e.Render()) <==> e.BadParams? && !e.e.TypeMismatch?
  {
    if e.BadParams? {
      ParamTexts(e.e);
    } else {
      EarlyTextsDiffer(e);
    }
  }

  /** A registered method refused before its handler ran changes nothing, and its error is classed as
      parameter validation unless mistyped parameters are the only fault. */
  lemma RefusedCallsAreClassed<W>(core: Core<W>, w: W, requested: string, params: Value)
    requires Registered(core, requested) && InvokeMethodInner(core, w, requested, params).calls == []
    ensures var outcome := InvokeMethodInner(core, w, requested, params);
            var schema := HandlerFor(core.controllers, requested).value.schema;
            && outcome.world == w && outcome.result.Err?
            && (IsParamValidationError(outcome.result.error) <==>
                match params
                case Null => exists i :: 0 <= i < |schema.inputs| && schema.inputs[i].required
                case Object(obj) => || (exists i :: 0 <= i < |schema.inputs| && Missing(schema.inputs[i], obj))
                                    || obj.Keys - Names(schema.inputs) != {}
                case _ => true)
  {
    InvokeRuns(core, w, requested, params);
    var schema := HandlerFor(core.controllers, requested).value.schema;
    match ParamsToObject(params)
    case Err(e) => ParamTexts(e);
    case Ok(obj) =>
      ValidateParamsExact(schema, obj);
      ValidateParamsReports(schema, obj);
      ParamTexts(ValidateParams(schema, obj).error);
      assert forall i :: 0 <= i < |schema.inputs| && obj == map[] ==> (Missing(schema.inputs[i], obj) <==> schema.inputs[i].required);
  }
}

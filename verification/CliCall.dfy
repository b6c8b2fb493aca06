/** From a command line to a handler: parsing with the declared schema, naming the method and invoking it. */
module CliCall {
  import opened Prelude
  import opened Text
  import opened Json
  import opened Schema
  import opened Registry
  import opened Lookup
  import opened Routing
  import opened CliParams
  import opened CliDrift

  /** The declared schema at `i` and the controller registered at `j` under the same key of a validated registry. */
  ghost predicate Paired<W>(core: Core<W>, declared: seq<ControllerSchema>, i: nat, j: nat) {
    && WellFormed(Schemas(core.controllers.public), declared)
    && i < |declared| && j < |core.controllers.public|
    && Key(core.controllers.public[j].schema) == Key(declared[i])
  }

  /** `<namespace> <function> --name value ...`: the method is found exactly when both schemas split the key alike. Then the
      call is that of the registered controller, whatever its name may be an alias of; its handler runs, once and on
      exactly the parsed parameters, exactly when they satisfy the registered schema, and otherwise nothing happens. */
  lemma CallReachesItsHandler<W>(core: Core<W>, declared: seq<ControllerSchema>, i: nat, j: nat,
                                 readers: Readers, args: seq<string>, w: W)
    requires Paired(core, declared, i, j) && Parsed(readers, declared[i], args).Ok?
    ensures var c := core.controllers.public[j];
            var params := Parsed(readers, declared[i], args).value;
            var name := RpcMethodFromParts(core.controllers, declared[i].namespace, declared[i].func);
            && (name.Some? <==> c.schema.namespace == declared[i].namespace)
            && (name.Some? ==>
                  var outcome := InvokeMethodInner(core, w, name.value, Object(params));
                  && outcome == RunOn(c, w, Object(params))
                  && (outcome.calls == [Call(c.schema, params)] <==> Satisfies(c.schema, params))
                  && (!Satisfies(c.schema, params) ==> outcome.calls == [] && outcome.world == w && outcome.result.Err?))
  {
    var c := core.controllers.public[j];
    var params := Parsed(readers, declared[i], args).value;
    DeclaredPartsAreFoundExactlyWhen(core.controllers, declared, i, j);
    if c.schema.namespace == declared[i].namespace {
      SameKeySameNamespace(c.schema, declared[i]);
      PartsAndNameAgree(core.controllers, declared, j);
      InvokeRuns(core, w, RpcMethodName(c.schema), Object(params));
      ValidateParamsExact(c.schema, params);
    }
  }

  /** A call that parses reaches its handler. */
  ghost predicate Reaches<W>(core: Core<W>, declared: seq<ControllerSchema>, i: nat, j: nat,
                             readers: Readers, args: seq<string>, w: W)
    requires Paired(core, declared, i, j)
  {
    Parsed(readers, declared[i], args).Ok? ==>
      var params := Parsed(readers, declared[i], args).value;
      var name := RpcMethodFromParts(core.controllers, declared[i].namespace, declared[i].func);
      && name.Some?
      && InvokeMethodInner(core, w, name.value, Object(params)).calls == [Call(core.controllers.public[j].schema, params)]
  }

  /** Every command line that parses reaches its handler exactly when the key is split alike and what is registered
      covers what is declared, or when no command line parses at all. */
  lemma EveryCallReachesExactlyWhen<W(!new)>(core: Core<W>, declared: seq<ControllerSchema>, i: nat, j: nat, w: W)
    requires Paired(core, declared, i, j)
    ensures (forall readers: Readers, args :: Reaches(core, declared, i, j, readers, args, w))
            <==> (Callable(declared[i]) ==> && core.controllers.public[j].schema.namespace == declared[i].namespace
                                            && Covers(declared[i], core.controllers.public[j].schema))
  {
    var registered := core.controllers.public[j].schema;
    forall readers: Readers, args
      ensures Reaches(core, declared, i, j, readers, args, w) <==>
              (Parsed(readers, declared[i], args).Ok? ==>
                 registered.namespace == declared[i].namespace && Satisfies(registered, Parsed(readers, declared[i], args).value))
    {
      if Parsed(readers, declared[i], args).Ok? {
        CallReachesItsHandler(core, declared, i, j, readers, args, w);
      }
    }
    CallsSatisfyExactlyWhen(declared[i], registered);
    SomeCallParsesExactlyWhen(declared[i]);
  }

  lemma DriftIsWellFormed(registered: ControllerSchema, declared: ControllerSchema)
    requires registered == ControllerSchema("n", "f", [])
    requires declared == ControllerSchema("n", "f", [FieldSchema("x", StringType, "", false)])
    ensures WellFormed([registered], [declared])
  {
    assert "n"[0] == 'n' && "f"[0] == 'f';
    assert !Blank("n") && !Blank("f");
    forall key
      ensures HasKey([declared], key) <==> HasKey([registered], key)
    {
      assert HasKey([declared], key) <==> Key([declared][0]) == key;
      assert HasKey([registered], key) <==> Key([registered][0]) == key;
    }
  }

  lemma DriftParses(readers: Readers, declared: ControllerSchema)
    requires declared.inputs == [FieldSchema("x", StringType, "", false)]
    ensures Parsed(readers, declared, ["--x", "v"]) == Ok(map["x" := Str("v")])
  {
    var b := Binding("--x", "v", "x", Str("v"));
    assert "--"[0] == '-' && "--"[1] == '-' && "x"[0] == 'x' && "--x"[..2] == "--" && "--x"[2] == 'x';
    assert declared.inputs[0].name == "x" && GoodBinding(readers, declared, b);
    assert !ReadsAsKnownFlag(declared, "v") by {
      assert "v"[0] == 'v';
    }
    RoundTripExactlyWhen(readers, declared, [b]);
    assert [b][1..] == [] && Args([b]) == ["--x", "v"];
    ListingDenotesMap([b], map["x" := Str("v")]);
  }

  /** A drift that validation does not see, a declared input that is not registered: the command line parses,
      the method is found, and the call is refused. */
  lemma DriftIsRefused<W>(core: Core<W>, handler: (W, Params) -> (W, Result<Value, string>), readers: Readers, w: W)
    requires core.controllers.public == [Controller(ControllerSchema("n", "f", []), handler)]
    ensures var declared := [ControllerSchema("n", "f", [FieldSchema("x", StringType, "", false)])];
            && WellFormed(Schemas(core.controllers.public), declared)
            && Parsed(readers, declared[0], ["--x", "v"]) == Ok(map["x" := Str("v")])
            && var name := RpcMethodFromParts(core.controllers, "n", "f");
               name.Some? && InvokeMethodInner(core, w, name.value, Object(map["x" := Str("v")])).calls == []
  {
    var registered := core.controllers.public[0].schema;
    var declared := [ControllerSchema("n", "f", [FieldSchema("x", StringType, "", false)])];
    assert Schemas(core.controllers.public) == [registered];
    DriftIsWellFormed(registered, declared[0]);
    DriftParses(readers, declared[0]);
    CallReachesItsHandler(core, declared, 0, 0, readers, ["--x", "v"], w);
    assert "x" in map["x" := Str("v")] && "x" !in Names(registered.inputs);
  }
}

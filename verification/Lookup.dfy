/** Finding a controller: by method name over the public list and then the internal one,
    and by namespace and function over the public list. */
module Lookup {
  import opened Prelude
  import opened Text
  import opened Json
  import opened Schema
  import opened Registry

  /** The public list has passed `ValidateRegistry`; the internal list is never validated. */
  datatype Controllers<!W> = Controllers(public: seq<Controller<W>>, internal: seq<Controller<W>>)

  /** The first controller with this method name, if any. */
  function FirstNamed<W>(controllers: seq<Controller<W>>, name: string): Option<Controller<W>> {
    if controllers == [] then None
    else if RpcMethodName(controllers[0].schema) == name then Some(controllers[0])
    else FirstNamed(controllers[1..], name)
  }

  function SchemaForRpcMethod<W>(c: Controllers<W>, name: string): Option<ControllerSchema> {
    match FirstNamed(c.public + c.internal, name)
    case Some(found) => Some(found.schema)
    case None => None
  }

  /** One scan per list: the controller whose handler a call reaches. */
  function HandlerFor<W>(c: Controllers<W>, name: string): Option<Controller<W>> {
    match FirstNamed(c.public, name)
    case Some(found) => Some(found)
    case None => FirstNamed(c.internal, name)
  }

  function FirstWithParts<W>(controllers: seq<Controller<W>>, namespace: string, func: string): Option<Controller<W>> {
    if controllers == [] then None
    else if controllers[0].schema.namespace == namespace && controllers[0].schema.func == func then Some(controllers[0])
    else FirstWithParts(controllers[1..], namespace, func)
  }

  function RpcMethodFromParts<W>(c: Controllers<W>, namespace: string, func: string): Option<string> {
    match FirstWithParts(c.public, namespace, func)
    case Some(found) => Some(RpcMethodName(found.schema))
    case None => None
  }

  // ----- what the scans find

  ghost predicate FirstAt<W>(controllers: seq<Controller<W>>, i: nat, name: string) {
    && i < |controllers|
    && RpcMethodName(controllers[i].schema) == name
    && forall j :: 0 <= j < i ==> RpcMethodName(controllers[j].schema) != name
  }

  lemma {:induction false} FirstNamedExact<W>(controllers: seq<Controller<W>>, name: string)
    ensures FirstNamed(controllers, name).None? <==>
            forall i :: 0 <= i < |controllers| ==> RpcMethodName(controllers[i].schema) != name
    ensures forall i: nat :: FirstAt(controllers, i, name) ==> FirstNamed(controllers, name) == Some(controllers[i])
    ensures FirstNamed(controllers, name).Some? ==> exists i: nat :: FirstAt(controllers, i, name)
  {
    if controllers != [] {
      var rest := controllers[1..];
      FirstNamedExact(rest, name);
      assert forall i :: 0 < i < |controllers| ==> controllers[i] == rest[i - 1];
      if RpcMethodName(controllers[0].schema) == name {
        assert FirstAt(controllers, 0, name);
      } else {
        forall i: nat | FirstAt(controllers, i, name)
          ensures FirstAt(rest, i - 1, name)
        {
          assert i > 0;
          assert forall j :: 0 <= j < i - 1 ==> rest[j] == controllers[j + 1];
        }
        if FirstNamed(rest, name).Some? {
          var i: nat :| FirstAt(rest, i, name);
          assert FirstAt(controllers, i + 1, name);
        }
      }
    }
  }

  lemma {:induction false} FirstNamedOfConcat<W>(a: seq<Controller<W>>, b: seq<Controller<W>>, name: string)
    ensures FirstNamed(a + b, name) == if FirstNamed(a, name).Some? then FirstNamed(a, name) else FirstNamed(b, name)
  {
    if a == [] {
      assert a + b == b;
    } else {
      assert (a + b)[1..] == a[1..] + b;
      FirstNamedOfConcat(a[1..], b, name);
    }
  }

  /** The schema a call is checked against belongs to the controller whose handler runs,
      so a schema is never found without a handler. */
  lemma SchemaIsTheHandlers<W>(c: Controllers<W>, name: string)
    ensures SchemaForRpcMethod(c, name) == match HandlerFor(c, name) case Some(found) => Some(found.schema) case None => None
    ensures HandlerFor(c, name).Some? ==> RpcMethodName(HandlerFor(c, name).value.schema) == name
  {
    FirstNamedOfConcat(c.public, c.internal, name);
    FirstNamedExact(c.public, name);
    FirstNamedExact(c.internal, name);
  }

  /** The position a lookup by name stops at, in the public list followed by the internal one. */
  ghost predicate ReachedAt<W>(c: Controllers<W>, i: nat, name: string) {
    FirstAt(c.public + c.internal, i, name)
  }

  /** A lookup stops at exactly one position, or the name is in neither list. */
  lemma HandlerIsReached<W>(c: Controllers<W>, name: string)
    ensures HandlerFor(c, name).None? <==> forall i: nat :: !ReachedAt(c, i, name)
    ensures forall i: nat :: ReachedAt(c, i, name) ==> HandlerFor(c, name) == Some((c.public + c.internal)[i])
    ensures forall i: nat, j: nat :: ReachedAt(c, i, name) && ReachedAt(c, j, name) ==> i == j
  {
    FirstNamedOfConcat(c.public, c.internal, name);
    FirstNamedExact(c.public + c.internal, name);
    if HandlerFor(c, name).Some? {
      var i: nat :| FirstAt(c.public + c.internal, i, name);
      assert ReachedAt(c, i, name);
    }
  }

  /** An internal controller is the one a call to its name stops at exactly when no public one has that
      name, and none before it in the internal list does. */
  lemma InternalReachedExactlyWhen<W>(c: Controllers<W>, i: nat)
    requires i < |c.internal|
    ensures var name := RpcMethodName(c.internal[i].schema);
            ReachedAt(c, |c.public| + i, name) <==>
            (forall j :: 0 <= j < |c.public| ==> RpcMethodName(c.public[j].schema) != name) && FirstAt(c.internal, i, name)
  {
    var all, n := c.public + c.internal, |c.public|;
    assert forall j :: 0 <= j < n ==> all[j] == c.public[j];
    assert forall j :: 0 <= j < |c.internal| ==> all[n + j] == c.internal[j];
  }

  // ----- what validation buys

  /** The join of namespace and function is not injective. */
  lemma JoinIsAmbiguous()
    ensures RpcMethodName(ControllerSchema("team", "member_add", [])) == RpcMethodName(ControllerSchema("team_member", "add", []))
  {
    calc {
      "openhuman." + "team" + "_" + "member_add";
      "openhuman.team_member_add";
      "openhuman." + "team_member" + "_" + "add";
    }
  }

  /** A schema is what the public list registers for it: by key, exactly one on each side. */
  lemma DeclaredAndRegisteredPairUp(registered: seq<ControllerSchema>, declared: seq<ControllerSchema>)
    requires WellFormed(registered, declared)
    ensures |registered| == |declared|
    ensures forall i :: 0 <= i < |declared| ==>
              exists j :: 0 <= j < |registered| && Key(registered[j]) == Key(declared[i])
                          && forall k :: 0 <= k < |registered| && Key(registered[k]) == Key(declared[i]) ==> k == j
    ensures forall j :: 0 <= j < |registered| ==>
              exists i :: 0 <= i < |declared| && Key(declared[i]) == Key(registered[j])
                          && forall k :: 0 <= k < |declared| && Key(declared[k]) == Key(registered[j]) ==> k == i
  {
    CountKeys(registered);
    CountKeys(declared);
    assert KeySet(registered) == KeySet(declared);
    forall i | 0 <= i < |declared|
      ensures exists j :: 0 <= j < |registered| && Key(registered[j]) == Key(declared[i])
                          && forall k :: 0 <= k < |registered| && Key(registered[k]) == Key(declared[i]) ==> k == j
    {
      assert HasKey(registered, Key(declared[i]));
      var j :| 0 <= j < |registered| && Key(registered[j]) == Key(declared[i]);
    }
    forall j | 0 <= j < |registered|
      ensures exists i :: 0 <= i < |declared| && Key(declared[i]) == Key(registered[j])
                          && forall k :: 0 <= k < |declared| && Key(declared[k]) == Key(registered[j]) ==> k == i
    {
      assert HasKey(declared, Key(registered[j]));
      var i :| 0 <= i < |declared| && Key(declared[i]) == Key(registered[j]);
    }
  }

  lemma {:induction false} CountKeys(schemas: seq<ControllerSchema>)
    requires forall i, j :: 0 <= i < j < |schemas| ==> Key(schemas[i]) != Key(schemas[j])
    ensures |KeySet(schemas)| == |schemas|
  {
    if schemas != [] {
      var last := |schemas| - 1;
      var init := schemas[..last];
      CountKeys(init);
      assert schemas == init + [schemas[last]];
      forall key {
        KeyGrows(init, schemas[last], key);
      }
      assert KeySet(schemas) == KeySet(init) + {Key(schemas[last])};
      assert !HasKey(init, Key(schemas[last]));
    }
  }

  lemma {:induction false} FirstWithPartsExact<W>(controllers: seq<Controller<W>>, namespace: string, func: string)
    ensures FirstWithParts(controllers, namespace, func).None? <==>
            forall i :: 0 <= i < |controllers| ==>
              controllers[i].schema.namespace != namespace || controllers[i].schema.func != func
    ensures FirstWithParts(controllers, namespace, func).Some? ==>
              var found := FirstWithParts(controllers, namespace, func).value;
              found in controllers && found.schema.namespace == namespace && found.schema.func == func
  {
    if controllers != [] {
      FirstWithPartsExact(controllers[1..], namespace, func);
    }
  }

  /** On a validated registry, naming a controller by its parts and then looking the name up
      comes back to the very same controller. */
  lemma PartsAndNameAgree<W>(c: Controllers<W>, declared: seq<ControllerSchema>, i: nat)
    requires WellFormed(Schemas(c.public), declared) && i < |c.public|
    ensures var schema := c.public[i].schema;
            && RpcMethodFromParts(c, schema.namespace, schema.func) == Some(RpcMethodName(schema))
            && HandlerFor(c, RpcMethodName(schema)) == Some(c.public[i])
            && SchemaForRpcMethod(c, RpcMethodName(schema)) == Some(schema)
  {
    var schema := c.public[i].schema;
    FirstWithPartsExact(c.public, schema.namespace, schema.func);
    assert forall j :: 0 <= j < |c.public| ==> Schemas(c.public)[j] == c.public[j].schema;
    assert FirstAt(c.public, i, RpcMethodName(schema));
    FirstNamedExact(c.public, RpcMethodName(schema));
    SchemaIsTheHandlers(c, RpcMethodName(schema));
  }

  // ----- keys are a join too

  predicate DotFree(s: string) {
    '.' !in s
  }

  lemma DotFreeKeysSplit(a: ControllerSchema, b: ControllerSchema)
    requires DotFree(a.namespace) && DotFree(b.namespace) && Key(a) == Key(b)
    ensures a.namespace == b.namespace && a.func == b.func
  {
    var n, m := |a.namespace|, |b.namespace|;
    assert Key(a)[n] == '.' && Key(b)[m] == '.';
    assert n == m;
    assert Key(a)[..n] == a.namespace && Key(b)[..m] == b.namespace;
    assert Key(a)[n + 1..] == a.func && Key(b)[m + 1..] == b.func;
  }

  lemma SameKeySameNamespace(a: ControllerSchema, b: ControllerSchema)
    requires Key(a) == Key(b) && a.namespace == b.namespace
    ensures a.func == b.func
  {
    var n := |a.namespace|;
    assert Key(a)[n + 1..] == a.func && Key(b)[n + 1..] == b.func;
  }

  /** A declared controller of a validated registry is found by its parts exactly when the handler
      registered under its key splits that key into the same namespace. */
  lemma DeclaredPartsAreFoundExactlyWhen<W>(c: Controllers<W>, declared: seq<ControllerSchema>, i: nat, j: nat)
    requires WellFormed(Schemas(c.public), declared)
    requires i < |declared| && j < |c.public| && Key(c.public[j].schema) == Key(declared[i])
    ensures RpcMethodFromParts(c, declared[i].namespace, declared[i].func) ==
            if c.public[j].schema.namespace == declared[i].namespace then Some(RpcMethodName(declared[i])) else None
  {
    var registered := c.public[j].schema;
    if registered.namespace == declared[i].namespace {
      SameKeySameNamespace(registered, declared[i]);
      PartsAndNameAgree(c, declared, j);
    } else {
      FirstWithPartsExact(c.public, declared[i].namespace, declared[i].func);
      assert forall k :: 0 <= k < |c.public| && k != j ==> Key(Schemas(c.public)[k]) != Key(Schemas(c.public)[j]);
      assert forall k :: 0 <= k < |c.public| ==> Schemas(c.public)[k] == c.public[k].schema;
    }
  }

  /** With dot-free namespaces that is always so. */
  lemma DotFreePartsAreFound<W>(c: Controllers<W>, declared: seq<ControllerSchema>, i: nat)
    requires WellFormed(Schemas(c.public), declared) && i < |declared|
    requires DotFree(declared[i].namespace) && forall j :: 0 <= j < |c.public| ==> DotFree(c.public[j].schema.namespace)
    ensures RpcMethodFromParts(c, declared[i].namespace, declared[i].func) == Some(RpcMethodName(declared[i]))
  {
    assert HasKey(declared, Key(declared[i]));
    var j :| 0 <= j < |c.public| && Key(Schemas(c.public)[j]) == Key(declared[i]);
    DotFreeKeysSplit(c.public[j].schema, declared[i]);
    DeclaredPartsAreFoundExactlyWhen(c, declared, i, j);
  }

  /** Otherwise validation can pass and a declared controller still not be found. */
  lemma DottedNamespaceCanBeLost<W>(handler: (W, Params) -> (W, Result<Value, string>))
    ensures var c := Controllers([Controller(ControllerSchema("a", "b.c", []), handler)], []);
            var declared := [ControllerSchema("a.b", "c", [])];
            WellFormed(Schemas(c.public), declared) && RpcMethodFromParts(c, "a.b", "c") == None
  {
    var c := Controllers([Controller(ControllerSchema("a", "b.c", []), handler)], []);
    var registered := Schemas(c.public);
    var declared := [ControllerSchema("a.b", "c", [])];
    assert Key(registered[0]) == "a.b.c" == Key(declared[0]);
    assert forall key :: HasKey(registered, key) <==> key == "a.b.c";
    assert forall key :: HasKey(declared, key) <==> key == "a.b.c";
    assert "a"[0] == 'a' && "b.c"[0] == 'b' && "a.b"[0] == 'a' && "c"[0] == 'c';
    assert !Blank("a.b") && !Blank("c");
    assert WellFormed(registered, declared);
    assert |"a"| != |"a.b"|;
    FirstWithPartsExact(c.public, "a.b", "c");
  }
}

/** The controller registry: name joins, the start-up validator, and the lookups that rely on it. */
module Registry {
  import opened Prelude
  import opened Text
  import opened Json
  import opened Schema

  /** A schema with its handler. A handler may change the world it runs in. */
  datatype Controller<!W> = Controller(schema: ControllerSchema, handler: (W, Params) -> (W, Result<Value, string>))

  /** The dotted controller key. */
  function Key(schema: ControllerSchema): string {
    schema.namespace + "." + schema.func
  }

  function RpcMethodName(schema: ControllerSchema): string {
    "openhuman." + schema.namespace + "_" + schema.func
  }

  function Schemas<W>(controllers: seq<Controller<W>>): (r: seq<ControllerSchema>)
    ensures |r| == |controllers|
    ensures forall i :: 0 <= i < |r| ==> r[i] == controllers[i].schema
  {
    if controllers == [] then [] else [controllers[0].schema] + Schemas(controllers[1..])
  }

  // ----- what the validator looks for

  datatype Problem =
    | DuplicateDeclared(key: string)
    | DuplicateDeclaredRpc(rpc: string)
    | BlankNamespace(key: string)
    | BlankFunction(key: string)
    | DuplicateRequiredInput(name: string, key: string)
    | DuplicateRegistered(key: string)
    | DuplicateRegisteredRpc(rpc: string)
    | NoHandler(key: string)
    | NoSchema(key: string)
  {
    function Render(): string {
      match this
      case DuplicateDeclared(key) => "duplicate declared controller `" + key + "`"
      case DuplicateDeclaredRpc(rpc) => "duplicate declared rpc method `" + rpc + "`"
      case BlankNamespace(key) => "invalid declared controller `" + key + "`: namespace must not be empty"
      case BlankFunction(key) => "invalid declared controller `" + key + "`: function must not be empty"
      case DuplicateRequiredInput(name, key) => "duplicate required input `" + name + "` in `" + key + "`"
      case DuplicateRegistered(key) => "duplicate registered controller `" + key + "`"
      case DuplicateRegisteredRpc(rpc) => "duplicate registered rpc method `" + rpc + "`"
      case NoHandler(key) => "declared controller `" + key + "` has no registered handler"
      case NoSchema(key) => "registered controller `" + key + "` has no declared schema"
    }
  }

  predicate HasKey(schemas: seq<ControllerSchema>, key: string) {
    exists i :: 0 <= i < |schemas| && Key(schemas[i]) == key
  }

  predicate HasRpc(schemas: seq<ControllerSchema>, rpc: string) {
    exists i :: 0 <= i < |schemas| && RpcMethodName(schemas[i]) == rpc
  }

  predicate RepeatsKey(schemas: seq<ControllerSchema>, key: string) {
    exists i, j :: 0 <= i < j < |schemas| && Key(schemas[i]) == key && Key(schemas[j]) == key
  }

  predicate RepeatsRpc(schemas: seq<ControllerSchema>, rpc: string) {
    exists i, j :: 0 <= i < j < |schemas| && RpcMethodName(schemas[i]) == rpc && RpcMethodName(schemas[j]) == rpc
  }

  predicate RepeatsRequired(inputs: seq<FieldSchema>, name: string) {
    exists i, j :: 0 <= i < j < |inputs| && inputs[i].required && inputs[j].required
                   && inputs[i].name == name && inputs[j].name == name
  }

  /** The problems one declared schema has by itself. */
  predicate AtSchema(p: Problem, schema: ControllerSchema) {
    match p
    case BlankNamespace(key) => key == Key(schema) && Blank(schema.namespace)
    case BlankFunction(key) => key == Key(schema) && Blank(schema.func)
    case DuplicateRequiredInput(name, key) => key == Key(schema) && RepeatsRequired(schema.inputs, name)
    case _ => false
  }

  predicate AmongDeclared(p: Problem, declared: seq<ControllerSchema>) {
    match p
    case DuplicateDeclared(key) => RepeatsKey(declared, key)
    case DuplicateDeclaredRpc(rpc) => RepeatsRpc(declared, rpc)
    case _ => exists i :: 0 <= i < |declared| && AtSchema(p, declared[i])
  }

  predicate AmongRegistered(p: Problem, registered: seq<ControllerSchema>) {
    match p
    case DuplicateRegistered(key) => RepeatsKey(registered, key)
    case DuplicateRegisteredRpc(rpc) => RepeatsRpc(registered, rpc)
    case _ => false
  }

  predicate Between(p: Problem, registered: seq<ControllerSchema>, declared: seq<ControllerSchema>) {
    match p
    case NoHandler(key) => HasKey(declared, key) && !HasKey(registered, key)
    case NoSchema(key) => HasKey(registered, key) && !HasKey(declared, key)
    case _ => false
  }

  predicate Present(p: Problem, registered: seq<ControllerSchema>, declared: seq<ControllerSchema>) {
    AmongDeclared(p, declared) || AmongRegistered(p, registered) || Between(p, registered, declared)
  }

  /** A registry in which every controller has one schema, one handler and one route. */
  ghost predicate WellFormed(registered: seq<ControllerSchema>, declared: seq<ControllerSchema>) {
    && (forall i, j :: 0 <= i < j < |declared| ==> Key(declared[i]) != Key(declared[j]))
    && (forall i, j :: 0 <= i < j < |declared| ==> RpcMethodName(declared[i]) != RpcMethodName(declared[j]))
    && (forall i :: 0 <= i < |declared| ==> !Blank(declared[i].namespace) && !Blank(declared[i].func))
    && (forall i, name :: 0 <= i < |declared| ==> !RepeatsRequired(declared[i].inputs, name))
    && (forall i, j :: 0 <= i < j < |registered| ==> Key(registered[i]) != Key(registered[j]))
    && (forall i, j :: 0 <= i < j < |registered| ==> RpcMethodName(registered[i]) != RpcMethodName(registered[j]))
    && (forall key :: HasKey(declared, key) <==> HasKey(registered, key))
  }

  lemma WellFormedIffNoProblem(registered: seq<ControllerSchema>, declared: seq<ControllerSchema>)
    ensures WellFormed(registered, declared) <==> forall p :: !Present(p, registered, declared)
  {
    if forall p :: !Present(p, registered, declared) {
      forall i, j | 0 <= i < j < |declared|
        ensures Key(declared[i]) != Key(declared[j]) && RpcMethodName(declared[i]) != RpcMethodName(declared[j])
      {
        assert !Present(DuplicateDeclared(Key(declared[i])), registered, declared);
        assert !Present(DuplicateDeclaredRpc(RpcMethodName(declared[i])), registered, declared);
      }
      forall i, j | 0 <= i < j < |registered|
        ensures Key(registered[i]) != Key(registered[j]) && RpcMethodName(registered[i]) != RpcMethodName(registered[j])
      {
        assert !Present(DuplicateRegistered(Key(registered[i])), registered, declared);
        assert !Present(DuplicateRegisteredRpc(RpcMethodName(registered[i])), registered, declared);
      }
      forall i | 0 <= i < |declared|
        ensures !Blank(declared[i].namespace) && !Blank(declared[i].func)
      {
        assert !Present(BlankNamespace(Key(declared[i])), registered, declared);
        assert !Present(BlankFunction(Key(declared[i])), registered, declared);
      }
      forall i, name | 0 <= i < |declared|
        ensures !RepeatsRequired(declared[i].inputs, name)
      {
        assert !Present(DuplicateRequiredInput(name, Key(declared[i])), registered, declared);
      }
      forall key
        ensures HasKey(declared, key) <==> HasKey(registered, key)
      {
        assert !Present(NoHandler(key), registered, declared) && !Present(NoSchema(key), registered, declared);
      }
    }
  }

  // ----- the report

  function RepeatedNames(inputs: seq<FieldSchema>): set<string> {
    set name | name in Names(inputs) && RepeatsRequired(inputs, name)
  }

  function RepeatedInputs(names: seq<string>, key: string): (r: seq<Problem>)
    ensures forall p :: p in r <==> p.DuplicateRequiredInput? && p.key == key && p.name in names
  {
    if names == [] then [] else RepeatedInputs(names[..|names| - 1], key) + [DuplicateRequiredInput(names[|names| - 1], key)]
  }

  function BlankParts(schema: ControllerSchema): seq<Problem> {
    (if Blank(schema.namespace) then [BlankNamespace(Key(schema))] else [])
    + (if Blank(schema.func) then [BlankFunction(Key(schema))] else [])
  }

  /** What one declared schema has wrong by itself, in the order of the report. */
  function OwnProblems(schema: ControllerSchema): (r: seq<Problem>)
    ensures forall p :: p in r <==> AtSchema(p, schema)
  {
    BlankParts(schema) + RepeatedInputs(Sorted(RepeatedNames(schema.inputs)), Key(schema))
  }

  function SharedDeclared(schema: ControllerSchema, sameKey: bool, sameRpc: bool): seq<Problem> {
    (if sameKey then [DuplicateDeclared(Key(schema))] else [])
    + (if sameRpc then [DuplicateDeclaredRpc(RpcMethodName(schema))] else [])
  }

  function DeclaredReport(declared: seq<ControllerSchema>): seq<Problem> {
    if declared == [] then []
    else
      var before, last := declared[..|declared| - 1], declared[|declared| - 1];
      DeclaredReport(before)
      + (SharedDeclared(last, HasKey(before, Key(last)), HasRpc(before, RpcMethodName(last))) + OwnProblems(last))
  }

  function SharedRegistered(schema: ControllerSchema, sameKey: bool, sameRpc: bool): seq<Problem> {
    (if sameKey then [DuplicateRegistered(Key(schema))] else [])
    + (if sameRpc then [DuplicateRegisteredRpc(RpcMethodName(schema))] else [])
  }

  function RegisteredReport(registered: seq<ControllerSchema>): seq<Problem> {
    if registered == [] then []
    else
      var before, last := registered[..|registered| - 1], registered[|registered| - 1];
      RegisteredReport(before) + SharedRegistered(last, HasKey(before, Key(last)), HasRpc(before, RpcMethodName(last)))
  }

  function WithoutHandler(keys: seq<string>): (r: seq<Problem>)
    ensures forall p :: p in r <==> p.NoHandler? && p.key in keys
  {
    if keys == [] then [] else WithoutHandler(keys[..|keys| - 1]) + [NoHandler(keys[|keys| - 1])]
  }

  function WithoutSchema(keys: seq<string>): (r: seq<Problem>)
    ensures forall p :: p in r <==> p.NoSchema? && p.key in keys
  {
    if keys == [] then [] else WithoutSchema(keys[..|keys| - 1]) + [NoSchema(keys[|keys| - 1])]
  }

  function KeySet(schemas: seq<ControllerSchema>): (r: set<string>)
    ensures forall key :: key in r <==> HasKey(schemas, key)
  {
    set i | 0 <= i < |schemas| :: Key(schemas[i])
  }

  function AgreementReport(declaredKeys: set<string>, registeredKeys: set<string>): seq<Problem> {
    WithoutHandler(Sorted(declaredKeys - registeredKeys)) + WithoutSchema(Sorted(registeredKeys - declaredKeys))
  }

  /** Every problem, in the order in which the validator meets them. */
  function Report(registered: seq<ControllerSchema>, declared: seq<ControllerSchema>): seq<Problem> {
    DeclaredReport(declared) + RegisteredReport(registered) + AgreementReport(KeySet(declared), KeySet(registered))
  }

  function Message(problems: seq<Problem>): string {
    if problems == [] then ""
    else if |problems| == 1 then problems[0].Render()
    else problems[0].Render() + "; " + Message(problems[1..])
  }

  /** The order of the problems found at one controller. */
  function Rank(p: Problem): nat {
    match p
    case DuplicateDeclared(_) | DuplicateRegistered(_) | NoHandler(_) => 0
    case DuplicateDeclaredRpc(_) | DuplicateRegisteredRpc(_) | NoSchema(_) => 1
    case BlankNamespace(_) => 2
    case BlankFunction(_) => 3
    case DuplicateRequiredInput(_, _) => 4
  }

  /** By rank; inputs, and keys on one side only, in the order of names. */
  predicate Precedes(p: Problem, q: Problem) {
    || Rank(p) < Rank(q)
    || (p.DuplicateRequiredInput? && q.DuplicateRequiredInput? && Less(p.name, q.name))
    || (p.NoHandler? && q.NoHandler? && Less(p.key, q.key)) || (p.NoSchema? && q.NoSchema? && Less(p.key, q.key))
  }

  predicate InOrder(problems: seq<Problem>) {
    forall i, j :: 0 <= i < j < |problems| ==> Precedes(problems[i], problems[j])
  }

  lemma {:induction false} RepeatedInputsAt(names: seq<string>, key: string)
    ensures |RepeatedInputs(names, key)| == |names|
    ensures forall i :: 0 <= i < |names| ==> RepeatedInputs(names, key)[i] == DuplicateRequiredInput(names[i], key)
  {
    if names != [] {
      RepeatedInputsAt(names[..|names| - 1], key);
    }
  }

  lemma {:induction false} OneSidedAt(keys: seq<string>)
    ensures |WithoutHandler(keys)| == |keys| == |WithoutSchema(keys)|
    ensures forall i :: 0 <= i < |keys| ==> WithoutHandler(keys)[i] == NoHandler(keys[i]) && WithoutSchema(keys)[i] == NoSchema(keys[i])
  {
    if keys != [] {
      OneSidedAt(keys[..|keys| - 1]);
    }
  }

  lemma InOrderTogether(a: seq<Problem>, b: seq<Problem>)
    requires InOrder(a) && InOrder(b)
    requires forall i, j :: 0 <= i < |a| && 0 <= j < |b| ==> Rank(a[i]) < Rank(b[j])
    ensures InOrder(a + b)
  {
  }

  lemma RepeatedInputsInOrder(names: seq<string>, key: string)
    requires Increasing(names)
    ensures InOrder(RepeatedInputs(names, key))
  {
    RepeatedInputsAt(names, key);
    var r := RepeatedInputs(names, key);
    forall i, j | 0 <= i < j < |r|
      ensures Precedes(r[i], r[j])
    {
      assert Less(names[i], names[j]);
    }
  }

  lemma OneSidedInOrder(keys: seq<string>)
    requires Increasing(keys)
    ensures InOrder(WithoutHandler(keys)) && InOrder(WithoutSchema(keys))
  {
    OneSidedAt(keys);
    forall i, j | 0 <= i < j < |keys|
      ensures Precedes(NoHandler(keys[i]), NoHandler(keys[j])) && Precedes(NoSchema(keys[i]), NoSchema(keys[j]))
    {
      assert Less(keys[i], keys[j]);
    }
  }

  lemma BlankPartsInOrder(schema: ControllerSchema, sameKey: bool, sameRpc: bool)
    ensures InOrder(BlankParts(schema)) && forall p :: p in BlankParts(schema) ==> 2 <= Rank(p) <= 3
    ensures InOrder(SharedDeclared(schema, sameKey, sameRpc))
    ensures forall p :: p in SharedDeclared(schema, sameKey, sameRpc) ==> Rank(p) <= 1
    ensures InOrder(SharedRegistered(schema, sameKey, sameRpc))
  {
  }

  lemma RankByMember(a: seq<Problem>, b: seq<Problem>, r: nat)
    requires forall p :: p in a ==> Rank(p) < r
    requires forall p :: p in b ==> Rank(p) >= r
    ensures forall i, j :: 0 <= i < |a| && 0 <= j < |b| ==> Rank(a[i]) < Rank(b[j])
  {
    forall i, j | 0 <= i < |a| && 0 <= j < |b|
      ensures Rank(a[i]) < Rank(b[j])
    {
      assert a[i] in a && b[j] in b;
    }
  }

  /** Controller by controller the report is in order, */
  lemma AddedInOrder(schema: ControllerSchema, sameKey: bool, sameRpc: bool)
    ensures InOrder(SharedDeclared(schema, sameKey, sameRpc) + OwnProblems(schema))
    ensures InOrder(SharedRegistered(schema, sameKey, sameRpc))
  {
    var names := Sorted(RepeatedNames(schema.inputs));
    var shared, blanks, inputs := SharedDeclared(schema, sameKey, sameRpc), BlankParts(schema), RepeatedInputs(names, Key(schema));
    BlankPartsInOrder(schema, sameKey, sameRpc);
    SortedIncreases(RepeatedNames(schema.inputs));
    RepeatedInputsInOrder(names, Key(schema));
    RankByMember(blanks, inputs, 4);
    InOrderTogether(blanks, inputs);
    RankByMember(shared, blanks + inputs, 2);
    InOrderTogether(shared, blanks + inputs);
  }

  /** and so is its last part. */
  lemma AgreementInOrder(declaredKeys: set<string>, registeredKeys: set<string>)
    ensures InOrder(AgreementReport(declaredKeys, registeredKeys))
  {
    var missing, extra := Sorted(declaredKeys - registeredKeys), Sorted(registeredKeys - declaredKeys);
    SortedIncreases(declaredKeys - registeredKeys);
    SortedIncreases(registeredKeys - declaredKeys);
    OneSidedInOrder(missing);
    OneSidedInOrder(extra);
    RankByMember(WithoutHandler(missing), WithoutSchema(extra), 1);
    InOrderTogether(WithoutHandler(missing), WithoutSchema(extra));
  }

  /** The kind of a problem, read off its text. */
  function KindOf(text: string): nat {
    if |text| < 30 then 9
    else if text[0] == 'i' then (if text[|text| - 19] == 'e' then 2 else 3)
    else if text[0] == 'r' then 8
    else if text[1] == 'e' then 7
    else if text[10] == 'd' then (if text[19] == 'c' then 0 else 1)
    else if text[12] == 'q' then 4
    else if text[21] == 'c' then 5 else 6
  }

  lemma TextTellsKind(p: Problem)
    ensures KindOf(p.Render()) == match p
                                  case DuplicateDeclared(_) => 0
                                  case DuplicateDeclaredRpc(_) => 1
                                  case BlankNamespace(_) => 2
                                  case BlankFunction(_) => 3
                                  case DuplicateRequiredInput(_, _) => 4
                                  case DuplicateRegistered(_) => 5
                                  case DuplicateRegisteredRpc(_) => 6
                                  case NoHandler(_) => 7
                                  case NoSchema(_) => 8
  {
  }

  /** The text of a report is the texts of its parts, in order, with a separator between them. */
  lemma {:induction false} MessageSplits(a: seq<Problem>, b: seq<Problem>)
    requires a != [] && b != []
    ensures Message(a + b) == Message(a) + "; " + Message(b)
    decreases |a|
  {
    if |a| == 1 {
      assert (a + b)[1..] == b;
    } else {
      assert (a + b)[1..] == a[1..] + b;
      MessageSplits(a[1..], b);
      Regroup(a[0].Render(), "; ", Message(a[1..]), Message(b));
    }
  }

  lemma Regroup(head: string, sep: string, middle: string, tail: string)
    ensures head + sep + (middle + sep + tail) == head + sep + middle + sep + tail
  {
  }

  lemma MessageHead(p: Problem, rest: seq<Problem>)
    ensures Message([p] + rest) == p.Render() + MessageAfter(rest)
  {
    assert ([p] + rest)[1..] == rest;
    if rest == [] {
      assert p.Render() + "" == p.Render();
    } else {
      assert p.Render() + "; " + Message(rest) == p.Render() + ("; " + Message(rest));
    }
  }

  function MessageAfter(rest: seq<Problem>): string {
    if rest == [] then "" else "; " + Message(rest)
  }

  function MessageBefore(rest: seq<Problem>): string {
    if rest == [] then "" else Message(rest) + "; "
  }

  /** Each problem stands in the text, between those before it and those after it. */
  lemma MessageHolds(before: seq<Problem>, p: Problem, after: seq<Problem>)
    ensures Message(before + ([p] + after)) == MessageBefore(before) + (p.Render() + MessageAfter(after))
  {
    MessageHead(p, after);
    if before == [] {
      assert before + ([p] + after) == [p] + after;
      assert "" + (p.Render() + MessageAfter(after)) == p.Render() + MessageAfter(after);
    } else {
      MessageSplits(before, [p] + after);
    }
  }

  lemma {:induction false} DeclaredReportExact(declared: seq<ControllerSchema>)
    ensures forall p :: p in DeclaredReport(declared) <==> AmongDeclared(p, declared)
  {
    if declared != [] {
      var last := |declared| - 1;
      DeclaredReportExact(declared[..last]);
      assert declared[..last + 1] == declared;
      forall p
        ensures p in DeclaredReport(declared) <==> AmongDeclared(p, declared)
      {
        AmongDeclaredGrows(declared, last, p);
        assert p in DeclaredReport(declared) <==> p in DeclaredReport(declared[..last]) || AddedDeclared(p, declared, last);
      }
    }
  }

  lemma {:induction false} RegisteredReportExact(registered: seq<ControllerSchema>)
    ensures forall p :: p in RegisteredReport(registered) <==> AmongRegistered(p, registered)
  {
    if registered != [] {
      var last := |registered| - 1;
      RegisteredReportExact(registered[..last]);
      assert registered[..last + 1] == registered;
      forall p
        ensures p in RegisteredReport(registered) <==> AmongRegistered(p, registered)
      {
        AmongRegisteredGrows(registered, last, p);
      }
    }
  }

  /** The report holds every problem that is present, and no other. */
  lemma ReportExact(registered: seq<ControllerSchema>, declared: seq<ControllerSchema>)
    ensures forall p :: p in Report(registered, declared) <==> Present(p, registered, declared)
    ensures Report(registered, declared) == [] <==> WellFormed(registered, declared)
  {
    DeclaredReportExact(declared);
    RegisteredReportExact(registered);
    assert forall p :: p in AgreementReport(KeySet(declared), KeySet(registered)) <==> Between(p, registered, declared);
    assert forall p :: p in Report(registered, declared) <==> Present(p, registered, declared);
    WellFormedIffNoProblem(registered, declared);
    if Report(registered, declared) != [] {
      assert Report(registered, declared)[0] in Report(registered, declared);
    }
  }

  // ----- the validator

  predicate HasRequired(inputs: seq<FieldSchema>, name: string) {
    exists i :: 0 <= i < |inputs| && inputs[i].required && inputs[i].name == name
  }

  lemma RequiredGrows(before: seq<FieldSchema>, last: FieldSchema, name: string)
    ensures HasRequired(before + [last], name) <==> HasRequired(before, name) || (last.required && last.name == name)
    ensures RepeatsRequired(before + [last], name) <==>
            RepeatsRequired(before, name) || (last.required && last.name == name && HasRequired(before, name))
  {
    var after := before + [last];
    assert forall k :: 0 <= k < |before| ==> after[k] == before[k];
    assert after[|before|] == last;
    if HasRequired(before, name) {
      var k :| 0 <= k < |before| && before[k].required && before[k].name == name;
      assert after[k].name == name;
    }
    if RepeatsRequired(before, name) {
      var a, b :| 0 <= a < b < |before| && before[a].required && before[b].required
                  && before[a].name == name && before[b].name == name;
      assert after[a].name == name && after[b].name == name;
    }
  }

  method RequiredDuplicates(inputs: seq<FieldSchema>) returns (dupes: map<string, nat>)
    ensures forall name :: name in dupes <==> RepeatsRequired(inputs, name)
  {
    var seen: set<string> := {};
    dupes := map[];
    for i := 0 to |inputs|
      invariant forall name :: name in seen <==> HasRequired(inputs[..i], name)
      invariant forall name :: name in dupes <==> RepeatsRequired(inputs[..i], name)
    {
      var input := inputs[i];
      assert inputs[..i + 1] == inputs[..i] + [input];
      forall name {
        RequiredGrows(inputs[..i], input, name);
      }
      if input.required {
        if input.name in seen {
          dupes := dupes[input.name := if input.name in dupes then dupes[input.name] + 1 else 1];
        } else {
          seen := seen + {input.name};
        }
      }
    }
    assert inputs[..|inputs|] == inputs;
  }

  lemma KeyGrows(before: seq<ControllerSchema>, last: ControllerSchema, key: string)
    ensures HasKey(before + [last], key) <==> HasKey(before, key) || key == Key(last)
    ensures RepeatsKey(before + [last], key) <==> RepeatsKey(before, key) || (key == Key(last) && HasKey(before, key))
  {
    var after := before + [last];
    assert forall k :: 0 <= k < |before| ==> after[k] == before[k];
    assert after[|before|] == last;
    if HasKey(before, key) {
      var k :| 0 <= k < |before| && Key(before[k]) == key;
      assert Key(after[k]) == key;
    }
    if RepeatsKey(before, key) {
      var a, b :| 0 <= a < b < |before| && Key(before[a]) == key && Key(before[b]) == key;
      assert Key(after[a]) == key && Key(after[b]) == key;
    }
  }

  lemma RpcGrows(before: seq<ControllerSchema>, last: ControllerSchema, rpc: string)
    ensures HasRpc(before + [last], rpc) <==> HasRpc(before, rpc) || rpc == RpcMethodName(last)
    ensures RepeatsRpc(before + [last], rpc) <==> RepeatsRpc(before, rpc) || (rpc == RpcMethodName(last) && HasRpc(before, rpc))
  {
    var after := before + [last];
    assert forall k :: 0 <= k < |before| ==> after[k] == before[k];
    assert after[|before|] == last;
    if HasRpc(before, rpc) {
      var k :| 0 <= k < |before| && RpcMethodName(before[k]) == rpc;
      assert RpcMethodName(after[k]) == rpc;
    }
    if RepeatsRpc(before, rpc) {
      var a, b :| 0 <= a < b < |before| && RpcMethodName(before[a]) == rpc && RpcMethodName(before[b]) == rpc;
      assert RpcMethodName(after[a]) == rpc && RpcMethodName(after[b]) == rpc;
    }
  }

  /** The problems the schema at position `i` adds to those of the schemas before it. */
  predicate AddedDeclared(p: Problem, declared: seq<ControllerSchema>, i: nat)
    requires i < |declared|
  {
    || AtSchema(p, declared[i])
    || (p == DuplicateDeclared(Key(declared[i])) && HasKey(declared[..i], Key(declared[i])))
    || (p == DuplicateDeclaredRpc(RpcMethodName(declared[i])) && HasRpc(declared[..i], RpcMethodName(declared[i])))
  }

  lemma AmongDeclaredGrows(declared: seq<ControllerSchema>, i: nat, p: Problem)
    requires i < |declared|
    ensures AmongDeclared(p, declared[..i + 1]) <==> AmongDeclared(p, declared[..i]) || AddedDeclared(p, declared, i)
  {
    var before, after := declared[..i], declared[..i + 1];
    assert after == before + [declared[i]];
    assert after[i] == declared[i];
    if p.DuplicateDeclared? {
      KeyGrows(before, declared[i], p.key);
    } else if p.DuplicateDeclaredRpc? {
      RpcGrows(before, declared[i], p.rpc);
    } else {
      assert forall k :: 0 <= k < i ==> after[k] == before[k];
      assert forall k :: 0 <= k < i && AtSchema(p, before[k]) ==> AtSchema(p, after[k]);
    }
  }

  lemma AmongRegisteredGrows(registered: seq<ControllerSchema>, i: nat, p: Problem)
    requires i < |registered|
    ensures AmongRegistered(p, registered[..i + 1]) <==>
            || AmongRegistered(p, registered[..i])
            || (p == DuplicateRegistered(Key(registered[i])) && HasKey(registered[..i], Key(registered[i])))
            || (p == DuplicateRegisteredRpc(RpcMethodName(registered[i])) && HasRpc(registered[..i], RpcMethodName(registered[i])))
  {
    assert registered[..i + 1] == registered[..i] + [registered[i]];
    if p.DuplicateRegistered? {
      KeyGrows(registered[..i], registered[i], p.key);
    } else if p.DuplicateRegisteredRpc? {
      RpcGrows(registered[..i], registered[i], p.rpc);
    }
  }

  method CheckParts(schema: ControllerSchema) returns (problems: seq<Problem>)
    ensures problems == BlankParts(schema)
  {
    var key := Key(schema);
    problems := [];
    TrimEmptyIffBlank(schema.namespace);
    if Trim(schema.namespace) == "" {
      problems := problems + [BlankNamespace(key)];
    }
    TrimEmptyIffBlank(schema.func);
    if Trim(schema.func) == "" {
      problems := problems + [BlankFunction(key)];
    }
  }

  method CheckInputs(schema: ControllerSchema) returns (problems: seq<Problem>)
    ensures problems == RepeatedInputs(Sorted(RepeatedNames(schema.inputs)), Key(schema))
  {
    var dupes := RequiredDuplicates(schema.inputs);
    assert dupes.Keys == RepeatedNames(schema.inputs);
    var names := Sorted(dupes.Keys);
    problems := [];
    for i := 0 to |names|
      invariant problems == RepeatedInputs(names[..i], Key(schema))
    {
      problems := problems + [DuplicateRequiredInput(names[i], Key(schema))];
      assert names[..i + 1][..i] == names[..i];
    }
    assert names[..|names|] == names;
  }

  method CheckOne(schema: ControllerSchema, keys: set<string>, rpcs: set<string>) returns (problems: seq<Problem>)
    ensures problems == SharedDeclared(schema, Key(schema) in keys, RpcMethodName(schema) in rpcs) + OwnProblems(schema)
  {
    var shared: seq<Problem> := [];
    if Key(schema) in keys {
      shared := shared + [DuplicateDeclared(Key(schema))];
    }
    if RpcMethodName(schema) in rpcs {
      shared := shared + [DuplicateDeclaredRpc(RpcMethodName(schema))];
    }
    assert shared == SharedDeclared(schema, Key(schema) in keys, RpcMethodName(schema) in rpcs);
    var parts := CheckParts(schema);
    var inputs := CheckInputs(schema);
    problems := shared + (parts + inputs);
  }

  lemma DeclaredReportGrows(declared: seq<ControllerSchema>, i: nat)
    requires i < |declared|
    ensures var before, schema := declared[..i], declared[i];
            DeclaredReport(declared[..i + 1]) == DeclaredReport(before)
            + (SharedDeclared(schema, HasKey(before, Key(schema)), HasRpc(before, RpcMethodName(schema))) + OwnProblems(schema))
  {
    assert declared[..i + 1][..i] == declared[..i];
  }

  lemma SeenGrows(schemas: seq<ControllerSchema>, i: nat)
    requires i < |schemas|
    ensures forall key :: HasKey(schemas[..i + 1], key) <==> HasKey(schemas[..i], key) || key == Key(schemas[i])
    ensures forall rpc :: HasRpc(schemas[..i + 1], rpc) <==> HasRpc(schemas[..i], rpc) || rpc == RpcMethodName(schemas[i])
  {
    assert schemas[..i + 1] == schemas[..i] + [schemas[i]];
    forall key {
      KeyGrows(schemas[..i], schemas[i], key);
    }
    forall rpc {
      RpcGrows(schemas[..i], schemas[i], rpc);
    }
  }

  method CheckDeclared(declared: seq<ControllerSchema>) returns (problems: seq<Problem>, keys: set<string>)
    ensures problems == DeclaredReport(declared) && keys == KeySet(declared)
    ensures forall p :: p in problems <==> AmongDeclared(p, declared)
  {
    problems, keys := [], {};
    var rpcs: set<string> := {};
    for i := 0 to |declared|
      invariant forall key :: key in keys <==> HasKey(declared[..i], key)
      invariant forall rpc :: rpc in rpcs <==> HasRpc(declared[..i], rpc)
      invariant problems == DeclaredReport(declared[..i])
    {
      var added := CheckOne(declared[i], keys, rpcs);
      DeclaredReportGrows(declared, i);
      SeenGrows(declared, i);
      problems := problems + added;
      keys, rpcs := keys + {Key(declared[i])}, rpcs + {RpcMethodName(declared[i])};
    }
    assert declared[..|declared|] == declared;
    DeclaredReportExact(declared);
  }

  lemma RegisteredReportGrows(registered: seq<ControllerSchema>, i: nat)
    requires i < |registered|
    ensures var before, schema := registered[..i], registered[i];
            RegisteredReport(registered[..i + 1]) == RegisteredReport(before)
            + SharedRegistered(schema, HasKey(before, Key(schema)), HasRpc(before, RpcMethodName(schema)))
  {
    assert registered[..i + 1][..i] == registered[..i];
  }

  method CheckRegistered(registered: seq<ControllerSchema>) returns (problems: seq<Problem>, keys: set<string>)
    ensures problems == RegisteredReport(registered) && keys == KeySet(registered)
    ensures forall p :: p in problems <==> AmongRegistered(p, registered)
  {
    problems, keys := [], {};
    var rpcs: set<string> := {};
    for i := 0 to |registered|
      invariant forall key :: key in keys <==> HasKey(registered[..i], key)
      invariant forall rpc :: rpc in rpcs <==> HasRpc(registered[..i], rpc)
      invariant problems == RegisteredReport(registered[..i])
    {
      var key, rpc := Key(registered[i]), RpcMethodName(registered[i]);
      var added: seq<Problem> := [];
      if key in keys {
        added := added + [DuplicateRegistered(key)];
      }
      if rpc in rpcs {
        added := added + [DuplicateRegisteredRpc(rpc)];
      }
      assert added == SharedRegistered(registered[i], key in keys, rpc in rpcs);
      RegisteredReportGrows(registered, i);
      SeenGrows(registered, i);
      problems := problems + added;
      keys, rpcs := keys + {key}, rpcs + {rpc};
    }
    assert registered[..|registered|] == registered;
    RegisteredReportExact(registered);
  }

  method CheckAgreement(declaredKeys: set<string>, registeredKeys: set<string>) returns (problems: seq<Problem>)
    ensures problems == AgreementReport(declaredKeys, registeredKeys)
    ensures forall p :: p in problems <==>
                        || (p.NoHandler? && p.key in declaredKeys - registeredKeys)
                        || (p.NoSchema? && p.key in registeredKeys - declaredKeys)
  {
    var missing, extra := Sorted(declaredKeys - registeredKeys), Sorted(registeredKeys - declaredKeys);
    problems := [];
    for i := 0 to |missing|
      invariant problems == WithoutHandler(missing[..i])
    {
      problems := problems + [NoHandler(missing[i])];
      assert missing[..i + 1][..i] == missing[..i];
    }
    assert missing[..|missing|] == missing;
    var unclaimed: seq<Problem> := [];
    for i := 0 to |extra|
      invariant unclaimed == WithoutSchema(extra[..i])
    {
      unclaimed := unclaimed + [NoSchema(extra[i])];
      assert extra[..i + 1][..i] == extra[..i];
    }
    assert extra[..|extra|] == extra;
    problems := problems + unclaimed;
  }

  /** Ok exactly for well-formed registries; otherwise the report of every problem present, in order, joined to one text. */
  method ValidateRegistry<W>(controllers: seq<Controller<W>>, declared: seq<ControllerSchema>)
    returns (r: Result<(), string>)
    ensures r.Ok? <==> WellFormed(Schemas(controllers), declared)
    ensures r.Err? ==> r.error == Message(Report(Schemas(controllers), declared))
    ensures forall p :: p in Report(Schemas(controllers), declared) <==> Present(p, Schemas(controllers), declared)
  {
    var registered := Schemas(controllers);
    var amongDeclared, declaredKeys := CheckDeclared(declared);
    var amongRegistered, registeredKeys := CheckRegistered(registered);
    var between := CheckAgreement(declaredKeys, registeredKeys);
    var problems := amongDeclared + amongRegistered + between;
    ReportExact(registered, declared);
    if problems == [] {
      return Ok(());
    }
    return Err(Message(problems));
  }
}

/** Command-line parameters: `--name value` pairs read against a controller schema. */
module CliParams {
  import opened Prelude
  import opened Text
  import opened Json
  import opened Schema
  import Decimal

  datatype FloatText = NotANumber | NotFinite | Finite(r: real)

  /** The text readers of the standard library and of `serde_json`. */
  datatype Readers = Readers(float: string -> FloatText, json: string -> Result<Value, string>)

  datatype CliError =
    | InvalidArg(raw: string)
    | UnknownFlag(key: string)
    | MissingValue(key: string)
    | NotA(kind: string, raw: string)
    | BadJson(message: string)
    | Rejected(e: ParamError)

  function Integer(n: int): Value
    requires -0x8000_0000_0000_0000 <= n < 0x1_0000_0000_0000_0000
  {
    if n < 0 then Num(NegInt(n)) else Num(PosInt(n))
  }

  function ParseInputValue(readers: Readers, ty: TypeSchema, raw: string): Result<Value, CliError> {
    match ty
    case StringType => Ok(Str(raw))
    case BoolType =>
      if raw == "true" then Ok(Bool(true)) else if raw == "false" then Ok(Bool(false)) else Err(NotA("bool", raw))
    case I64Type =>
      (match Decimal.ParseI64(raw) case Some(n) => Ok(Integer(n)) case None => Err(NotA("i64", raw)))
    case U64Type =>
      (match Decimal.ParseU64(raw) case Some(n) => Ok(Integer(n)) case None => Err(NotA("u64", raw)))
    case F64Type =>
      (match readers.float(raw)
       case Finite(r) => Ok(Num(Float(r)))
       case _ => Err(NotA("f64", raw)))
    case OptionType(inner) => ParseInputValue(readers, inner, raw)
    case EnumType(_) => Ok(Str(raw))
    case _ => (match readers.json(raw) case Ok(v) => Ok(v) case Err(m) => Err(BadJson(m)))
  }

  // ----- flags

  /** `trim_start_matches("--")`. */
  function TrimDashes(s: string): string {
    if StartsWith(s, "--") then TrimDashes(s[2..]) else s
  }

  function KeyOf(raw: string): string {
    ReplaceChar(TrimDashes(raw), '-', "_")
  }

  function FindInput(inputs: seq<FieldSchema>, key: string): Option<FieldSchema> {
    if inputs == [] then None
    else if inputs[0].name == key then Some(inputs[0])
    else FindInput(inputs[1..], key)
  }

  predicate ReadsAsKnownFlag(schema: ControllerSchema, text: string) {
    StartsWith(text, "--") && FindInput(schema.inputs, KeyOf(text)).Some?
  }

  /** The flag and value at the head of the arguments. */
  function ReadPair(readers: Readers, schema: ControllerSchema, args: seq<string>): Result<(string, Value), CliError>
    requires args != []
  {
    if !StartsWith(args[0], "--") then Err(InvalidArg(args[0]))
    else
      var key := KeyOf(args[0]);
      match FindInput(schema.inputs, key)
      case None => Err(UnknownFlag(key))
      case Some(spec) =>
        if |args| == 1 || ReadsAsKnownFlag(schema, args[1]) then Err(MissingValue(key))
        else
          match ParseInputValue(readers, spec.ty, args[1])
          case Err(e) => Err(e)
          case Ok(v) => Ok((key, v))
  }

  function Collect(readers: Readers, schema: ControllerSchema, args: seq<string>, out: Params): Result<Params, CliError> {
    if args == [] then Ok(out)
    else
      match ReadPair(readers, schema, args)
      case Err(e) => Err(e)
      case Ok(pair) => if |args| == 1 then Ok(out[pair.0 := pair.1]) else Collect(readers, schema, args[2..], out[pair.0 := pair.1])
  }

  /** What the arguments denote: the collected pairs, if the schema is satisfied. */
  function Parsed(readers: Readers, schema: ControllerSchema, args: seq<string>): Result<Params, CliError> {
    match Collect(readers, schema, args, map[])
    case Err(e) => Err(e)
    case Ok(out) =>
      match ValidateParams(schema, out)
      case Err(e) => Err(Rejected(e))
      case Ok(_) => Ok(out)
  }

  method ParseFunctionParams(readers: Readers, schema: ControllerSchema, args: seq<string>) returns (r: Result<Params, CliError>)
    ensures r == Parsed(readers, schema, args)
  {
    var out: Params := map[];
    var i := 0;
    while i < |args|
      invariant 0 <= i <= |args|
      invariant Collect(readers, schema, args, map[]) == Collect(readers, schema, args[i..], out)
    {
      var raw := args[i];
      if !StartsWith(raw, "--") {
        return Err(InvalidArg(raw));
      }
      var key := KeyOf(raw);
      var spec := FindInput(schema.inputs, key);
      if spec.None? {
        return Err(UnknownFlag(key));
      }
      if i + 1 >= |args| {
        return Err(MissingValue(key));
      }
      var rawValue := args[i + 1];
      if StartsWith(rawValue, "--") {
        var nextKey := KeyOf(rawValue);
        if FindInput(schema.inputs, nextKey).Some? {
          return Err(MissingValue(key));
        }
      }
      var value := ParseInputValue(readers, spec.value.ty, rawValue);
      if value.Err? {
        return Err(value.error);
      }
      assert args[i..][2..] == args[i + 2..];
      out := out[key := value.value];
      i := i + 2;
    }
    assert args[i..] == [];
    var valid := ValidateParams(schema, out);
    if valid.Err? {
      return Err(Rejected(valid.error));
    }
    return Ok(out);
  }

  // ----- what a text denotes

  /** `text` is how a value of this type can be written. */
  ghost predicate Denotes(readers: Readers, text: string, value: Value, base: TypeSchema) {
    match base
    case StringType | EnumType(_) => value == Str(text)
    case BoolType => (text == "true" && value == Bool(true)) || (text == "false" && value == Bool(false))
    case I64Type => exists n :: Decimal.SignedText(text, n) && value == Num(if n < 0 then NegInt(n) else PosInt(n))
    case U64Type => exists n :: Decimal.UnsignedText(text, n) && value == Num(PosInt(n))
    case F64Type => exists r :: readers.float(text) == Finite(r) && value == Num(Float(r))
    case OptionType(_) => false
    case _ => readers.json(text) == Ok(value)
  }

  lemma {:induction false} ParseIgnoresOption(readers: Readers, ty: TypeSchema, raw: string)
    ensures ParseInputValue(readers, ty, raw) == ParseInputValue(readers, Base(ty), raw)
  {
    if ty.OptionType? {
      ParseIgnoresOption(readers, ty.inner, raw);
    }
  }

  /** A text is read as a value exactly when it denotes it, for every type. */
  lemma ReadsExactly(readers: Readers, ty: TypeSchema, text: string, value: Value)
    ensures ParseInputValue(readers, ty, text) == Ok(value) <==> Denotes(readers, text, value, Base(ty))
  {
    ParseIgnoresOption(readers, ty, text);
    CheckTypeIgnoresOption(Null, ty);
    if Base(ty).I64Type? {
      forall n {
        Decimal.I64Exactly(text, n);
      }
    } else if Base(ty).U64Type? {
      forall n {
        Decimal.U64Exactly(text, n);
      }
    }
  }

  /** A text that denotes nothing is refused with its kind and itself, or with the message of the JSON reader. */
  lemma RefusalNamesTheText(readers: Readers, ty: TypeSchema, text: string)
    requires ParseInputValue(readers, ty, text).Err?
    ensures var e := ParseInputValue(readers, ty, text).error;
            match Base(ty)
            case BoolType => e == NotA("bool", text)
            case I64Type => e == NotA("i64", text)
            case U64Type => e == NotA("u64", text)
            case F64Type => e == NotA("f64", text)
            case _ => e.BadJson? && readers.json(text) == Err(e.message)
  {
    ParseIgnoresOption(readers, ty, text);
    CheckTypeIgnoresOption(Null, ty);
  }

  // ----- parsed values against declared types

  lemma ParsedValuePasses(readers: Readers, ty: TypeSchema, raw: string)
    requires ParseInputValue(readers, ty, raw).Ok?
    requires !Base(ty).ArrayType? && !Base(ty).EnumType?
    ensures CheckType(ParseInputValue(readers, ty, raw).value, ty).Ok?
  {
    ParseIgnoresOption(readers, ty, raw);
    CheckTypeIgnoresOption(ParseInputValue(readers, ty, raw).value, ty);
  }

  lemma ParsedValueMayFail(ty: TypeSchema) returns (readers: Readers, raw: string)
    requires Base(ty).ArrayType? || Base(ty).EnumType?
    ensures ParseInputValue(readers, ty, raw).Ok? && CheckType(ParseInputValue(readers, ty, raw).value, ty).Err?
  {
    readers := Readers(_ => NotANumber, _ => Ok(Bool(true)));
    raw := if Base(ty).EnumType? then LongerThanAll(Base(ty).variants) else "";
    ParseIgnoresOption(readers, ty, raw);
    CheckTypeIgnoresOption(ParseInputValue(readers, ty, raw).value, ty);
  }

  /** Whatever the readers do, a value read for a type passes that type's check; this holds
      exactly for the types that are not an array or an enum below their options. */
  lemma ParsedValuePassesExactlyWhen(ty: TypeSchema)
    ensures (forall readers: Readers, raw :: ParseInputValue(readers, ty, raw).Ok? ==>
                                               CheckType(ParseInputValue(readers, ty, raw).value, ty).Ok?)
            <==> !Base(ty).ArrayType? && !Base(ty).EnumType?
  {
    if Base(ty).ArrayType? || Base(ty).EnumType? {
      var readers, raw := ParsedValueMayFail(ty);
    } else {
      forall readers: Readers, raw | ParseInputValue(readers, ty, raw).Ok? {
        ParsedValuePasses(readers, ty, raw);
      }
    }
  }

  // ----- the round trip

  /** `flag` spells `name` behind one or more double dashes, with underscores written as hyphens or not,
      only not as two hyphens at the start. */
  predicate Spells(flag: string, name: string) {
    var dashes := |flag| - |name|;
    && dashes >= 2 && dashes % 2 == 0
    && (forall i :: 0 <= i < dashes ==> flag[i] == '-')
    && !StartsWith(flag[dashes..], "--")
    && forall i :: 0 <= i < |name| ==> flag[dashes + i] == name[i] || (flag[dashes + i] == '-' && name[i] == '_')
  }

  lemma {:induction false} HyphensBecomeUnderscores(f: string, name: string)
    requires |f| == |name| && '-' !in name
    requires forall i :: 0 <= i < |name| ==> f[i] == name[i] || (f[i] == '-' && name[i] == '_')
    ensures ReplaceChar(f, '-', "_") == name
  {
    if f != [] {
      assert name[0] != '-';
      assert forall i :: 0 <= i < |name[1..]| ==> name[1..][i] == name[i + 1];
      HyphensBecomeUnderscores(f[1..], name[1..]);
      assert name == [name[0]] + name[1..];
    }
  }

  lemma {:induction false} DashesAreTrimmed(flag: string, name: string)
    requires Spells(flag, name) && '-' !in name
    ensures StartsWith(flag, "--") && TrimDashes(flag) == flag[|flag| - |name|..]
    decreases |flag|
  {
    assert "--"[0] == '-' && "--"[1] == '-' && flag[0] == '-' && flag[1] == '-';
    var rest := flag[2..];
    if |rest| > |name| {
      assert forall i :: 0 <= i < |rest| ==> rest[i] == flag[i + 2];
      assert rest[|rest| - |name|..] == flag[|flag| - |name|..];
      DashesAreTrimmed(rest, name);
    }
  }

  lemma KeyOfSpelling(flag: string, name: string)
    requires Spells(flag, name) && '-' !in name
    ensures StartsWith(flag, "--") && KeyOf(flag) == name
  {
    DashesAreTrimmed(flag, name);
    HyphensBecomeUnderscores(flag[|flag| - |name|..], name);
  }

  /** One pair on the command line, and the parameter it stands for. */
  datatype Binding = Binding(flag: string, text: string, name: string, value: Value)

  /** The flag spells a known name, and the text denotes a value that this input accepts. */
  ghost predicate GoodBinding(readers: Readers, schema: ControllerSchema, b: Binding) {
    && '-' !in b.name && Spells(b.flag, b.name)
    && exists i :: 0 <= i < |schema.inputs| && schema.inputs[i].name == b.name
                   && Denotes(readers, b.text, b.value, Base(schema.inputs[i].ty)) && CheckType(b.value, schema.inputs[i].ty).Ok?
  }

  ghost predicate UniqueNames(schema: ControllerSchema) {
    forall i, j :: 0 <= i < j < |schema.inputs| ==> schema.inputs[i].name != schema.inputs[j].name
  }

  function Args(bindings: seq<Binding>): seq<string> {
    if bindings == [] then [] else [bindings[0].flag, bindings[0].text] + Args(bindings[1..])
  }

  /** The last binding of a name decides. */
  function LastWins(bindings: seq<Binding>): Params {
    map name | name in (set b | b in bindings :: b.name) :: ValueOf(bindings, name)
  }

  function ValueOf(bindings: seq<Binding>, name: string): Value {
    if bindings == [] then Null
    else if bindings[|bindings| - 1].name == name then bindings[|bindings| - 1].value
    else ValueOf(bindings[..|bindings| - 1], name)
  }

  /** The first input of a name is the one found. */
  lemma {:induction false} FindInputFinds(inputs: seq<FieldSchema>, i: nat)
    requires i < |inputs|
    requires forall j :: 0 <= j < i ==> inputs[j].name != inputs[i].name
    ensures FindInput(inputs, inputs[i].name) == Some(inputs[i])
  {
    if i > 0 {
      FindInputFinds(inputs[1..], i - 1);
    }
  }

  lemma {:induction false} FindInputIsNamed(inputs: seq<FieldSchema>, name: string)
    ensures FindInput(inputs, name).Some? <==> name in Names(inputs)
  {
    if inputs != [] {
      FindInputIsNamed(inputs[1..], name);
      assert Names(inputs) == {inputs[0].name} + Names(inputs[1..]) by {
        assert inputs == [inputs[0]] + inputs[1..];
        assert forall i :: 0 < i < |inputs| ==> inputs[i] == inputs[1..][i - 1];
      }
    }
  }

  /** The flag names a known parameter, and the text, taken as its value, is read as the value of the binding. */
  predicate Reads(readers: Readers, schema: ControllerSchema, b: Binding) {
    && StartsWith(b.flag, "--") && KeyOf(b.flag) == b.name
    && FindInput(schema.inputs, b.name).Some?
    && ParseInputValue(readers, FindInput(schema.inputs, b.name).value.ty, b.text) == Ok(b.value)
  }

  lemma GoodBindingReads(readers: Readers, schema: ControllerSchema, b: Binding)
    requires UniqueNames(schema) && GoodBinding(readers, schema, b)
    ensures Reads(readers, schema, b)
  {
    var i :| 0 <= i < |schema.inputs| && schema.inputs[i].name == b.name
             && Denotes(readers, b.text, b.value, Base(schema.inputs[i].ty));
    KeyOfSpelling(b.flag, b.name);
    FindInputFinds(schema.inputs, i);
    ReadsExactly(readers, schema.inputs[i].ty, b.text, b.value);
  }

  lemma PairReadsBack(readers: Readers, schema: ControllerSchema, b: Binding, rest: seq<string>)
    requires UniqueNames(schema) && GoodBinding(readers, schema, b)
    ensures ReadPair(readers, schema, [b.flag, b.text] + rest) ==
            if ReadsAsKnownFlag(schema, b.text) then Err(MissingValue(b.name)) else Ok((b.name, b.value))
  {
    GoodBindingReads(readers, schema, b);
  }

  lemma CollectPair(readers: Readers, schema: ControllerSchema, b: Binding, rest: seq<string>, out: Params)
    requires Reads(readers, schema, b)
    ensures Collect(readers, schema, [b.flag, b.text] + rest, out) ==
            if ReadsAsKnownFlag(schema, b.text) then Err(MissingValue(b.name))
            else Collect(readers, schema, rest, out[b.name := b.value])
  {
    assert ([b.flag, b.text] + rest)[2..] == rest;
  }

  lemma CollectStep(readers: Readers, schema: ControllerSchema, b: Binding, rest: seq<Binding>, out: Params)
    requires Reads(readers, schema, b)
    ensures Collect(readers, schema, Args([b] + rest), out) ==
            if ReadsAsKnownFlag(schema, b.text) then Err(MissingValue(b.name))
            else Collect(readers, schema, Args(rest), out[b.name := b.value])
  {
    assert ([b] + rest)[1..] == rest;
    CollectPair(readers, schema, b, Args(rest), out);
  }

  ghost predicate NoFlagValue(schema: ControllerSchema, bindings: seq<Binding>) {
    forall b :: b in bindings ==> !ReadsAsKnownFlag(schema, b.text)
  }

  lemma {:induction false} CollectsLastWins(readers: Readers, schema: ControllerSchema, done: seq<Binding>, todo: seq<Binding>)
    requires forall b :: b in todo ==> Reads(readers, schema, b)
    ensures NoFlagValue(schema, todo) ==> Collect(readers, schema, Args(todo), LastWins(done)) == Ok(LastWins(done + todo))
    ensures !NoFlagValue(schema, todo) ==> Collect(readers, schema, Args(todo), LastWins(done)).Err?
    decreases |todo|
  {
    if todo == [] {
      assert done + todo == done;
    } else {
      var b, rest := todo[0], todo[1..];
      assert todo == [b] + rest;
      CollectStep(readers, schema, b, rest, LastWins(done));
      InsertIsLast(done, b);
      CollectsLastWins(readers, schema, done + [b], rest);
      assert done + todo == (done + [b]) + rest;
      assert NoFlagValue(schema, todo) <==> !ReadsAsKnownFlag(schema, b.text) && NoFlagValue(schema, rest);
    }
  }

  lemma CollectsAll(readers: Readers, schema: ControllerSchema, bindings: seq<Binding>)
    requires forall b :: b in bindings ==> Reads(readers, schema, b)
    ensures NoFlagValue(schema, bindings) ==> Collect(readers, schema, Args(bindings), map[]) == Ok(LastWins(bindings))
    ensures !NoFlagValue(schema, bindings) ==> Collect(readers, schema, Args(bindings), map[]).Err?
  {
    assert LastWins([]) == map[];
    assert [] + bindings == bindings;
    CollectsLastWins(readers, schema, [], bindings);
  }

  lemma InsertIsLast(done: seq<Binding>, b: Binding)
    ensures LastWins(done)[b.name := b.value] == LastWins(done + [b])
  {
    var all := done + [b];
    assert all[..|all| - 1] == done;
    assert forall x :: x in all <==> x in done || x == b;
  }

  lemma {:induction false} ValueOfIsBound(bindings: seq<Binding>, name: string)
    requires exists b :: b in bindings && b.name == name
    ensures exists b :: b in bindings && b.name == name && b.value == ValueOf(bindings, name)
  {
    var last := bindings[|bindings| - 1];
    if last.name != name {
      ValueOfIsBound(bindings[..|bindings| - 1], name);
    }
  }

  lemma GoodBindingsSatisfy(readers: Readers, schema: ControllerSchema, bindings: seq<Binding>)
    requires UniqueNames(schema)
    requires forall b :: b in bindings ==> GoodBinding(readers, schema, b)
    requires forall i :: 0 <= i < |schema.inputs| && schema.inputs[i].required ==> schema.inputs[i].name in LastWins(bindings)
    ensures ValidateParams(schema, LastWins(bindings)).Ok?
  {
    var out := LastWins(bindings);
    ValidateParamsExact(schema, out);
    forall key | key in out
      ensures key in Names(schema.inputs)
    {
      var b :| b in bindings && b.name == key;
      assert GoodBinding(readers, schema, b);
    }
    forall i | 0 <= i < |schema.inputs|
      ensures !Mistyped(schema.inputs[i], out)
    {
      var name := schema.inputs[i].name;
      if name in out {
        ValueOfIsBound(bindings, name);
        var b :| b in bindings && b.name == name && b.value == ValueOf(bindings, name);
        var j :| 0 <= j < |schema.inputs| && schema.inputs[j].name == b.name && CheckType(b.value, schema.inputs[j].ty).Ok?;
        assert i == j;
        CheckTypeExact(out[name], schema.inputs[i].ty);
      }
    }
  }

  /** Writing parameters as flags, in any order, with hyphens or underscores and with repeats,
      and parsing them gives the last value of every name back: exactly when no value reads as a known flag. */
  lemma RoundTripExactlyWhen(readers: Readers, schema: ControllerSchema, bindings: seq<Binding>)
    requires UniqueNames(schema)
    requires forall b :: b in bindings ==> GoodBinding(readers, schema, b)
    requires forall i :: 0 <= i < |schema.inputs| && schema.inputs[i].required ==> schema.inputs[i].name in LastWins(bindings)
    ensures Parsed(readers, schema, Args(bindings)) == Ok(LastWins(bindings)) <==> NoFlagValue(schema, bindings)
  {
    forall b | b in bindings {
      GoodBindingReads(readers, schema, b);
    }
    CollectsAll(readers, schema, bindings);
    GoodBindingsSatisfy(readers, schema, bindings);
  }

  /** Any map is given back by any listing of it. */
  lemma ListingDenotesMap(bindings: seq<Binding>, m: Params)
    requires forall b :: b in bindings ==> b.name in m && m[b.name] == b.value
    requires forall name :: name in m ==> exists b :: b in bindings && b.name == name
    ensures LastWins(bindings) == m
  {
    forall name | name in m
      ensures name in LastWins(bindings) && LastWins(bindings)[name] == m[name]
    {
      ValueOfIsBound(bindings, name);
    }
  }

  // ----- everything on a parsed command line was read

  /** The text is dashes and the name of a known input. */
  predicate NamesInput(schema: ControllerSchema, text: string) {
    StartsWith(text, "--") && KeyOf(text) in Names(schema.inputs)
  }

  lemma NamesInputExactly(schema: ControllerSchema, text: string)
    ensures ReadsAsKnownFlag(schema, text) <==> NamesInput(schema, text)
  {
    FindInputIsNamed(schema.inputs, KeyOf(text));
  }

  ghost predicate AllRead(readers: Readers, schema: ControllerSchema, bindings: seq<Binding>) {
    forall b :: b in bindings ==> Reads(readers, schema, b) && !NamesInput(schema, b.text)
  }

  lemma NoFlagIsRead(readers: Readers, schema: ControllerSchema, bindings: seq<Binding>)
    requires AllRead(readers, schema, bindings)
    ensures NoFlagValue(schema, bindings)
  {
    forall b | b in bindings {
      NamesInputExactly(schema, b.text);
    }
  }

  lemma {:induction false} CollectSplits(readers: Readers, schema: ControllerSchema, done: seq<Binding>, todo: seq<Binding>,
                                         rest: seq<string>)
    requires AllRead(readers, schema, todo)
    ensures Collect(readers, schema, Args(todo) + rest, LastWins(done)) == Collect(readers, schema, rest, LastWins(done + todo))
    decreases |todo|
  {
    if todo == [] {
      assert done + todo == done && Args(todo) + rest == rest;
    } else {
      var b, tail := todo[0], todo[1..];
      assert Args(todo) + rest == [b.flag, b.text] + (Args(tail) + rest);
      NamesInputExactly(schema, b.text);
      CollectPair(readers, schema, b, Args(tail) + rest, LastWins(done));
      InsertIsLast(done, b);
      CollectSplits(readers, schema, done + [b], tail, rest);
      assert done + todo == (done + [b]) + tail;
    }
  }

  lemma {:induction false} CollectedWasRead(readers: Readers, schema: ControllerSchema, args: seq<string>, out: Params)
    returns (bindings: seq<Binding>)
    requires Collect(readers, schema, args, out).Ok?
    ensures AllRead(readers, schema, bindings) && args == Args(bindings)
    decreases |args|
  {
    if args == [] {
      bindings := [];
    } else {
      var pair := ReadPair(readers, schema, args).value;
      var b := Binding(args[0], args[1], pair.0, pair.1);
      NamesInputExactly(schema, args[1]);
      var rest := CollectedWasRead(readers, schema, args[2..], out[pair.0 := pair.1]);
      bindings := [b] + rest;
      assert bindings[1..] == rest && args == [args[0], args[1]] + args[2..];
    }
  }

  /** Arguments parse to parameters exactly when they are pairs of a known flag and a value that is read, the parameters are the
      last value of each name, and they satisfy the schema: no argument is skipped and none is made up. */
  lemma ParsedExactly(readers: Readers, schema: ControllerSchema, args: seq<string>, params: Params)
    ensures Parsed(readers, schema, args) == Ok(params) <==>
            && Satisfies(schema, params)
            && exists bindings :: AllRead(readers, schema, bindings) && args == Args(bindings) && params == LastWins(bindings)
  {
    ValidateParamsExact(schema, params);
    if Collect(readers, schema, args, map[]).Ok? {
      var bindings := CollectedWasRead(readers, schema, args, map[]);
      NoFlagIsRead(readers, schema, bindings);
      CollectsAll(readers, schema, bindings);
    }
    forall bindings | AllRead(readers, schema, bindings) && args == Args(bindings)
      ensures Collect(readers, schema, args, map[]) == Ok(LastWins(bindings))
    {
      NoFlagIsRead(readers, schema, bindings);
      CollectsAll(readers, schema, bindings);
    }
  }

  /** The first argument that is no part of such a pair decides the error. */
  lemma FirstFaultDecides(readers: Readers, schema: ControllerSchema, bindings: seq<Binding>, rest: seq<string>)
    requires AllRead(readers, schema, bindings) && rest != []
    ensures var r := Parsed(readers, schema, Args(bindings) + rest);
            var key := KeyOf(rest[0]);
            if !StartsWith(rest[0], "--") then r == Err(InvalidArg(rest[0]))
            else if key !in Names(schema.inputs) then r == Err(UnknownFlag(key))
            else if |rest| == 1 || NamesInput(schema, rest[1]) then r == Err(MissingValue(key))
            else forall spec, e ::
                   FindInput(schema.inputs, key) == Some(spec) && ParseInputValue(readers, spec.ty, rest[1]) == Err(e) ==> r == Err(e)
  {
    assert LastWins([]) == map[] && [] + bindings == bindings;
    CollectSplits(readers, schema, [], bindings, rest);
    FindInputIsNamed(schema.inputs, KeyOf(rest[0]));
    if |rest| > 1 {
      NamesInputExactly(schema, rest[1]);
    }
  }
}

/** A command line is read with the declared schema, and its parameters are checked again with the registered one.
    Validation of the registry compares the two by key only; here is when they cannot disagree. */
module CliDrift {
  import opened Prelude
  import opened Text
  import opened Json
  import opened Schema
  import opened Registry
  import opened CliParams
  import opened TypeInclusion
  import Decimal

  // ----- the values one pair can give

  /** The text `raw` after the flag of `name` is read as `v`. */
  predicate GivenBy(readers: Readers, declared: ControllerSchema, name: string, raw: string, v: Value) {
    && FindInput(declared.inputs, name).Some?
    && ParseInputValue(readers, FindInput(declared.inputs, name).value.ty, raw) == Ok(v)
    && !ReadsAsKnownFlag(declared, raw)
  }

  /** The value passes every input of that name. */
  predicate PassesAll(inputs: seq<FieldSchema>, name: string, v: Value) {
    forall i :: 0 <= i < |inputs| && inputs[i].name == name ==> CheckType(v, inputs[i].ty).Ok?
  }

  /** A command line can give this parameter this value: no flag reads as a name with a hyphen. */
  ghost predicate CliValue(declared: ControllerSchema, name: string, v: Value) {
    '-' !in name && PassesAll(declared.inputs, name, v)
    && exists readers: Readers, raw: string :: GivenBy(readers, declared, name, raw, v)
  }

  /** Every required input can be given some value. */
  ghost predicate Callable(declared: ControllerSchema) {
    forall i :: 0 <= i < |declared.inputs| && declared.inputs[i].required ==>
                  exists v :: CliValue(declared, declared.inputs[i].name, v)
  }

  /** What the registered schema requires the declared one requires too, and what it is given it accepts. */
  ghost predicate Covers(declared: ControllerSchema, registered: ControllerSchema) {
    && (forall j :: 0 <= j < |registered.inputs| && registered.inputs[j].required ==>
                      HasRequired(declared.inputs, registered.inputs[j].name))
    && (forall name, v :: CliValue(declared, name, v) ==>
                            name in Names(registered.inputs) && PassesAll(registered.inputs, name, v))
  }

  // ----- every parameter of a parsed command line was given

  ghost predicate AllGiven(readers: Readers, declared: ControllerSchema, params: Params) {
    forall name :: name in params ==> '-' !in name && exists raw :: GivenBy(readers, declared, name, raw, params[name])
  }

  lemma {:induction false} NoHyphenLeft(s: string)
    ensures '-' !in ReplaceChar(s, '-', "_")
  {
    if s != [] {
      NoHyphenLeft(s[1..]);
    }
  }

  lemma {:induction false} CollectGives(readers: Readers, declared: ControllerSchema, args: seq<string>, out: Params)
    requires Collect(readers, declared, args, out).Ok? && AllGiven(readers, declared, out)
    ensures AllGiven(readers, declared, Collect(readers, declared, args, out).value)
    decreases |args|
  {
    if args != [] {
      var pair := ReadPair(readers, declared, args).value;
      NoHyphenLeft(TrimDashes(args[0]));
      assert GivenBy(readers, declared, pair.0, args[1], pair.1);
      CollectGives(readers, declared, args[2..], out[pair.0 := pair.1]);
    }
  }

  lemma ParsedIsGiven(readers: Readers, declared: ControllerSchema, args: seq<string>)
    requires Parsed(readers, declared, args).Ok?
    ensures var params := Parsed(readers, declared, args).value;
            && (forall name :: name in params ==> CliValue(declared, name, params[name]))
            && (forall i :: 0 <= i < |declared.inputs| && declared.inputs[i].required ==> declared.inputs[i].name in params)
  {
    var params := Parsed(readers, declared, args).value;
    CollectGives(readers, declared, args, map[]);
    ValidateParamsExact(declared, params);
    forall name | name in params
      ensures CliValue(declared, name, params[name])
    {
      forall i | 0 <= i < |declared.inputs| && declared.inputs[i].name == name
        ensures CheckType(params[name], declared.inputs[i].ty).Ok?
      {
        assert !Mistyped(declared.inputs[i], params);
        CheckTypeExact(params[name], declared.inputs[i].ty);
      }
    }
    forall i | 0 <= i < |declared.inputs| && declared.inputs[i].required
      ensures declared.inputs[i].name in params
    {
      assert !Missing(declared.inputs[i], params);
    }
  }

  lemma ParsedIsCallable(readers: Readers, declared: ControllerSchema, args: seq<string>)
    requires Parsed(readers, declared, args).Ok?
    ensures Callable(declared)
  {
    ParsedIsGiven(readers, declared, args);
    var params := Parsed(readers, declared, args).value;
    forall i | 0 <= i < |declared.inputs| && declared.inputs[i].required
      ensures exists v :: CliValue(declared, declared.inputs[i].name, v)
    {
      assert CliValue(declared, declared.inputs[i].name, params[declared.inputs[i].name]);
    }
  }

  lemma CoveredCallSatisfies(readers: Readers, declared: ControllerSchema, registered: ControllerSchema, args: seq<string>)
    requires Parsed(readers, declared, args).Ok? && Covers(declared, registered)
    ensures Satisfies(registered, Parsed(readers, declared, args).value)
  {
    var params := Parsed(readers, declared, args).value;
    ParsedIsGiven(readers, declared, args);
    forall j | 0 <= j < |registered.inputs|
      ensures !Missing(registered.inputs[j], params) && !Mistyped(registered.inputs[j], params)
    {
      var name := registered.inputs[j].name;
      if registered.inputs[j].required {
        var i :| 0 <= i < |declared.inputs| && declared.inputs[i].required && declared.inputs[i].name == name;
      }
      if name in params {
        assert PassesAll(registered.inputs, name, params[name]);
        CheckTypeExact(params[name], registered.inputs[j].ty);
      }
    }
  }

  // ----- a command line for any values that can be given

  /** Reads the text `raw` as before, and any other as zero or null. */
  function Patched(readers: Readers, raw: string): Readers {
    Readers((t: string) => if t == raw then readers.float(t) else Finite(0.0),
            (t: string) => if t == raw then readers.json(t) else Ok(Null))
  }

  lemma {:induction false} PatchedAgrees(readers: Readers, ty: TypeSchema, raw: string)
    ensures ParseInputValue(Patched(readers, raw), ty, raw) == ParseInputValue(readers, ty, raw)
  {
    if ty.OptionType? {
      PatchedAgrees(readers, ty.inner, raw);
    }
  }

  lemma FloatsAlike(a: real, b: real, ty: TypeSchema)
    requires CheckType(Num(Float(a)), ty).Ok?
    ensures CheckType(Num(Float(b)), ty).Ok?
  {
    CheckTypeIgnoresOption(Num(Float(a)), ty);
    CheckTypeIgnoresOption(Num(Float(b)), ty);
  }

  lemma NoFlag(declared: ControllerSchema, raw: string)
    requires raw == [] || raw[0] != '-'
    ensures !ReadsAsKnownFlag(declared, raw)
  {
    assert "--"[0] == '-';
  }

  /** A parameter that can be given a value can be given one beside a fixed reading of `raw`. */
  lemma GivenBeside(readers: Readers, declared: ControllerSchema, name: string, raw: string) returns (text: string, v: Value)
    requires exists v0 :: CliValue(declared, name, v0)
    ensures GivenBy(Patched(readers, raw), declared, name, text, v) && PassesAll(declared.inputs, name, v)
  {
    var v0 :| CliValue(declared, name, v0);
    var readers0: Readers, raw0: string :| GivenBy(readers0, declared, name, raw0, v0);
    var ty := FindInput(declared.inputs, name).value.ty;
    ParseIgnoresOption(readers0, ty, raw0);
    CheckTypeIgnoresOption(Null, ty);
    text, v := "x" + raw, Null;
    NoFlag(declared, text);
    match Base(ty)
    case StringType | BoolType | I64Type | U64Type | EnumType(_) =>
      text, v := raw0, v0;
      ParseIgnoresOption(Patched(readers, raw), ty, text);
    case F64Type =>
      v := Num(Float(0.0));
      ParseIgnoresOption(Patched(readers, raw), ty, text);
      forall i | 0 <= i < |declared.inputs| && declared.inputs[i].name == name {
        FloatsAlike(v0.num.r, 0.0, declared.inputs[i].ty);
      }
    case _ =>
      ParseIgnoresOption(Patched(readers, raw), ty, text);
  }

  lemma PlainFlag(name: string)
    requires '-' !in name
    ensures StartsWith("--" + name, "--") && KeyOf("--" + name) == name
  {
    var flag := "--" + name;
    assert flag[2..] == name && "--"[0] == '-' && !StartsWith(name, "--");
    KeyOfSpelling(flag, name);
  }

  /** A pair that gives a parameter a value the declared schema accepts. */
  ghost predicate Gives(readers: Readers, declared: ControllerSchema, b: Binding) {
    Reads(readers, declared, b) && !ReadsAsKnownFlag(declared, b.text) && PassesAll(declared.inputs, b.name, b.value)
  }

  lemma PairGives(readers: Readers, declared: ControllerSchema, name: string, text: string, v: Value)
    requires '-' !in name && GivenBy(readers, declared, name, text, v) && PassesAll(declared.inputs, name, v)
    ensures Gives(readers, declared, Binding("--" + name, text, name, v))
  {
    PlainFlag(name);
  }

  /** Some pair gives each required input a value. */
  ghost predicate Supplied(readers: Readers, declared: ControllerSchema) {
    forall name :: HasRequired(declared.inputs, name) ==> exists b :: Gives(readers, declared, b) && b.name == name
  }

  lemma CallableIsSupplied(readers: Readers, declared: ControllerSchema, raw: string)
    requires Callable(declared)
    ensures Supplied(Patched(readers, raw), declared)
  {
    forall name | HasRequired(declared.inputs, name)
      ensures exists b :: Gives(Patched(readers, raw), declared, b) && b.name == name
    {
      var text, v := GivenBeside(readers, declared, name, raw);
      PairGives(Patched(readers, raw), declared, name, text, v);
    }
  }

  /** Pairs that give the required inputs among the first `n`, and no other, values the declared schema accepts. */
  ghost predicate GiveRequired(readers: Readers, declared: ControllerSchema, bindings: seq<Binding>, n: nat)
    requires n <= |declared.inputs|
  {
    && (forall b :: b in bindings ==> Gives(readers, declared, b))
    && (forall name :: name in LastWins(bindings) <==> HasRequired(declared.inputs[..n], name))
  }

  lemma {:induction false} RequiredPairs(readers: Readers, declared: ControllerSchema, n: nat) returns (bindings: seq<Binding>)
    requires Supplied(readers, declared) && n <= |declared.inputs|
    ensures GiveRequired(readers, declared, bindings, n)
  {
    if n == 0 {
      bindings := [];
    } else {
      bindings := RequiredPairs(readers, declared, n - 1);
      var input := declared.inputs[n - 1];
      if input.required {
        assert HasRequired(declared.inputs, input.name);
        var b :| Gives(readers, declared, b) && b.name == input.name;
        OneMore(readers, declared, bindings, b, n - 1);
        bindings := bindings + [b];
      } else {
        NoneMore(readers, declared, bindings, n - 1);
      }
    }
  }

  lemma OneMore(readers: Readers, declared: ControllerSchema, bindings: seq<Binding>, b: Binding, i: nat)
    requires i < |declared.inputs| && GiveRequired(readers, declared, bindings, i)
    requires declared.inputs[i].required && Gives(readers, declared, b) && b.name == declared.inputs[i].name
    ensures GiveRequired(readers, declared, bindings + [b], i + 1)
  {
    InsertIsLast(bindings, b);
    assert LastWins(bindings + [b]).Keys == LastWins(bindings).Keys + {b.name};
    var before, input := declared.inputs[..i], declared.inputs[i];
    assert declared.inputs[..i + 1] == before + [input];
    forall name
      ensures name in LastWins(bindings + [b]) <==> HasRequired(before + [input], name)
    {
      RequiredGrows(before, input, name);
    }
  }

  lemma NoneMore(readers: Readers, declared: ControllerSchema, bindings: seq<Binding>, i: nat)
    requires i < |declared.inputs| && GiveRequired(readers, declared, bindings, i) && !declared.inputs[i].required
    ensures GiveRequired(readers, declared, bindings, i + 1)
  {
    assert declared.inputs[..i + 1] == declared.inputs[..i] + [declared.inputs[i]];
    forall name {
      RequiredGrows(declared.inputs[..i], declared.inputs[i], name);
    }
  }

  /** Pairs that give every required input a value parse to what the last of each name gives. */
  lemma PairsParse(readers: Readers, declared: ControllerSchema, bindings: seq<Binding>)
    requires forall b :: b in bindings ==> Gives(readers, declared, b)
    requires forall name :: HasRequired(declared.inputs, name) ==> name in LastWins(bindings)
    ensures Parsed(readers, declared, Args(bindings)) == Ok(LastWins(bindings))
  {
    var params := LastWins(bindings);
    CollectsAll(readers, declared, bindings);
    ValidateParamsExact(declared, params);
    forall name | name in params
      ensures name in Names(declared.inputs) && PassesAll(declared.inputs, name, params[name])
    {
      FindInputIsNamed(declared.inputs, name);
      ValueOfIsBound(bindings, name);
    }
    forall i | 0 <= i < |declared.inputs|
      ensures !Missing(declared.inputs[i], params) && !Mistyped(declared.inputs[i], params)
    {
      assert declared.inputs[i].required ==> HasRequired(declared.inputs, declared.inputs[i].name);
      if declared.inputs[i].name in params {
        CheckTypeExact(params[declared.inputs[i].name], declared.inputs[i].ty);
      }
    }
  }

  /** A command line that gives the required parameters and no other. */
  lemma RequiredLine(declared: ControllerSchema) returns (readers: Readers, args: seq<string>)
    requires Callable(declared)
    ensures Parsed(readers, declared, args).Ok?
    ensures forall name :: name in Parsed(readers, declared, args).value <==> HasRequired(declared.inputs, name)
  {
    var readers0 := Readers(_ => NotANumber, _ => Ok(Null));
    readers := Patched(readers0, "");
    CallableIsSupplied(readers0, declared, "");
    var bindings := RequiredPairs(readers, declared, |declared.inputs|);
    args := Args(bindings);
    assert declared.inputs[..|declared.inputs|] == declared.inputs;
    PairsParse(readers, declared, bindings);
  }

  lemma SomeCallParsesExactlyWhen(declared: ControllerSchema)
    ensures (exists readers: Readers, args :: Parsed(readers, declared, args).Ok?) <==> Callable(declared)
  {
    if Callable(declared) {
      var readers, args := RequiredLine(declared);
    } else {
      forall readers: Readers, args | Parsed(readers, declared, args).Ok? {
        ParsedIsCallable(readers, declared, args);
      }
    }
  }

  /** A command line on which a parameter is given any value that it can be given. */
  lemma LineFor(declared: ControllerSchema, name: string, v: Value) returns (readers: Readers, args: seq<string>)
    requires Callable(declared) && CliValue(declared, name, v)
    ensures Parsed(readers, declared, args).Ok?
    ensures var params := Parsed(readers, declared, args).value; name in params && params[name] == v
  {
    var readers0: Readers, raw: string :| GivenBy(readers0, declared, name, raw, v);
    readers := Patched(readers0, raw);
    PatchedAgrees(readers0, FindInput(declared.inputs, name).value.ty, raw);
    CallableIsSupplied(readers0, declared, raw);
    var before := RequiredPairs(readers, declared, |declared.inputs|);
    var last := Binding("--" + name, raw, name, v);
    PairGives(readers, declared, name, raw, v);
    args := Args(before + [last]);
    assert declared.inputs[..|declared.inputs|] == declared.inputs;
    InsertIsLast(before, last);
    PairsParse(readers, declared, before + [last]);
  }

  lemma UncoveredValue(declared: ControllerSchema, registered: ControllerSchema, name: string, v: Value)
    returns (readers: Readers, args: seq<string>)
    requires Callable(declared) && CliValue(declared, name, v)
    requires name !in Names(registered.inputs) || !PassesAll(registered.inputs, name, v)
    ensures Parsed(readers, declared, args).Ok? && !Satisfies(registered, Parsed(readers, declared, args).value)
  {
    readers, args := LineFor(declared, name, v);
    if name in Names(registered.inputs) {
      var i :| 0 <= i < |registered.inputs| && registered.inputs[i].name == name && CheckType(v, registered.inputs[i].ty).Err?;
      CheckTypeExact(v, registered.inputs[i].ty);
      assert Mistyped(registered.inputs[i], Parsed(readers, declared, args).value);
    }
  }

  /** Every command line that parses satisfies the registered schema exactly when no command line parses,
      or the registered schema covers the declared one. */
  lemma CallsSatisfyExactlyWhen(declared: ControllerSchema, registered: ControllerSchema)
    ensures (forall readers: Readers, args ::
               Parsed(readers, declared, args).Ok? ==> Satisfies(registered, Parsed(readers, declared, args).value))
            <==> (Callable(declared) ==> Covers(declared, registered))
  {
    if !Callable(declared) {
      forall readers: Readers, args | Parsed(readers, declared, args).Ok? {
        ParsedIsCallable(readers, declared, args);
      }
    } else if Covers(declared, registered) {
      forall readers: Readers, args | Parsed(readers, declared, args).Ok? {
        CoveredCallSatisfies(readers, declared, registered, args);
      }
    } else if j: nat :| j < |registered.inputs| && registered.inputs[j].required
                        && !HasRequired(declared.inputs, registered.inputs[j].name) {
      var readers, args := RequiredLine(declared);
      assert Missing(registered.inputs[j], Parsed(readers, declared, args).value);
    } else {
      var name, v :| CliValue(declared, name, v) && (name !in Names(registered.inputs) || !PassesAll(registered.inputs, name, v));
      var readers, args := UncoveredValue(declared, registered, name, v);
    }
  }

  // ----- the same, decided from the two input lists

  /** The variants that can be written as a value. */
  function Unflagged(declared: ControllerSchema, variants: seq<string>): (r: seq<string>)
    ensures forall v :: v in r <==> v in variants && !ReadsAsKnownFlag(declared, v)
  {
    if variants == [] then []
    else (if ReadsAsKnownFlag(declared, variants[0]) then [] else [variants[0]]) + Unflagged(declared, variants[1..])
  }

  /** The type of the values a command line can give. */
  function CliType(declared: ControllerSchema, ty: TypeSchema): TypeSchema {
    match Base(ty)
    case EnumType(variants) => EnumType(Unflagged(declared, variants))
    case base => base
  }

  /** The input can be given some value. */
  predicate CanBeGiven(declared: ControllerSchema, input: FieldSchema) {
    '-' !in input.name && (Base(input.ty).EnumType? ==> Unflagged(declared, Base(input.ty).variants) != [])
  }

  predicate CallableByTypes(declared: ControllerSchema) {
    forall i :: 0 <= i < |declared.inputs| && declared.inputs[i].required ==> CanBeGiven(declared, declared.inputs[i])
  }

  predicate Accepts(declared: ControllerSchema, input: FieldSchema, registered: ControllerSchema) {
    && input.name in Names(registered.inputs)
    && forall j :: 0 <= j < |registered.inputs| && registered.inputs[j].name == input.name ==>
                     Included(CliType(declared, input.ty), registered.inputs[j].ty)
  }

  predicate CoversByTypes(declared: ControllerSchema, registered: ControllerSchema) {
    && (forall j :: 0 <= j < |registered.inputs| && registered.inputs[j].required ==>
                      HasRequired(declared.inputs, registered.inputs[j].name))
    && (forall i :: 0 <= i < |declared.inputs| && CanBeGiven(declared, declared.inputs[i]) ==>
                      Accepts(declared, declared.inputs[i], registered))
  }

  lemma CliTypeIsBase(declared: ControllerSchema, ty: TypeSchema, v: Value)
    ensures CheckType(v, CliType(declared, ty)).Ok? ==> CheckType(v, ty).Ok?
    ensures !Base(ty).EnumType? ==> (CheckType(v, CliType(declared, ty)) == CheckType(v, ty))
    ensures Base(CliType(declared, ty)) == CliType(declared, ty)
  {
    CheckTypeIgnoresOption(v, ty);
  }

  /** Whatever a command line gives has that type. */
  lemma GivenHasCliType(declared: ControllerSchema, i: nat, v: Value)
    requires UniqueNames(declared) && i < |declared.inputs| && CliValue(declared, declared.inputs[i].name, v)
    ensures CheckType(v, CliType(declared, declared.inputs[i].ty)).Ok? && CanBeGiven(declared, declared.inputs[i])
  {
    var input := declared.inputs[i];
    FindInputFinds(declared.inputs, i);
    var readers: Readers, raw: string :| GivenBy(readers, declared, input.name, raw, v);
    ParseIgnoresOption(readers, input.ty, raw);
    CheckTypeIgnoresOption(v, input.ty);
    CliTypeIsBase(declared, input.ty, v);
    if Base(input.ty).EnumType? {
      assert raw in Unflagged(declared, Base(input.ty).variants);
    }
  }

  /** A text that is read as `v`, which separates the type from another. */
  function TextOf(base: TypeSchema, v: Value): string {
    match v
    case Bool(_) => if base.BoolType? then "true" else "x"
    case Str(s) => if base.StringType? || base.EnumType? then s else "x"
    case Num(PosInt(n)) => if base.U64Type? then Decimal.Render(n) else "x"
    case Num(NegInt(m)) => if base.I64Type? then Decimal.Render(m) else "x"
    case _ => "x"
  }

  function Fixed(v: Value): Readers {
    Readers((_: string) => Finite(0.0), (_: string) => Ok(v))
  }

  lemma IntegerReads(readers: Readers, base: TypeSchema, v: Value)
    requires v.Num? && (if base.I64Type? then v.num.NegInt? else base.U64Type? && v.num.PosInt?)
    ensures ParseInputValue(readers, base, TextOf(base, v)) == Ok(v)
  {
    if base.I64Type? {
      Decimal.I64RoundTrip(v.num.m);
    } else {
      Decimal.U64RoundTrip(v.num.n);
    }
  }

  lemma OutsideReads(declared: ControllerSchema, ty: TypeSchema, other: TypeSchema)
    requires !Included(CliType(declared, ty), other)
    ensures var v := Outside(CliType(declared, ty), other);
            ParseInputValue(Fixed(v), ty, TextOf(Base(ty), v)) == Ok(v)
  {
    var v, base := Outside(CliType(declared, ty), other), Base(ty);
    CliTypeIsBase(declared, ty, v);
    CheckTypeIgnoresOption(v, ty);
    OutsideSeparates(CliType(declared, ty), other);
    ParseIgnoresOption(Fixed(v), ty, TextOf(base, v));
    if base.I64Type? || base.U64Type? {
      IntegerReads(Fixed(v), base, v);
    }
  }

  lemma OutsideIsNoFlag(declared: ControllerSchema, ty: TypeSchema, other: TypeSchema)
    requires !Included(CliType(declared, ty), other)
    ensures !ReadsAsKnownFlag(declared, TextOf(Base(ty), Outside(CliType(declared, ty), other)))
  {
    var raw := TextOf(Base(ty), Outside(CliType(declared, ty), other));
    assert "--"[0] == '-' && "--"[1] == '-';
    if Base(ty).EnumType? {
      OutsideSeparates(CliType(declared, ty), other);
    } else if raw != [] && raw[0] != '-' {
      NoFlag(declared, raw);
    }
  }

  lemma OutsideIsGiven(declared: ControllerSchema, i: nat, other: TypeSchema)
    requires UniqueNames(declared) && i < |declared.inputs| && '-' !in declared.inputs[i].name
    requires !Included(CliType(declared, declared.inputs[i].ty), other)
    ensures CliValue(declared, declared.inputs[i].name, Outside(CliType(declared, declared.inputs[i].ty), other))
  {
    var input := declared.inputs[i];
    var v := Outside(CliType(declared, input.ty), other);
    FindInputFinds(declared.inputs, i);
    OutsideSeparates(CliType(declared, input.ty), other);
    CliTypeIsBase(declared, input.ty, v);
    OutsideReads(declared, input.ty, other);
    OutsideIsNoFlag(declared, input.ty, other);
    assert GivenBy(Fixed(v), declared, input.name, TextOf(Base(input.ty), v), v);
  }

  lemma CanBeGivenExactly(declared: ControllerSchema, i: nat)
    requires UniqueNames(declared) && i < |declared.inputs|
    ensures CanBeGiven(declared, declared.inputs[i]) <==> exists v :: CliValue(declared, declared.inputs[i].name, v)
  {
    var input := declared.inputs[i];
    if CanBeGiven(declared, input) {
      CliTypeIsBase(declared, input.ty, Null);
      OutsideIsGiven(declared, i, if Base(input.ty).StringType? || Base(input.ty).EnumType? then BoolType else StringType);
    } else if v :| CliValue(declared, input.name, v) {
      GivenHasCliType(declared, i, v);
    }
  }

  lemma AcceptsExactly(declared: ControllerSchema, i: nat, registered: ControllerSchema)
    requires UniqueNames(declared) && i < |declared.inputs| && CanBeGiven(declared, declared.inputs[i])
    ensures Accepts(declared, declared.inputs[i], registered) <==>
            forall v :: CliValue(declared, declared.inputs[i].name, v) ==>
                          declared.inputs[i].name in Names(registered.inputs)
                          && PassesAll(registered.inputs, declared.inputs[i].name, v)
  {
    var input := declared.inputs[i];
    var cliTy := CliType(declared, input.ty);
    CanBeGivenExactly(declared, i);
    if Accepts(declared, input, registered) {
      forall v, j | CliValue(declared, input.name, v) && 0 <= j < |registered.inputs| && registered.inputs[j].name == input.name
        ensures CheckType(v, registered.inputs[j].ty).Ok?
      {
        GivenHasCliType(declared, i, v);
        IncludedPasses(v, cliTy, registered.inputs[j].ty);
      }
    } else if j: nat :| j < |registered.inputs| && registered.inputs[j].name == input.name
                        && !Included(cliTy, registered.inputs[j].ty) {
      OutsideSeparates(cliTy, registered.inputs[j].ty);
      OutsideIsGiven(declared, i, registered.inputs[j].ty);
      assert !PassesAll(registered.inputs, input.name, Outside(cliTy, registered.inputs[j].ty));
    }
  }

  lemma DecidedByTypes(declared: ControllerSchema, registered: ControllerSchema)
    requires UniqueNames(declared)
    ensures Callable(declared) <==> CallableByTypes(declared)
    ensures Covers(declared, registered) <==> CoversByTypes(declared, registered)
  {
    forall i | 0 <= i < |declared.inputs| {
      CanBeGivenExactly(declared, i);
    }
    if CoversByTypes(declared, registered) {
      forall name, v | CliValue(declared, name, v)
        ensures name in Names(registered.inputs) && PassesAll(registered.inputs, name, v)
      {
        FindInputIsNamed(declared.inputs, name);
        var i :| 0 <= i < |declared.inputs| && declared.inputs[i].name == name;
        AcceptsExactly(declared, i, registered);
      }
    }
    if Covers(declared, registered) {
      forall i | 0 <= i < |declared.inputs| && CanBeGiven(declared, declared.inputs[i])
        ensures Accepts(declared, declared.inputs[i], registered)
      {
        AcceptsExactly(declared, i, registered);
      }
    }
  }

  /** With distinct declared names, the two input lists decide it. */
  lemma CallsSatisfyByTypes(declared: ControllerSchema, registered: ControllerSchema)
    requires UniqueNames(declared)
    ensures (forall readers: Readers, args ::
               Parsed(readers, declared, args).Ok? ==> Satisfies(registered, Parsed(readers, declared, args).value))
            <==> (CallableByTypes(declared) ==> CoversByTypes(declared, registered))
  {
    CallsSatisfyExactlyWhen(declared, registered);
    DecidedByTypes(declared, registered);
  }
}

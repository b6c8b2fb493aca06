/** Controller schemas, and the validation of parameters against them before dispatch. */
module Schema {
  import opened Prelude
  import opened Text
  import opened Json

  datatype TypeSchema =
    | BoolType
    | I64Type
    | U64Type
    | F64Type
    | StringType
    | JsonType
    | BytesType
    | ArrayType(element: TypeSchema)
    | MapType(value: TypeSchema)
    | OptionType(inner: TypeSchema)
    | EnumType(variants: seq<string>)
    | ObjectType(members: seq<FieldSchema>)
    | RefType(target: string)

  datatype FieldSchema = FieldSchema(name: string, ty: TypeSchema, comment: string, required: bool)

  datatype ControllerSchema = ControllerSchema(namespace: string, func: string, inputs: seq<FieldSchema>)

  type Params = map<string, Value>

  // ----- the checker

  /** `check_type`: an error names what was expected. */
  function CheckType(value: Value, ty: TypeSchema): Result<(), string>
    decreases ty, 0
  {
    if value.Null? then Ok(())
    else
      match ty
      case JsonType | BytesType | RefType(_) | ObjectType(_) | MapType(_) => Ok(())
      case BoolType => if value.Bool? then Ok(()) else Err("bool")
      case StringType => if value.Str? then Ok(()) else Err("string")
      case I64Type => if value.IsI64() then Ok(()) else Err("integer")
      case U64Type => if value.IsU64() then Ok(()) else Err("unsigned integer")
      case F64Type => if value.Num? then Ok(()) else Err("number")
      case OptionType(inner) => CheckType(value, inner)
      case ArrayType(element) => if value.Array? then CheckItems(value.items, element) else Err("array")
      case EnumType(variants) =>
        if !value.Str? then Err("string")
        else if value.s in variants then Ok(())
        else Err("one of the allowed enum variants")
  }

  function CheckItems(items: seq<Value>, element: TypeSchema): Result<(), string>
    decreases element, 1 + |items|
  {
    if items == [] then Ok(())
    else
      match CheckType(items[0], element)
      case Err(e) => Err(e)
      case Ok(_) => CheckItems(items[1..], element)
  }

  // ----- what it means for a value to have a type

  /** The type below any number of `Option`s. */
  function Base(ty: TypeSchema): TypeSchema {
    if ty.OptionType? then Base(ty.inner) else ty
  }

  /** The value and the type met when descending into arrays along `path`. */
  function Reach(value: Value, ty: TypeSchema, path: seq<nat>): Option<(Value, TypeSchema)>
    decreases path
  {
    if path == [] then Some((value, Base(ty)))
    else if Base(ty).ArrayType? && value.Array? && path[0] < |value.items|
    then Reach(value.items[path[0]], Base(ty).element, path[1..])
    else None
  }

  /** Null fits everywhere; scalars, enum members and arrays are recognised; the rest is opaque. */
  predicate Fits(value: Value, base: TypeSchema) {
    value.Null? ||
    match base
    case BoolType => value.Bool?
    case StringType => value.Str?
    case I64Type => value.IsI64()
    case U64Type => value.IsU64()
    case F64Type => value.Num?
    case EnumType(variants) => value.Str? && value.s in variants
    case ArrayType(_) => value.Array?
    case _ => true
  }

  /** Everything reachable through arrays fits the type reached with it. */
  ghost predicate HasType(value: Value, ty: TypeSchema) {
    forall path :: Reach(value, ty, path).Some? ==> Fits(Reach(value, ty, path).value.0, Reach(value, ty, path).value.1)
  }

  lemma {:induction false} CheckTypeIgnoresOption(value: Value, ty: TypeSchema)
    ensures CheckType(value, ty) == CheckType(value, Base(ty))
    ensures !Base(ty).OptionType?
  {
    if ty.OptionType? {
      CheckTypeIgnoresOption(value, ty.inner);
    }
  }

  lemma HasTypeAtRoot(value: Value, ty: TypeSchema)
    requires HasType(value, ty)
    ensures Fits(value, Base(ty))
  {
    assert Reach(value, ty, []) == Some((value, Base(ty)));
  }

  lemma HasTypeAtItem(value: Value, ty: TypeSchema, i: nat)
    requires HasType(value, ty)
    requires Base(ty).ArrayType? && value.Array? && i < |value.items|
    ensures HasType(value.items[i], Base(ty).element)
  {
    forall path | Reach(value.items[i], Base(ty).element, path).Some?
      ensures var r := Reach(value.items[i], Base(ty).element, path).value; Fits(r.0, r.1)
    {
      assert ([i] + path)[1..] == path;
      assert Reach(value, ty, [i] + path) == Reach(value.items[i], Base(ty).element, path);
    }
  }

  lemma HasTypeFromParts(value: Value, ty: TypeSchema)
    requires Fits(value, Base(ty))
    requires Base(ty).ArrayType? && value.Array? ==>
               forall i :: 0 <= i < |value.items| ==> HasType(value.items[i], Base(ty).element)
    ensures HasType(value, ty)
  {
    forall path | Reach(value, ty, path).Some?
      ensures Fits(Reach(value, ty, path).value.0, Reach(value, ty, path).value.1)
    {
      if path != [] {
        assert HasType(value.items[path[0]], Base(ty).element);
        assert Reach(value, ty, path) == Reach(value.items[path[0]], Base(ty).element, path[1..]);
      }
    }
  }

  lemma {:induction false} BaseIsNoLarger(ty: TypeSchema)
    ensures Base(ty) == ty || Base(ty) < ty
  {
    if ty.OptionType? {
      BaseIsNoLarger(ty.inner);
    }
  }

  /** The checker accepts exactly the values that have the type. */
  lemma {:induction false} CheckTypeExact(value: Value, ty: TypeSchema)
    ensures CheckType(value, ty).Ok? <==> HasType(value, ty)
    decreases ty, 0
  {
    CheckTypeIgnoresOption(value, ty);
    BaseIsNoLarger(ty);
    var base := Base(ty);
    if base.ArrayType? && value.Array? {
      CheckItemsExact(value.items, base.element);
      if HasType(value, ty) {
        forall i | 0 <= i < |value.items| {
          HasTypeAtItem(value, ty, i);
        }
      } else if CheckType(value, ty).Ok? {
        HasTypeFromParts(value, ty);
      }
    } else {
      if HasType(value, ty) {
        HasTypeAtRoot(value, ty);
      } else if CheckType(value, ty).Ok? {
        HasTypeFromParts(value, ty);
      }
    }
  }

  lemma {:induction false} CheckItemsExact(items: seq<Value>, element: TypeSchema)
    ensures CheckItems(items, element).Ok? <==> forall i :: 0 <= i < |items| ==> HasType(items[i], element)
    decreases element, 1 + |items|
  {
    if items != [] {
      CheckTypeExact(items[0], element);
      CheckItemsExact(items[1..], element);
      assert forall i :: 0 < i < |items| ==> items[i] == items[1..][i - 1];
    }
  }

  /** What a refusal says was expected: for an array, what its first unfit item was expected to be. */
  lemma {:induction false} ExpectedExactly(value: Value, ty: TypeSchema)
    requires CheckType(value, ty).Err?
    ensures var e := CheckType(value, ty).error;
            match Base(ty)
            case BoolType => e == "bool"
            case StringType => e == "string"
            case I64Type => e == "integer"
            case U64Type => e == "unsigned integer"
            case F64Type => e == "number"
            case EnumType(_) => e == if value.Str? then "one of the allowed enum variants" else "string"
            case ArrayType(element) =>
              if !value.Array? then e == "array"
              else exists i :: 0 <= i < |value.items| && CheckType(value.items[i], element) == Err(e)
                               && forall j :: 0 <= j < i ==> CheckType(value.items[j], element).Ok?
            case _ => false
  {
    CheckTypeIgnoresOption(value, ty);
    if Base(ty).ArrayType? && value.Array? {
      FirstUnfitItem(value.items, Base(ty).element);
    }
  }

  lemma {:induction false} FirstUnfitItem(items: seq<Value>, element: TypeSchema)
    requires CheckItems(items, element).Err?
    ensures exists i :: 0 <= i < |items| && CheckType(items[i], element) == Err(CheckItems(items, element).error)
                        && forall j :: 0 <= j < i ==> CheckType(items[j], element).Ok?
  {
    if CheckType(items[0], element).Ok? {
      var rest := items[1..];
      FirstUnfitItem(rest, element);
      var i :| 0 <= i < |rest| && CheckType(rest[i], element) == Err(CheckItems(rest, element).error)
               && forall j :: 0 <= j < i ==> CheckType(rest[j], element).Ok?;
      assert forall j :: 0 < j < |items| ==> items[j] == rest[j - 1];
      assert items[i + 1] == rest[i];
    }
  }

  // ----- parameters

  datatype ParamError =
    | WrongShape(got: string)
    | MissingRequired(name: string, comment: string)
    | UnknownParam(key: string, namespace: string, func: string)
    | TypeMismatch(name: string, namespace: string, func: string, expected: string, got: string)
  {
    /** The message sent to the caller. */
    function Render(): string {
      match this
      case WrongShape(got) => "invalid params: " + ("expected object or null, got " + got)
      case MissingRequired(name, comment) => "missing required param '" + (name + "': " + comment)
      case UnknownParam(key, ns, fn) => "unknown param '" + (key + "' for " + ns + "." + fn)
      case TypeMismatch(name, ns, fn, expected, got) =>
        "invalid type for param '" + (name + "' in " + ns + "." + fn + ": expected " + expected + ", got " + got)
    }
  }

  function Names(inputs: seq<FieldSchema>): set<string> {
    set i | 0 <= i < |inputs| :: inputs[i].name
  }

  function FirstMissing(inputs: seq<FieldSchema>, params: Params): Option<FieldSchema> {
    if inputs == [] then None
    else if inputs[0].required && inputs[0].name !in params then Some(inputs[0])
    else FirstMissing(inputs[1..], params)
  }

  function FirstMismatch(inputs: seq<FieldSchema>, params: Params): (r: Option<(FieldSchema, string)>)
    ensures r.Some? ==> r.value.0.name in params
  {
    if inputs == [] then None
    else if inputs[0].name in params && CheckType(params[inputs[0].name], inputs[0].ty).Err?
    then Some((inputs[0], CheckType(params[inputs[0].name], inputs[0].ty).error))
    else FirstMismatch(inputs[1..], params)
  }

  /** `validate_params`: presence, then unknown keys in key order, then types in schema order. */
  function ValidateParams(schema: ControllerSchema, params: Params): Result<(), ParamError> {
    match FirstMissing(schema.inputs, params)
    case Some(input) => Err(MissingRequired(input.name, input.comment))
    case None =>
      var unknown := params.Keys - Names(schema.inputs);
      if unknown != {} then Err(UnknownParam(Least(unknown), schema.namespace, schema.func))
      else
        match FirstMismatch(schema.inputs, params)
        case Some(m) =>
          Err(TypeMismatch(m.0.name, schema.namespace, schema.func, m.1, params[m.0.name].TypeName()))
        case None => Ok(())
  }

  predicate Missing(input: FieldSchema, params: Params) {
    input.required && input.name !in params
  }

  ghost predicate Mistyped(input: FieldSchema, params: Params) {
    input.name in params && !HasType(params[input.name], input.ty)
  }

  /** The maps a controller may be called with. */
  ghost predicate Satisfies(schema: ControllerSchema, params: Params) {
    && (forall i :: 0 <= i < |schema.inputs| ==> !Missing(schema.inputs[i], params))
    && (forall key :: key in params ==> key in Names(schema.inputs))
    && (forall i :: 0 <= i < |schema.inputs| ==> !Mistyped(schema.inputs[i], params))
  }

  lemma {:induction false} FirstMissingExact(inputs: seq<FieldSchema>, params: Params)
    ensures match FirstMissing(inputs, params)
            case None => forall i :: 0 <= i < |inputs| ==> !Missing(inputs[i], params)
            case Some(f) => exists i :: 0 <= i < |inputs| && inputs[i] == f && Missing(f, params)
                                        && forall j :: 0 <= j < i ==> !Missing(inputs[j], params)
  {
    if inputs != [] && !Missing(inputs[0], params) {
      var rest := inputs[1..];
      FirstMissingExact(rest, params);
      assert forall i :: 0 < i < |inputs| ==> inputs[i] == rest[i - 1];
      if FirstMissing(rest, params).Some? {
        var f := FirstMissing(rest, params).value;
        var i :| 0 <= i < |rest| && rest[i] == f && forall j :: 0 <= j < i ==> !Missing(rest[j], params);
        assert inputs[i + 1] == f;
      }
    } else if inputs != [] {
      assert inputs[0] == FirstMissing(inputs, params).value;
    }
  }

  lemma {:induction false} FirstMismatchExact(inputs: seq<FieldSchema>, params: Params)
    ensures match FirstMismatch(inputs, params)
            case None => forall i :: 0 <= i < |inputs| ==> !Mistyped(inputs[i], params)
            case Some(m) => exists i :: 0 <= i < |inputs| && inputs[i] == m.0 && Mistyped(m.0, params)
                                        && CheckType(params[m.0.name], m.0.ty) == Err(m.1)
                                        && forall j :: 0 <= j < i ==> !Mistyped(inputs[j], params)
  {
    if inputs != [] {
      if inputs[0].name in params {
        CheckTypeExact(params[inputs[0].name], inputs[0].ty);
      }
      var rest := inputs[1..];
      FirstMismatchExact(rest, params);
      assert forall i :: 0 < i < |inputs| ==> inputs[i] == rest[i - 1];
      if Mistyped(inputs[0], params) {
        assert inputs[0] == FirstMismatch(inputs, params).value.0;
      } else if FirstMismatch(rest, params).Some? {
        var m := FirstMismatch(rest, params).value;
        var i :| 0 <= i < |rest| && rest[i] == m.0 && forall j :: 0 <= j < i ==> !Mistyped(rest[j], params);
        assert inputs[i + 1] == m.0;
      }
    }
  }

  /** Validation accepts exactly the satisfying maps. */
  lemma ValidateParamsExact(schema: ControllerSchema, params: Params)
    ensures ValidateParams(schema, params).Ok? <==> Satisfies(schema, params)
  {
    FirstMissingExact(schema.inputs, params);
    FirstMismatchExact(schema.inputs, params);
    var unknown := params.Keys - Names(schema.inputs);
    if unknown == {} {
      forall key | key in params
        ensures key in Names(schema.inputs)
      {
        assert key !in unknown;
      }
    }
  }

  /** Which error is reported: a missing parameter before an unknown one before a mistyped one,
      each the first of its kind. */
  lemma ValidateParamsReports(schema: ControllerSchema, params: Params)
    requires !Satisfies(schema, params)
    ensures ValidateParams(schema, params).Err?
    ensures var missing := exists i :: 0 <= i < |schema.inputs| && Missing(schema.inputs[i], params);
            var unknown := params.Keys - Names(schema.inputs);
            match ValidateParams(schema, params).error
            case MissingRequired(name, comment) =>
              exists i :: 0 <= i < |schema.inputs| && Missing(schema.inputs[i], params)
                          && name == schema.inputs[i].name && comment == schema.inputs[i].comment
                          && forall j :: 0 <= j < i ==> !Missing(schema.inputs[j], params)
            case UnknownParam(key, ns, fn) =>
              !missing && IsLeast(key, unknown) && ns == schema.namespace && fn == schema.func
            case TypeMismatch(name, ns, fn, expected, got) =>
              !missing && unknown == {} && ns == schema.namespace && fn == schema.func
              && exists i :: 0 <= i < |schema.inputs| && Mistyped(schema.inputs[i], params)
                             && name == schema.inputs[i].name && got == params[name].TypeName()
                             && CheckType(params[name], schema.inputs[i].ty) == Err(expected)
                             && forall j :: 0 <= j < i ==> !Mistyped(schema.inputs[j], params)
            case WrongShape(_) => false
  {
    ValidateParamsExact(schema, params);
    FirstMissingExact(schema.inputs, params);
    FirstMismatchExact(schema.inputs, params);
  }
}

/** When every value that passes the check of one parameter type passes that of another. */
module TypeInclusion {
  import opened Prelude
  import opened Text
  import opened Json
  import opened Schema

  /** The types whose values are not inspected. */
  predicate Opaque(base: TypeSchema) {
    base.JsonType? || base.BytesType? || base.RefType? || base.ObjectType? || base.MapType?
  }

  predicate Included(ty: TypeSchema, other: TypeSchema)
    decreases ty
  {
    BaseIsNoLarger(ty);
    var t := Base(other);
    Opaque(t) ||
    match Base(ty)
    case BoolType => t.BoolType?
    case StringType => t.StringType?
    case I64Type => t.I64Type? || t.F64Type?
    case U64Type => t.U64Type? || t.F64Type?
    case F64Type => t.F64Type?
    case EnumType(variants) => variants == [] || t.StringType? || (t.EnumType? && forall v :: v in variants ==> v in t.variants)
    case ArrayType(element) => t.ArrayType? && Included(element, t.element)
    case _ => false
  }

  /** The first variant that is not among the others, if any. */
  function FirstOutside(variants: seq<string>, others: seq<string>): (v: Option<string>)
    ensures v.None? <==> forall v :: v in variants ==> v in others
    ensures v.Some? ==> v.value in variants && v.value !in others
  {
    if variants == [] then None
    else if variants[0] !in others then Some(variants[0])
    else FirstOutside(variants[1..], others)
  }

  /** A value of the one type that is none of the other. */
  function Outside(ty: TypeSchema, other: TypeSchema): Value
    decreases ty
  {
    BaseIsNoLarger(ty);
    var t := Base(other);
    match Base(ty)
    case BoolType => Bool(true)
    case StringType => if t.EnumType? then Str(LongerThanAll(t.variants)) else Str("")
    case I64Type => Num(NegInt(-1))
    case U64Type => Num(PosInt(0x8000_0000_0000_0000))
    case F64Type => Num(Float(0.0))
    case EnumType(variants) =>
      var others := if t.EnumType? then t.variants else [];
      if FirstOutside(variants, others).Some? then Str(FirstOutside(variants, others).value) else Null
    case ArrayType(element) => if t.ArrayType? then Array([Outside(element, t.element)]) else Array([])
    case _ => if t.BoolType? then Str("") else Bool(true)
  }

  lemma OneItem(v: Value, element: TypeSchema)
    ensures CheckItems([v], element).Ok? <==> CheckType(v, element).Ok?
  {
    assert [v][1..] == [];
  }

  lemma {:induction false} OutsideSeparates(ty: TypeSchema, other: TypeSchema)
    requires !Included(ty, other)
    ensures CheckType(Outside(ty, other), ty).Ok? && CheckType(Outside(ty, other), other).Err?
    decreases ty
  {
    BaseIsNoLarger(ty);
    var v := Outside(ty, other);
    CheckTypeIgnoresOption(v, ty);
    CheckTypeIgnoresOption(v, other);
    if Base(ty).ArrayType? && Base(other).ArrayType? {
      OutsideSeparates(Base(ty).element, Base(other).element);
      OneItem(Outside(Base(ty).element, Base(other).element), Base(ty).element);
      OneItem(Outside(Base(ty).element, Base(other).element), Base(other).element);
    }
  }

  lemma {:induction false} IncludedPasses(value: Value, ty: TypeSchema, other: TypeSchema)
    requires Included(ty, other) && CheckType(value, ty).Ok?
    ensures CheckType(value, other).Ok?
    decreases ty, 0
  {
    BaseIsNoLarger(ty);
    CheckTypeIgnoresOption(value, ty);
    CheckTypeIgnoresOption(value, other);
    if Base(ty).ArrayType? && Base(other).ArrayType? && value.Array? {
      IncludedItemsPass(value.items, Base(ty).element, Base(other).element);
    }
  }

  lemma {:induction false} IncludedItemsPass(items: seq<Value>, element: TypeSchema, other: TypeSchema)
    requires Included(element, other) && CheckItems(items, element).Ok?
    ensures CheckItems(items, other).Ok?
    decreases element, 1 + |items|
  {
    if items != [] {
      IncludedPasses(items[0], element, other);
      IncludedItemsPass(items[1..], element, other);
    }
  }

  /** The decision is exact. */
  lemma IncludedExactly(ty: TypeSchema, other: TypeSchema)
    ensures Included(ty, other) <==> forall value :: CheckType(value, ty).Ok? ==> CheckType(value, other).Ok?
  {
    if Included(ty, other) {
      forall value | CheckType(value, ty).Ok? {
        IncludedPasses(value, ty, other);
      }
    } else {
      OutsideSeparates(ty, other);
    }
  }
}

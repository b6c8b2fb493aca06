/** Redaction of JSON values before they are logged. */
module RpcLog {
  import opened Json

  const REDACTED := Str("[REDACTED]")

  predicate IsSensitiveKey(key: string) {
    key in {"api_key", "apikey", "token", "access_token", "refresh_token", "authorization", "password", "secret", "client_secret"}
  }

  /** The value with everything below sensitive keys replaced. */
  function Redacted(value: Value): Value {
    match value
    case Object(fields) =>
      Object(map k | k in fields :: if IsSensitiveKey(k) then REDACTED else Redacted(fields[k]))
    case Array(items) => Array(seq(|items|, i requires 0 <= i < |items| => Redacted(items[i])))
    case other => other
  }

  /** `redact_value`: objects are rebuilt by inserting into a fresh map. */
  method RedactValue(value: Value) returns (r: Value)
    ensures r == Redacted(value)
    decreases value, 1
  {
    match value
    case Object(_) => r := RedactObject(value);
    case Array(_) => r := RedactArray(value);
    case _ => r := value;
  }

  method RedactObject(value: Value) returns (r: Value)
    requires value.Object?
    ensures r == Redacted(value)
    decreases value, 0
  {
    var fields := value.fields;
    var out: map<string, Value> := map[];
    var todo := fields.Keys;
    while todo != {}
      invariant todo <= fields.Keys && out.Keys == fields.Keys - todo
      invariant forall k :: k in out ==> out[k] == if IsSensitiveKey(k) then REDACTED else Redacted(fields[k])
      decreases |todo|
    {
      var k :| k in todo;
      if IsSensitiveKey(k) {
        out := out[k := REDACTED];
      } else {
        var v := RedactValue(fields[k]);
        out := out[k := v];
      }
      todo := todo - {k};
    }
    assert out == Redacted(value).fields;
    r := Object(out);
  }

  method RedactArray(value: Value) returns (r: Value)
    requires value.Array?
    ensures r == Redacted(value)
    decreases value, 0
  {
    var items := value.items;
    var out: seq<Value> := [];
    for i := 0 to |items|
      invariant |out| == i && forall j :: 0 <= j < i ==> out[j] == Redacted(items[j])
    {
      var v := RedactValue(items[i]);
      out := out + [v];
    }
    r := Array(out);
  }

  // ----- what can be seen at a path

  datatype Step = Key(key: string) | Index(i: nat)

  /** A scalar shows itself; an object shows its keys and an array its length. */
  datatype Shape = Absent | Scalar(v: Value) | Keys(keys: set<string>) | Length(n: nat)

  function ShapeOf(v: Value): Shape {
    match v
    case Object(fields) => Keys(fields.Keys)
    case Array(items) => Length(|items|)
    case other => Scalar(other)
  }

  function At(v: Value, path: seq<Step>): Shape
    decreases path
  {
    if path == [] then ShapeOf(v)
    else
      match path[0]
      case Key(k) => if v.Object? && k in v.fields then At(v.fields[k], path[1..]) else Absent
      case Index(i) => if v.Array? && i < |v.items| then At(v.items[i], path[1..]) else Absent
  }

  /** No sensitive key on the way. */
  predicate Clean(path: seq<Step>) {
    forall i :: 0 <= i < |path| && path[i].Key? ==> !IsSensitiveKey(path[i].key)
  }

  /** Two values agree everywhere except below sensitive keys. */
  ghost predicate AgreeOutsideSecrets(v: Value, w: Value) {
    forall path :: Clean(path) ==> At(v, path) == At(w, path)
  }

  /** Redaction changes nothing that a clean path can see. */
  lemma {:induction false} CleanPathsAreKept(v: Value, path: seq<Step>)
    requires Clean(path)
    ensures At(Redacted(v), path) == At(v, path)
    decreases path
  {
    if path == [] {
      if v.Object? {
        assert Redacted(v).fields.Keys == v.fields.Keys;
      }
    } else {
      assert forall i :: 0 <= i < |path[1..]| ==> path[1..][i] == path[i + 1];
      match path[0]
      case Key(k) =>
        if v.Object? && k in v.fields {
          CleanPathsAreKept(v.fields[k], path[1..]);
        }
      case Index(i) =>
        if v.Array? && i < |v.items| {
          CleanPathsAreKept(v.items[i], path[1..]);
        }
    }
  }

  lemma AgreeBelow(v: Value, w: Value, step: Step, v': Value, w': Value)
    requires AgreeOutsideSecrets(v, w)
    requires step.Key? ==> !IsSensitiveKey(step.key) && v.Object? && w.Object?
                           && step.key in v.fields && step.key in w.fields && v' == v.fields[step.key] && w' == w.fields[step.key]
    requires step.Index? ==> v.Array? && w.Array? && step.i < |v.items| && step.i < |w.items|
                             && v' == v.items[step.i] && w' == w.items[step.i]
    ensures AgreeOutsideSecrets(v', w')
  {
    forall path | Clean(path)
      ensures At(v', path) == At(w', path)
    {
      var whole := [step] + path;
      assert whole[1..] == path;
      assert Clean(whole);
      assert At(v, whole) == At(w, whole);
    }
  }

  lemma {:induction false} AgreeingRedactAlike(v: Value, w: Value)
    requires AgreeOutsideSecrets(v, w)
    ensures Redacted(v) == Redacted(w)
    decreases v
  {
    assert Clean([]);
    assert At(v, []) == At(w, []);
    match v
    case Object(fields) =>
      assert fields.Keys == w.fields.Keys;
      forall k | k in fields
        ensures Redacted(v).fields[k] == Redacted(w).fields[k]
      {
        if !IsSensitiveKey(k) {
          AgreeBelow(v, w, Key(k), fields[k], w.fields[k]);
          AgreeingRedactAlike(fields[k], w.fields[k]);
        }
      }
      assert Redacted(v).fields == Redacted(w).fields;
    case Array(items) =>
      forall i | 0 <= i < |items|
        ensures Redacted(v).items[i] == Redacted(w).items[i]
      {
        AgreeBelow(v, w, Index(i), items[i], w.items[i]);
        AgreeingRedactAlike(items[i], w.items[i]);
      }
      assert Redacted(v).items == Redacted(w).items;
    case _ =>
  }

  /** Redaction hides exactly what is below sensitive keys: two values look alike in the log
      if and only if they agree everywhere else. */
  lemma RedactionHidesExactlySecrets(v: Value, w: Value)
    ensures Redacted(v) == Redacted(w) <==> AgreeOutsideSecrets(v, w)
  {
    if AgreeOutsideSecrets(v, w) {
      AgreeingRedactAlike(v, w);
    } else if Redacted(v) == Redacted(w) {
      forall path | Clean(path)
        ensures At(v, path) == At(w, path)
      {
        CleanPathsAreKept(v, path);
        CleanPathsAreKept(w, path);
      }
    }
  }

  /** Below a clean path, a sensitive key shows the marker and nothing else. */
  lemma {:induction false} SecretsShowTheMarker(v: Value, path: seq<Step>, key: string, below: seq<Step>)
    requires Clean(path) && IsSensitiveKey(key)
    ensures At(Redacted(v), path + [Key(key)] + below) ==
            if At(v, path).Keys? && key in At(v, path).keys && below == [] then Scalar(REDACTED) else Absent
    decreases path
  {
    var whole := path + [Key(key)] + below;
    if path == [] {
      assert whole[1..] == below;
    } else {
      assert whole[1..] == path[1..] + [Key(key)] + below;
      assert forall i :: 0 <= i < |path[1..]| ==> path[1..][i] == path[i + 1];
      match path[0]
      case Key(k) =>
        if v.Object? && k in v.fields {
          SecretsShowTheMarker(v.fields[k], path[1..], key, below);
        }
      case Index(i) =>
        if v.Array? && i < |v.items| {
          SecretsShowTheMarker(v.items[i], path[1..], key, below);
        }
    }
  }

  /** Redacting again changes nothing. */
  lemma {:induction false} RedactionIsIdempotent(v: Value)
    ensures Redacted(Redacted(v)) == Redacted(v)
  {
    forall path | Clean(path)
      ensures At(Redacted(v), path) == At(v, path)
    {
      CleanPathsAreKept(v, path);
    }
    AgreeingRedactAlike(Redacted(v), v);
  }

  const SECRETS := ["api_key", "apikey", "token", "access_token", "refresh_token", "authorization", "password", "secret", "client_secret"]

  /** An object shows the marker for each of the nine names, whatever it binds to them, and for no other. */
  lemma NineNamesAreHidden(fields: map<string, Value>, key: string)
    requires key in fields
    ensures key in SECRETS ==> At(Redacted(Object(fields)), [Key(key)]) == Scalar(Str("[REDACTED]"))
    ensures key !in SECRETS ==> At(Redacted(Object(fields)), [Key(key)]) == ShapeOf(fields[key])
  {
    assert [Key(key)][1..] == [];
    if key in SECRETS {
      SecretsShowTheMarker(Object(fields), [], key, []);
      assert [] + [Key(key)] + [] == [Key(key)];
    } else {
      CleanPathsAreKept(Object(fields), [Key(key)]);
    }
  }
}

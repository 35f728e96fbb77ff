/** The JavaScript loader (lib/config.js, the one the tests load): four
    parsers, and a declaration that is nothing but the name of one of them. */
module ConfigLib {
  import opened Results
  import opened Patterns
  import opened Parsers
  import opened Assemble

  /** The parser names: the own properties of the `parsers` object. */
  predicate Known(t: string)
  {
    t in {"string", "boolean", "integer", "number"}
  }

  /** The names every plain object inherits from `Object.prototype`. Looking
      one of them up in `parsers` finds an inherited function rather than
      nothing, which this model does not follow. */
  predicate Inherited(t: string)
  {
    t in {"constructor", "hasOwnProperty", "isPrototypeOf", "propertyIsEnumerable", "toLocaleString",
          "toString", "valueOf", "__proto__", "__defineGetter__", "__defineSetter__",
          "__lookupGetter__", "__lookupSetter__"}
  }

  /** `parsers[type](value)` for a known type (lib/config.js:16-33). */
  function Parse(t: string, raw: string): (r: Result<Value, string>)
    requires Known(t)
    ensures t == "string" ==> r == Ok(Str(raw))
    ensures t == "boolean" ==> (r.Ok? <==> ParseBoolean(raw).Ok?) && (r.Ok? ==> r.value == Bool(ParseBoolean(raw).value))
    ensures t == "boolean" && r.Err? ==> r.error == BOOLEAN_ERROR
    ensures t == "integer" ==> (r.Ok? <==> IntegerPattern(raw)) && (r.Ok? ==> r.value == Int(IntegerValue(raw)))
    ensures t == "integer" && r.Err? ==> r.error == INTEGER_ERROR
    ensures t == "number" ==> (r.Ok? <==> NumberPattern(raw)) && (r.Ok? ==> r.value == Num(ParseNumber(raw).value))
    ensures t == "number" && r.Err? ==> r.error == NUMBER_ERROR
  {
    match t
    case "string" => Ok(Str(raw))
    case "boolean" =>
      (match ParseBoolean(raw) case Ok(b) => Ok(Bool(b)) case Err(e) => Err(e))
    case "integer" =>
      (match ParseInteger(raw) case Ok(i) => Ok(Int(i)) case Err(e) => Err(e))
    case "number" =>
      (match ParseNumber(raw) case Ok(n) => Ok(Num(n)) case Err(e) => Err(e))
  }

  /** One iteration of the loop (lib/config.js:37-51): the missing check comes
      before the type is even read, then the type check, then the parser. */
  function Entry(prefix: string, key: string, t: string, env: map<string, string>): (r: Result<Value, ConfigError>)
    requires !Inherited(t)
    ensures r.Err? ==> r.error.envKey == EnvName(prefix, key)
    ensures r.Ok? ==> Present(env, EnvName(prefix, key))
  {
    var envKey := EnvName(prefix, key);
    if !Present(env, envKey) then Err(Missing(envKey))
    else if !Known(t) then Err(Invalid(envKey, INVALID_TYPE))
    else
      match Parse(t, env[envKey])
      case Ok(v) => Ok(v)
      case Err(reason) => Err(Invalid(envKey, reason))
  }

  /** What one key's outcome says: every error names the derived variable; a
      missing variable is reported unwrapped whatever the type; a set variable
      with an unknown type gives `Invalid type`; a value comes exactly from a
      set variable, a known type and an accepting parser. */
  lemma EntryMeaning(prefix: string, key: string, t: string, env: map<string, string>)
    requires !Inherited(t)
    ensures var k, r := EnvName(prefix, key), Entry(prefix, key, t, env);
      && (r.Err? ==> r.error.envKey == k)
      && (!Present(env, k) ==> r == Err(Missing(k)))
      && (r.Err? && r.error.Missing? <==> !Present(env, k))
      && (Present(env, k) && !Known(t) ==> r == Err(Invalid(k, INVALID_TYPE)))
      && (Present(env, k) && Known(t) && Parse(t, env[k]).Err? ==> r == Err(Invalid(k, Parse(t, env[k]).error)))
      && (r.Ok? <==> Present(env, k) && Known(t) && Parse(t, env[k]).Ok?)
      && (r.Ok? ==> r.value == Parse(t, env[k]).value)
  {
  }

  /** The `string` parser is the identity: the value is the raw variable. */
  lemma StringIsIdentity(prefix: string, key: string, env: map<string, string>)
    requires Present(env, EnvName(prefix, key))
    ensures Entry(prefix, key, "string", env) == Ok(Str(env[EnvName(prefix, key)]))
  {
  }

  predicate NoInherited(defs: seq<(string, string)>)
  {
    forall i :: 0 <= i < |defs| ==> !Inherited(defs[i].1)
  }

  /** Every key's outcome, in declaration order. */
  function Outcomes(defs: seq<(string, string)>, env: map<string, string>, prefix: string): (outs: seq<Outcome>)
    requires NoInherited(defs)
  {
    seq(|defs|, i requires 0 <= i < |defs| => (defs[i].0, Entry(prefix, defs[i].0, defs[i].1, env)))
  }

  /** The configuration the module exports, or the error it throws. */
  function Load(defs: seq<(string, string)>, env: map<string, string>, prefix: string): (r: Result<map<string, Value>, ConfigError>)
    requires NoInherited(defs)
    ensures r.Ok? <==> forall i :: 0 <= i < |defs| ==> Entry(prefix, defs[i].0, defs[i].1, env).Ok?
    ensures r.Ok? ==> r.value.Keys == set i | 0 <= i < |defs| :: defs[i].0
  {
    var outs := Outcomes(defs, env, prefix);
    assert forall i :: 0 <= i < |defs| ==> outs[i] == (defs[i].0, Entry(prefix, defs[i].0, defs[i].1, env));
    CollectOk(outs);
    if Collect(outs).Ok? then
      assert Collect(outs).value.Keys == set i | 0 <= i < |defs| :: defs[i].0 by {
        CollectKeys(outs);
        SameKeys(defs, outs);
      }
      Collect(outs)
    else
      Collect(outs)
  }

  /** The `for...in` loop of lib/config.js:35-54. */
  method Build(defs: seq<(string, string)>, env: map<string, string>, prefix: string)
    returns (r: Result<map<string, Value>, ConfigError>)
    requires NoInherited(defs)
    ensures r == Load(defs, env, prefix)
  {
    ghost var outs := Outcomes(defs, env, prefix);
    var config: map<string, Value> := map[];
    var i := 0;
    while i < |defs|
      invariant 0 <= i <= |defs|
      invariant Collect(outs[..i]) == Ok(config)
    {
      var key := defs[i].0;
      assert outs[i] == (key, Entry(prefix, key, defs[i].1, env));
      CollectPrefixStep(outs, i);
      var envKey := EnvName(prefix, key);
      if !(envKey in env) || env[envKey] == "" {
        CollectErrSticky(outs, i + 1);
        return Err(Missing(envKey));
      }
      var value := env[envKey];
      var t := defs[i].1;
      if !Known(t) {
        CollectErrSticky(outs, i + 1);
        return Err(Invalid(envKey, INVALID_TYPE));
      }
      var parsed := Parse(t, value);
      if parsed.Err? {
        CollectErrSticky(outs, i + 1);
        return Err(Invalid(envKey, parsed.error));
      }
      config := config[key := parsed.value];
      i := i + 1;
    }
    assert outs[..i] == outs;
    return Ok(config);
  }

  /** The first failing key in declaration order decides the error. */
  lemma FirstFailureDecides(defs: seq<(string, string)>, env: map<string, string>, prefix: string, i: int)
    requires NoInherited(defs) && 0 <= i < |defs|
    requires forall j :: 0 <= j < i ==> Entry(prefix, defs[j].0, defs[j].1, env).Ok?
    requires Entry(prefix, defs[i].0, defs[i].1, env).Err?
    ensures Load(defs, env, prefix) == Err(Entry(prefix, defs[i].0, defs[i].1, env).error)
  {
    var outs := Outcomes(defs, env, prefix);
    assert forall j :: 0 <= j <= i ==> outs[j].1 == Entry(prefix, defs[j].0, defs[j].1, env);
    CollectFirstError(outs, i);
  }

  /** An unset or empty variable fails the build wherever its key is declared,
      whatever type the key names; when every earlier key succeeds the error
      is the unwrapped missing-variable error. */
  lemma MissingFailsLoad(defs: seq<(string, string)>, env: map<string, string>, prefix: string, i: int)
    requires NoInherited(defs) && 0 <= i < |defs|
    requires !Present(env, EnvName(prefix, defs[i].0))
    ensures Load(defs, env, prefix).Err?
    ensures (forall j :: 0 <= j < i ==> Entry(prefix, defs[j].0, defs[j].1, env).Ok?) ==>
      Load(defs, env, prefix) == Err(Missing(EnvName(prefix, defs[i].0)))
  {
    if forall j :: 0 <= j < i ==> Entry(prefix, defs[j].0, defs[j].1, env).Ok? {
      FirstFailureDecides(defs, env, prefix, i);
    }
  }

  /** A set variable whose key names no parser fails the build; when every
      earlier key succeeds the error is the wrapped `Invalid type`. */
  lemma UnknownTypeFailsLoad(defs: seq<(string, string)>, env: map<string, string>, prefix: string, i: int)
    requires NoInherited(defs) && 0 <= i < |defs|
    requires Present(env, EnvName(prefix, defs[i].0)) && !Known(defs[i].1)
    ensures Load(defs, env, prefix).Err?
    ensures (forall j :: 0 <= j < i ==> Entry(prefix, defs[j].0, defs[j].1, env).Ok?) ==>
      Load(defs, env, prefix) == Err(Invalid(EnvName(prefix, defs[i].0), INVALID_TYPE))
  {
    if forall j :: 0 <= j < i ==> Entry(prefix, defs[j].0, defs[j].1, env).Ok? {
      FirstFailureDecides(defs, env, prefix, i);
    }
  }

  /** A built configuration maps each declared key to the value its entry parsed. */
  lemma LoadValues(defs: seq<(string, string)>, env: map<string, string>, prefix: string)
    requires NoInherited(defs) && DistinctKeys(defs) && Load(defs, env, prefix).Ok?
    ensures forall i :: 0 <= i < |defs| ==>
      && defs[i].0 in Load(defs, env, prefix).value
      && Load(defs, env, prefix).value[defs[i].0] == Entry(prefix, defs[i].0, defs[i].1, env).value
  {
    var outs := Outcomes(defs, env, prefix);
    assert forall i :: 0 <= i < |defs| ==> outs[i] == (defs[i].0, Entry(prefix, defs[i].0, defs[i].1, env));
    CollectValues(outs);
  }

  /** One key read under two prefixes from two environments holding the same
      value under the two derived names: the same success, the same value. */
  lemma EntryPrefixAgree(key: string, t: string, env1: map<string, string>, p1: string,
                         env2: map<string, string>, p2: string)
    requires !Inherited(t)
    requires Present(env1, EnvName(p1, key)) <==> Present(env2, EnvName(p2, key))
    requires Present(env1, EnvName(p1, key)) ==> env1[EnvName(p1, key)] == env2[EnvName(p2, key)]
    ensures Entry(p1, key, t, env1).Ok? == Entry(p2, key, t, env2).Ok?
    ensures Entry(p1, key, t, env1).Ok? ==> Entry(p1, key, t, env1).value == Entry(p2, key, t, env2).value
  {
  }

  /** The prefix only chooses which variables are read: two environments that
      hold the same values under the names two prefixes derive give the same
      configuration, and succeed or fail together (a failure names the
      variable it read, so the messages differ). */
  lemma PrefixIndependent(defs: seq<(string, string)>, env1: map<string, string>, p1: string,
                          env2: map<string, string>, p2: string)
    requires NoInherited(defs)
    requires forall i :: 0 <= i < |defs| ==>
      && (Present(env1, EnvName(p1, defs[i].0)) <==> Present(env2, EnvName(p2, defs[i].0)))
      && (Present(env1, EnvName(p1, defs[i].0)) ==> env1[EnvName(p1, defs[i].0)] == env2[EnvName(p2, defs[i].0)])
    ensures Load(defs, env1, p1).Ok? == Load(defs, env2, p2).Ok?
    ensures Load(defs, env1, p1).Ok? ==> Load(defs, env1, p1) == Load(defs, env2, p2)
  {
    var o1, o2 := Outcomes(defs, env1, p1), Outcomes(defs, env2, p2);
    forall i | 0 <= i < |defs|
      ensures o1[i].0 == o2[i].0 && o1[i].1.Ok? == o2[i].1.Ok?
      ensures o1[i].1.Ok? ==> o1[i].1.value == o2[i].1.value
    {
      EntryPrefixAgree(defs[i].0, defs[i].1, env1, p1, env2, p2);
    }
    CollectAgree(o1, o2);
  }
}

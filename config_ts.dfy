/** The TypeScript loader (src/config.ts): six parsers, three forms of
    declaration, an `env` override and an optional validator per key. */
module ConfigTs {
  import opened Results
  import opened Text
  import opened Patterns
  import opened Durations
  import opened Parsers
  import opened Assemble

  /** A key's declaration: a type name, an array of allowed values (an enum),
      or an object with `type`, `env`, `values` and `validator` fields. An
      `env` of "" stands for an absent (or empty, hence falsy) field. */
  datatype Decl =
    | TypeName(name: string)
    | EnumValues(members: seq<string>)
    | Declared(typeName: string, env: string, values: Option<seq<string>>, validator: Option<string -> bool>)

  /** What the loop extracts from a declaration before reading the environment. */
  datatype Normal = Normal(typeName: string, envKey: string, values: Option<seq<string>>, validator: Option<string -> bool>)

  const VALIDATOR_ERROR := "Value did not pass validator function"
  /** The TypeError `values.indexOf` throws when an enum is declared without `values`. */
  const NO_VALUES_ERROR := "Cannot read properties of undefined (reading 'indexOf')"

  /** Lines 69-80 of the loop: the derived name, replaced by a non-empty `env`. */
  function Normalize(prefix: string, key: string, decl: Decl): (n: Normal)
    ensures !decl.Declared? || decl.env == "" ==> n.envKey == EnvName(prefix, key)
    ensures decl.Declared? && decl.env != "" ==> n.envKey == decl.env
    ensures decl.EnumValues? ==> n.typeName == "enum" && n.values == Some(decl.members)
    ensures !decl.Declared? ==> n.validator == None
    ensures decl.TypeName? ==> n.typeName == decl.name && n.values == None
    ensures decl.Declared? ==> n.typeName == decl.typeName && n.values == decl.values && n.validator == decl.validator
  {
    var derived := EnvName(prefix, key);
    match decl
    case TypeName(t) => Normal(t, derived, None, None)
    case EnumValues(vs) => Normal("enum", derived, Some(vs), None)
    case Declared(t, e, vs, v) => Normal(t, if e != "" then e else derived, vs, v)
  }

  /** The names the parser table (an object without a prototype) holds. */
  predicate Known(t: string)
  {
    t in {"string", "boolean", "integer", "number", "duration", "enum"}
  }

  /** `parsers[type](value, values)` for a known type. */
  function Parse(t: string, raw: string, values: Option<seq<string>>, resolve: string -> Option<int>): (r: Result<Value, string>)
    requires Known(t)
    ensures t == "string" ==> r == Ok(Str(raw))
    ensures t == "boolean" ==> (r.Ok? <==> ParseBoolean(raw).Ok?) && (r.Ok? ==> r.value == Bool(ParseBoolean(raw).value))
    ensures t == "boolean" && r.Err? ==> r.error == BOOLEAN_ERROR
    ensures t == "integer" ==> (r.Ok? <==> IntegerPattern(raw)) && (r.Ok? ==> r.value == Int(IntegerValue(raw)))
    ensures t == "integer" && r.Err? ==> r.error == INTEGER_ERROR
    ensures t == "number" ==> (r.Ok? <==> NumberPattern(raw)) && (r.Ok? ==> r.value == Num(ParseNumber(raw).value))
    ensures t == "number" && r.Err? ==> r.error == NUMBER_ERROR
    ensures t == "duration" ==> (r.Ok? <==> ParseDuration(raw, resolve).Ok?) && (r.Ok? ==> r.value == Dur(ParseDuration(raw, resolve).value))
    ensures t == "duration" && r.Err? ==> r.error == DURATION_ERROR
    ensures t == "enum" ==> (r.Ok? <==> values.Some? && raw in values.value) && (r.Ok? ==> r.value == Str(raw))
    ensures t == "enum" && r.Err? ==> r.error == (if values.Some? then ENUM_ERROR else NO_VALUES_ERROR)
  {
    match t
    case "string" => Ok(Str(raw))
    case "boolean" =>
      (match ParseBoolean(raw) case Ok(b) => Ok(Bool(b)) case Err(e) => Err(e))
    case "integer" =>
      (match ParseInteger(raw) case Ok(i) => Ok(Int(i)) case Err(e) => Err(e))
    case "number" =>
      (match ParseNumber(raw) case Ok(n) => Ok(Num(n)) case Err(e) => Err(e))
    case "duration" =>
      (match ParseDuration(raw, resolve) case Ok(d) => Ok(Dur(d)) case Err(e) => Err(e))
    case "enum" =>
      if values.None? then Err(NO_VALUES_ERROR)
      else (match ParseEnum(raw, values.value) case Ok(s) => Ok(Str(s)) case Err(e) => Err(e))
  }

  /** The validator is absent or accepts the raw value. */
  predicate Passes(validator: Option<string -> bool>, raw: string)
  {
    validator.None? || validator.value(raw)
  }

  /** One iteration of the loop (lines 68-96), as a value: the missing check,
      then the type check, then the validator, then the parser. */
  function Entry(prefix: string, key: string, decl: Decl, env: map<string, string>, resolve: string -> Option<int>): (r: Result<Value, ConfigError>)
    ensures r.Err? ==> r.error.envKey == Normalize(prefix, key, decl).envKey
    ensures r.Ok? ==> Present(env, Normalize(prefix, key, decl).envKey)
  {
    var n := Normalize(prefix, key, decl);
    if !Present(env, n.envKey) then Err(Missing(n.envKey))
    else
      var raw := env[n.envKey];
      if !Known(n.typeName) then Err(Invalid(n.envKey, INVALID_TYPE))
      else if !Passes(n.validator, raw) then Err(Invalid(n.envKey, VALIDATOR_ERROR))
      else
        match Parse(n.typeName, raw, n.values, resolve)
        case Ok(v) => Ok(v)
        case Err(reason) => Err(Invalid(n.envKey, reason))
  }

  /** What one key's outcome says: an error always names the variable that
      was read; the missing error comes exactly from an unset or empty
      variable; a value comes exactly from a set variable, a known type, a
      passing validator and an accepting parser, and is what that parser made;
      the checks after the missing check fail, in this order, with the wrapped
      `Invalid type`, the validator message and the parser's own message. */
  lemma EntryMeaning(prefix: string, key: string, decl: Decl, env: map<string, string>, resolve: string -> Option<int>)
    ensures var n, r := Normalize(prefix, key, decl), Entry(prefix, key, decl, env, resolve);
      && (r.Err? ==> r.error.envKey == n.envKey)
      && (r.Err? && r.error.Missing? <==> !Present(env, n.envKey))
      && (r.Ok? <==>
            Present(env, n.envKey) && Known(n.typeName) && Passes(n.validator, env[n.envKey])
            && Parse(n.typeName, env[n.envKey], n.values, resolve).Ok?)
      && (r.Ok? ==> r.value == Parse(n.typeName, env[n.envKey], n.values, resolve).value)
      && (Present(env, n.envKey) && !Known(n.typeName) ==> r == Err(Invalid(n.envKey, INVALID_TYPE)))
      && (Present(env, n.envKey) && Known(n.typeName) && !Passes(n.validator, env[n.envKey]) ==>
            r == Err(Invalid(n.envKey, VALIDATOR_ERROR)))
      && (Present(env, n.envKey) && Known(n.typeName) && Passes(n.validator, env[n.envKey])
          && Parse(n.typeName, env[n.envKey], n.values, resolve).Err? ==>
            r == Err(Invalid(n.envKey, Parse(n.typeName, env[n.envKey], n.values, resolve).error)))
  {
  }

  /** Every key's outcome, in declaration order. */
  function Outcomes(defs: seq<(string, Decl)>, env: map<string, string>, prefix: string, resolve: string -> Option<int>): (outs: seq<Outcome>)
  {
    seq(|defs|, i requires 0 <= i < |defs| => (defs[i].0, Entry(prefix, defs[i].0, defs[i].1, env, resolve)))
  }

  /** The configuration the module exports, or the error it throws. */
  function Load(defs: seq<(string, Decl)>, env: map<string, string>, prefix: string, resolve: string -> Option<int>): (r: Result<map<string, Value>, ConfigError>)
    ensures r.Ok? <==> forall i :: 0 <= i < |defs| ==> Entry(prefix, defs[i].0, defs[i].1, env, resolve).Ok?
    ensures r.Ok? ==> r.value.Keys == set i | 0 <= i < |defs| :: defs[i].0
  {
    var outs := Outcomes(defs, env, prefix, resolve);
    assert forall i :: 0 <= i < |defs| ==> outs[i] == (defs[i].0, Entry(prefix, defs[i].0, defs[i].1, env, resolve));
    CollectOk(outs);
    if Collect(outs).Ok? then
      assert Collect(outs).value.Keys == set i | 0 <= i < |defs| :: defs[i].0 by {
        CollectKeys(outs);
        SameKeys(defs, outs);
      }
      Collect(outs)
    else
      Collect(outs)
  }

  /** The `for...in` loop of lines 66-99. `config` is filled key by key; the
      first failure ends the loop with its error and no configuration. */
  method Build(defs: seq<(string, Decl)>, env: map<string, string>, prefix: string, resolve: string -> Option<int>)
    returns (r: Result<map<string, Value>, ConfigError>)
    ensures r == Load(defs, env, prefix, resolve)
  {
    ghost var outs := Outcomes(defs, env, prefix, resolve);
    var config: map<string, Value> := map[];
    var i := 0;
    while i < |defs|
      invariant 0 <= i <= |defs|
      invariant Collect(outs[..i]) == Ok(config)
    {
      var key := defs[i].0;
      var def := defs[i].1;
      assert outs[i] == (key, Entry(prefix, key, def, env, resolve));
      CollectPrefixStep(outs, i);
      var n := Normalize(prefix, key, def);
      if !(n.envKey in env) || env[n.envKey] == "" {
        CollectErrSticky(outs, i + 1);
        return Err(Missing(n.envKey));
      }
      var value := env[n.envKey];
      if !Known(n.typeName) {
        CollectErrSticky(outs, i + 1);
        return Err(Invalid(n.envKey, INVALID_TYPE));
      }
      if n.validator.Some? && !n.validator.value(value) {
        CollectErrSticky(outs, i + 1);
        return Err(Invalid(n.envKey, VALIDATOR_ERROR));
      }
      var parsed := Parse(n.typeName, value, n.values, resolve);
      if parsed.Err? {
        CollectErrSticky(outs, i + 1);
        return Err(Invalid(n.envKey, parsed.error));
      }
      config := config[key := parsed.value];
      i := i + 1;
    }
    assert outs[..i] == outs;
    return Ok(config);
  }

  /** The first failing key in declaration order decides the error, wherever
      it stands: a later key, failing or not, is never looked at. */
  lemma FirstFailureDecides(defs: seq<(string, Decl)>, env: map<string, string>, prefix: string, resolve: string -> Option<int>, i: int)
    requires 0 <= i < |defs|
    requires forall j :: 0 <= j < i ==> Entry(prefix, defs[j].0, defs[j].1, env, resolve).Ok?
    requires Entry(prefix, defs[i].0, defs[i].1, env, resolve).Err?
    ensures Load(defs, env, prefix, resolve) == Err(Entry(prefix, defs[i].0, defs[i].1, env, resolve).error)
  {
    var outs := Outcomes(defs, env, prefix, resolve);
    assert forall j :: 0 <= j <= i ==> outs[j].1 == Entry(prefix, defs[j].0, defs[j].1, env, resolve);
    CollectFirstError(outs, i);
  }

  /** A key whose variable is unset or empty fails the build, wherever it is
      declared; when every key before it succeeds, the error is the unwrapped
      missing-variable error naming that variable. */
  lemma MissingFailsLoad(defs: seq<(string, Decl)>, env: map<string, string>, prefix: string, resolve: string -> Option<int>, i: int)
    requires 0 <= i < |defs|
    requires !Present(env, Normalize(prefix, defs[i].0, defs[i].1).envKey)
    ensures Load(defs, env, prefix, resolve).Err?
    ensures (forall j :: 0 <= j < i ==> Entry(prefix, defs[j].0, defs[j].1, env, resolve).Ok?) ==>
      Load(defs, env, prefix, resolve) == Err(Missing(Normalize(prefix, defs[i].0, defs[i].1).envKey))
  {
    if forall j :: 0 <= j < i ==> Entry(prefix, defs[j].0, defs[j].1, env, resolve).Ok? {
      FirstFailureDecides(defs, env, prefix, resolve, i);
    }
  }

  /** A validator that rejects the raw value fails the key with the wrapped
      validator message, even when the parser would accept the value. */
  lemma ValidatorVeto(prefix: string, key: string, t: string, e: string, values: Option<seq<string>>,
                      validator: string -> bool, env: map<string, string>, resolve: string -> Option<int>)
    requires var k := Normalize(prefix, key, Declared(t, e, values, Some(validator))).envKey;
      Present(env, k) && Known(t) && !validator(env[k])
    ensures var k := Normalize(prefix, key, Declared(t, e, values, Some(validator))).envKey;
      Entry(prefix, key, Declared(t, e, values, Some(validator)), env, resolve) == Err(Invalid(k, VALIDATOR_ERROR))
  {
  }

  /** A declaration with a non-empty `env` reads that variable verbatim, so
      its outcome does not depend on the prefix. */
  lemma OverrideIgnoresPrefix(p1: string, p2: string, key: string, t: string, e: string, values: Option<seq<string>>,
                              validator: Option<string -> bool>, env: map<string, string>, resolve: string -> Option<int>)
    requires e != ""
    ensures Entry(p1, key, Declared(t, e, values, validator), env, resolve)
         == Entry(p2, key, Declared(t, e, values, validator), env, resolve)
  {
  }

  /** A built configuration maps each declared key to the value its entry parsed. */
  lemma LoadValues(defs: seq<(string, Decl)>, env: map<string, string>, prefix: string, resolve: string -> Option<int>)
    requires DistinctKeys(defs) && Load(defs, env, prefix, resolve).Ok?
    ensures forall i :: 0 <= i < |defs| ==>
      && defs[i].0 in Load(defs, env, prefix, resolve).value
      && Load(defs, env, prefix, resolve).value[defs[i].0] == Entry(prefix, defs[i].0, defs[i].1, env, resolve).value
  {
    var outs := Outcomes(defs, env, prefix, resolve);
    assert forall i :: 0 <= i < |defs| ==> outs[i] == (defs[i].0, Entry(prefix, defs[i].0, defs[i].1, env, resolve));
    CollectValues(outs);
  }

  /** A type-name declaration whose derived variable is set reads what that
      type's parser makes of the variable. */
  lemma TypeNameEntry(prefix: string, key: string, t: string, env: map<string, string>,
                      resolve: string -> Option<int>, v: Value)
    requires Present(env, EnvName(prefix, key)) && Known(t)
    requires Parse(t, env[EnvName(prefix, key)], None, resolve) == Ok(v)
    ensures Entry(prefix, key, TypeName(t), env, resolve) == Ok(v)
  {
  }

  /** An object declaration reads the variable its `env` names (or the
      derived one) and, once that variable is set, its `type` is known and its
      validator accepts, goes to the parser of its own `type` with its own
      `values`: the key's outcome is that parser's value, or the parser's
      message wrapped with the variable's name. */
  lemma DeclaredEntry(prefix: string, key: string, t: string, e: string, vs: Option<seq<string>>,
                      v: Option<string -> bool>, env: map<string, string>, resolve: string -> Option<int>)
    requires var name := if e != "" then e else EnvName(prefix, key);
      Present(env, name) && Known(t) && Passes(v, env[name])
    ensures var name := if e != "" then e else EnvName(prefix, key);
      var p := Parse(t, env[name], vs, resolve);
      Entry(prefix, key, Declared(t, e, vs, v), env, resolve)
        == (if p.Ok? then Ok(p.value) else Err(Invalid(name, p.error)))
  {
  }

  /** The example schema's string key. */
  lemma StringExample(prefix: string, key: string, raw: string, env: map<string, string>, resolve: string -> Option<int>)
    requires raw == "hello" && EnvName(prefix, key) in env && env[EnvName(prefix, key)] == raw
    ensures Entry(prefix, key, TypeName("string"), env, resolve) == Ok(Str("hello"))
  {
    TypeNameEntry(prefix, key, "string", env, resolve, Str(raw));
  }

  /** The example schema's boolean key. */
  lemma BooleanExample(prefix: string, key: string, raw: string, env: map<string, string>, resolve: string -> Option<int>)
    requires raw == "false" && EnvName(prefix, key) in env && env[EnvName(prefix, key)] == raw
    ensures Entry(prefix, key, TypeName("boolean"), env, resolve) == Ok(Bool(false))
  {
    BooleanFalseExamples(raw);
    TypeNameEntry(prefix, key, "boolean", env, resolve, Bool(false));
  }

  /** The example schema's integer key. */
  lemma IntegerExample(prefix: string, key: string, raw: string, env: map<string, string>, resolve: string -> Option<int>)
    requires raw == "1234" && EnvName(prefix, key) in env && env[EnvName(prefix, key)] == raw
    ensures Entry(prefix, key, TypeName("integer"), env, resolve) == Ok(Int(1234))
  {
    ExampleInteger(raw);
    TypeNameEntry(prefix, key, "integer", env, resolve, Int(1234));
  }

  /** The example schema's number key. */
  lemma NumberExample(prefix: string, key: string, raw: string, env: map<string, string>, resolve: string -> Option<int>)
    requires raw == "3.14" && EnvName(prefix, key) in env && env[EnvName(prefix, key)] == raw
    ensures Entry(prefix, key, TypeName("number"), env, resolve) == Ok(Num(Decimal(314, 2)))
  {
    ExampleNumber(raw);
    TypeNameEntry(prefix, key, "number", env, resolve, Num(Decimal(314, 2)));
  }

  /** The example schema's enum key. */
  lemma EnumExample(prefix: string, key: string, raw: string, members: seq<string>,
                    env: map<string, string>, resolve: string -> Option<int>)
    requires raw == "b" && members == ["a", "b", "c"]
    requires EnvName(prefix, key) in env && env[EnvName(prefix, key)] == raw
    ensures Entry(prefix, key, EnumValues(members), env, resolve) == Ok(Str("b"))
  {
    assert members[1] == raw;
  }

  /** A build in which every key succeeds yields the map from each key to
      its value, and nothing else. */
  lemma LoadAllOk(defs: seq<(string, Decl)>, vals: seq<Value>, expected: map<string, Value>,
                  env: map<string, string>, prefix: string, resolve: string -> Option<int>)
    requires |vals| == |defs| && DistinctKeys(defs)
    requires forall i :: 0 <= i < |defs| ==> Entry(prefix, defs[i].0, defs[i].1, env, resolve) == Ok(vals[i])
    requires forall i :: 0 <= i < |defs| ==> defs[i].0 in expected && expected[defs[i].0] == vals[i]
    requires forall k :: k in expected ==> exists i :: 0 <= i < |defs| && defs[i].0 == k
    ensures Load(defs, env, prefix, resolve) == Ok(expected)
  {
    var outs := Outcomes(defs, env, prefix, resolve);
    assert forall i :: 0 <= i < |defs| ==> outs[i] == (defs[i].0, Ok(vals[i]));
    forall k | k in expected ensures exists i :: 0 <= i < |outs| && outs[i].0 == k {
      var i :| 0 <= i < |defs| && defs[i].0 == k;
      assert outs[i].0 == k;
    }
    CollectBuilds(outs, expected);
  }

  /** The example schema, key by key. */
  lemma ScenarioEntries(defs: seq<(string, Decl)>, vals: seq<Value>, env: map<string, string>, prefix: string, resolve: string -> Option<int>)
    requires |defs| == 5
    requires defs[0].1 == TypeName("string") && defs[1].1 == TypeName("boolean") && defs[2].1 == TypeName("integer")
    requires defs[3].1 == TypeName("number") && defs[4].1 == EnumValues(["a", "b", "c"])
    requires vals == [Str("hello"), Bool(false), Int(1234), Num(Decimal(314, 2)), Str("b")]
    requires EnvName(prefix, defs[0].0) in env && env[EnvName(prefix, defs[0].0)] == "hello"
    requires EnvName(prefix, defs[1].0) in env && env[EnvName(prefix, defs[1].0)] == "false"
    requires EnvName(prefix, defs[2].0) in env && env[EnvName(prefix, defs[2].0)] == "1234"
    requires EnvName(prefix, defs[3].0) in env && env[EnvName(prefix, defs[3].0)] == "3.14"
    requires EnvName(prefix, defs[4].0) in env && env[EnvName(prefix, defs[4].0)] == "b"
    ensures forall i :: 0 <= i < |defs| ==> Entry(prefix, defs[i].0, defs[i].1, env, resolve) == Ok(vals[i])
  {
    forall i | 0 <= i < |defs| ensures Entry(prefix, defs[i].0, defs[i].1, env, resolve) == Ok(vals[i]) {
      if i == 0 { StringExample(prefix, defs[0].0, "hello", env, resolve); }
      else if i == 1 { BooleanExample(prefix, defs[1].0, "false", env, resolve); }
      else if i == 2 { IntegerExample(prefix, defs[2].0, "1234", env, resolve); }
      else if i == 3 { NumberExample(prefix, defs[3].0, "3.14", env, resolve); }
      else { EnumExample(prefix, defs[4].0, "b", ["a", "b", "c"], env, resolve); }
    }
  }

  /** The example configuration holds exactly the example keys, each with its value. */
  lemma ScenarioMap(defs: seq<(string, Decl)>, kStr: string, kBool: string, kInt: string, kNum: string, kEnm: string,
                    vals: seq<Value>, expected: map<string, Value>)
    requires defs == [(kStr, TypeName("string")), (kBool, TypeName("boolean")), (kInt, TypeName("integer")),
                      (kNum, TypeName("number")), (kEnm, EnumValues(["a", "b", "c"]))]
    requires DistinctKeys(defs)
    requires vals == [Str("hello"), Bool(false), Int(1234), Num(Decimal(314, 2)), Str("b")]
    requires expected == map[kStr := Str("hello"), kBool := Bool(false), kInt := Int(1234),
                             kNum := Num(Decimal(314, 2)), kEnm := Str("b")]
    ensures forall i :: 0 <= i < |defs| ==> defs[i].0 in expected && expected[defs[i].0] == vals[i]
    ensures forall k :: k in expected ==> exists i :: 0 <= i < |defs| && defs[i].0 == k
  {
    assert kStr != kBool && kStr != kInt && kStr != kNum && kStr != kEnm by {
      assert defs[0].0 != defs[1].0 && defs[0].0 != defs[2].0 && defs[0].0 != defs[3].0 && defs[0].0 != defs[4].0;
    }
    assert kBool != kInt && kBool != kNum && kBool != kEnm && kInt != kNum && kInt != kEnm && kNum != kEnm by {
      assert defs[1].0 != defs[2].0 && defs[1].0 != defs[3].0 && defs[1].0 != defs[4].0;
      assert defs[2].0 != defs[3].0 && defs[2].0 != defs[4].0 && defs[3].0 != defs[4].0;
    }
    forall i | 0 <= i < |defs| ensures defs[i].0 in expected && expected[defs[i].0] == vals[i] {
      if i == 0 {} else if i == 1 {} else if i == 2 {} else if i == 3 {} else {}
    }
    forall k | k in expected ensures exists i :: 0 <= i < |defs| && defs[i].0 == k {
      if k == kStr { assert defs[0].0 == k; }
      else if k == kBool { assert defs[1].0 == k; }
      else if k == kInt { assert defs[2].0 == k; }
      else if k == kNum { assert defs[3].0 == k; }
      else { assert defs[4].0 == k; }
    }
  }

  /** The example schema (keys STR, BOOL, INT, NUM and ENM in the documented
      scenario; any distinct keys here): with the example values under the
      prefix's variable names the build yields the example configuration,
      whatever the prefix. */
  lemma ScenarioLoads(defs: seq<(string, Decl)>, kStr: string, kBool: string, kInt: string, kNum: string, kEnm: string,
                      env: map<string, string>, prefix: string, resolve: string -> Option<int>)
    requires defs == [(kStr, TypeName("string")), (kBool, TypeName("boolean")), (kInt, TypeName("integer")),
                      (kNum, TypeName("number")), (kEnm, EnumValues(["a", "b", "c"]))]
    requires DistinctKeys(defs)
    requires EnvName(prefix, kStr) in env && env[EnvName(prefix, kStr)] == "hello"
    requires EnvName(prefix, kBool) in env && env[EnvName(prefix, kBool)] == "false"
    requires EnvName(prefix, kInt) in env && env[EnvName(prefix, kInt)] == "1234"
    requires EnvName(prefix, kNum) in env && env[EnvName(prefix, kNum)] == "3.14"
    requires EnvName(prefix, kEnm) in env && env[EnvName(prefix, kEnm)] == "b"
    ensures Load(defs, env, prefix, resolve) == Ok(map[kStr := Str("hello"), kBool := Bool(false), kInt := Int(1234),
                   kNum := Num(Decimal(314, 2)), kEnm := Str("b")])
  {
    var vals := [Str("hello"), Bool(false), Int(1234), Num(Decimal(314, 2)), Str("b")];
    var expected := map[kStr := Str("hello"), kBool := Bool(false), kInt := Int(1234),
                        kNum := Num(Decimal(314, 2)), kEnm := Str("b")];
    ScenarioMap(defs, kStr, kBool, kInt, kNum, kEnm, vals, expected);
    ScenarioEntries(defs, vals, env, prefix, resolve);
    LoadAllOk(defs, vals, expected, env, prefix, resolve);
  }
}

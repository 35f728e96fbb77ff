/** How the TypeScript loader relates to the JavaScript one: on declarations
    that are plain type names other than `duration` and `enum`, src/config.ts
    builds what lib/config.js (and so src/config.js) builds. */
module Equivalence {
  import opened Results
  import opened Parsers
  import opened Assemble
  import ConfigTs
  import ConfigLib

  /** A JavaScript definition read as a TypeScript one: each type name as a
      bare type-name declaration. */
  function Lift(defs: seq<(string, string)>): (lifted: seq<(string, ConfigTs.Decl)>)
    ensures |lifted| == |defs|
    ensures forall i :: 0 <= i < |defs| ==> lifted[i].0 == defs[i].0 && lifted[i].1 == ConfigTs.TypeName(defs[i].1)
  {
    seq(|defs|, i requires 0 <= i < |defs| => (defs[i].0, ConfigTs.TypeName(defs[i].1)))
  }

  /** Type names that both tables treat alike: every name but the two parsers
      only the TypeScript table has, and the inherited names the JavaScript
      tables would find. */
  predicate Shared(t: string)
  {
    t != "duration" && t != "enum" && !ConfigLib.Inherited(t)
  }

  /** The four primitive names are shared. */
  lemma PrimitiveShared(t: string)
    requires ConfigLib.Known(t)
    ensures Shared(t)
  {
  }

  /** Key by key, the two loaders give the same value or the same error. */
  lemma EntryMatches(prefix: string, key: string, t: string, env: map<string, string>, resolve: string -> Option<int>)
    requires Shared(t)
    ensures ConfigTs.Entry(prefix, key, ConfigTs.TypeName(t), env, resolve) == ConfigLib.Entry(prefix, key, t, env)
  {
    var k := EnvName(prefix, key);
    if Present(env, k) && ConfigLib.Known(t) {
      var raw := env[k];
      assert ConfigTs.Parse(t, raw, None, resolve) == ConfigLib.Parse(t, raw);
    }
  }

  /** The whole build: the same configuration or the same error. */
  lemma TsMatchesLib(defs: seq<(string, string)>, env: map<string, string>, prefix: string, resolve: string -> Option<int>)
    requires forall i :: 0 <= i < |defs| ==> Shared(defs[i].1)
    ensures ConfigLib.NoInherited(defs)
    ensures ConfigTs.Load(Lift(defs), env, prefix, resolve) == ConfigLib.Load(defs, env, prefix)
  {
    var lifted := Lift(defs);
    var o1, o2 := ConfigTs.Outcomes(lifted, env, prefix, resolve), ConfigLib.Outcomes(defs, env, prefix);
    forall i | 0 <= i < |defs| ensures o1[i] == o2[i] {
      EntryMatches(prefix, defs[i].0, defs[i].1, env, resolve);
    }
    assert o1 == o2;
  }

  /** The example definition of the tests, key by key, as TypeScript declarations. */
  lemma FixtureEntries(lifted: seq<(string, ConfigTs.Decl)>, vals: seq<Value>,
                       env: map<string, string>, prefix: string, resolve: string -> Option<int>)
    requires |lifted| == 4
    requires lifted[0].1 == ConfigTs.TypeName("string") && lifted[1].1 == ConfigTs.TypeName("boolean")
    requires lifted[2].1 == ConfigTs.TypeName("integer") && lifted[3].1 == ConfigTs.TypeName("number")
    requires vals == [Str("hello"), Bool(false), Int(1234), Num(Decimal(314, 2))]
    requires EnvName(prefix, lifted[0].0) in env && env[EnvName(prefix, lifted[0].0)] == "hello"
    requires EnvName(prefix, lifted[1].0) in env && env[EnvName(prefix, lifted[1].0)] == "false"
    requires EnvName(prefix, lifted[2].0) in env && env[EnvName(prefix, lifted[2].0)] == "1234"
    requires EnvName(prefix, lifted[3].0) in env && env[EnvName(prefix, lifted[3].0)] == "3.14"
    ensures forall i :: 0 <= i < |lifted| ==> ConfigTs.Entry(prefix, lifted[i].0, lifted[i].1, env, resolve) == Ok(vals[i])
  {
    forall i | 0 <= i < |lifted| ensures ConfigTs.Entry(prefix, lifted[i].0, lifted[i].1, env, resolve) == Ok(vals[i]) {
      if i == 0 { ConfigTs.StringExample(prefix, lifted[0].0, "hello", env, resolve); }
      else if i == 1 { ConfigTs.BooleanExample(prefix, lifted[1].0, "false", env, resolve); }
      else if i == 2 { ConfigTs.IntegerExample(prefix, lifted[2].0, "1234", env, resolve); }
      else { ConfigTs.NumberExample(prefix, lifted[3].0, "3.14", env, resolve); }
    }
  }

  /** The example configuration holds exactly the example keys, each with its value. */
  lemma FixtureMap(lifted: seq<(string, ConfigTs.Decl)>, kStr: string, kBool: string, kInt: string, kNum: string,
                   vals: seq<Value>, expected: map<string, Value>)
    requires lifted == [(kStr, ConfigTs.TypeName("string")), (kBool, ConfigTs.TypeName("boolean")),
                        (kInt, ConfigTs.TypeName("integer")), (kNum, ConfigTs.TypeName("number"))]
    requires DistinctKeys(lifted)
    requires vals == [Str("hello"), Bool(false), Int(1234), Num(Decimal(314, 2))]
    requires expected == map[kStr := Str("hello"), kBool := Bool(false), kInt := Int(1234), kNum := Num(Decimal(314, 2))]
    ensures forall i :: 0 <= i < |lifted| ==> lifted[i].0 in expected && expected[lifted[i].0] == vals[i]
    ensures forall k :: k in expected ==> exists i :: 0 <= i < |lifted| && lifted[i].0 == k
  {
    assert kStr != kBool && kStr != kInt && kStr != kNum && kBool != kInt && kBool != kNum && kInt != kNum by {
      assert lifted[0].0 != lifted[1].0 && lifted[0].0 != lifted[2].0 && lifted[0].0 != lifted[3].0;
      assert lifted[1].0 != lifted[2].0 && lifted[1].0 != lifted[3].0 && lifted[2].0 != lifted[3].0;
    }
    forall i | 0 <= i < |lifted| ensures lifted[i].0 in expected && expected[lifted[i].0] == vals[i] {
      if i == 0 {} else if i == 1 {} else if i == 2 {} else {}
    }
    forall k | k in expected ensures exists i :: 0 <= i < |lifted| && lifted[i].0 == k {
      if k == kStr { assert lifted[0].0 == k; }
      else if k == kBool { assert lifted[1].0 == k; }
      else if k == kInt { assert lifted[2].0 == k; }
      else { assert lifted[3].0 == k; }
    }
  }

  /** The example definition read as TypeScript declarations builds the
      example configuration. */
  lemma LiftedFixture(lifted: seq<(string, ConfigTs.Decl)>, kStr: string, kBool: string, kInt: string, kNum: string,
                      env: map<string, string>, prefix: string, resolve: string -> Option<int>)
    requires lifted == [(kStr, ConfigTs.TypeName("string")), (kBool, ConfigTs.TypeName("boolean")),
                        (kInt, ConfigTs.TypeName("integer")), (kNum, ConfigTs.TypeName("number"))]
    requires DistinctKeys(lifted)
    requires EnvName(prefix, kStr) in env && env[EnvName(prefix, kStr)] == "hello"
    requires EnvName(prefix, kBool) in env && env[EnvName(prefix, kBool)] == "false"
    requires EnvName(prefix, kInt) in env && env[EnvName(prefix, kInt)] == "1234"
    requires EnvName(prefix, kNum) in env && env[EnvName(prefix, kNum)] == "3.14"
    ensures ConfigTs.Load(lifted, env, prefix, resolve)
         == Ok(map[kStr := Str("hello"), kBool := Bool(false), kInt := Int(1234), kNum := Num(Decimal(314, 2))])
  {
    var vals := [Str("hello"), Bool(false), Int(1234), Num(Decimal(314, 2))];
    var expected := map[kStr := Str("hello"), kBool := Bool(false), kInt := Int(1234), kNum := Num(Decimal(314, 2))];
    FixtureMap(lifted, kStr, kBool, kInt, kNum, vals, expected);
    FixtureEntries(lifted, vals, env, prefix, resolve);
    ConfigTs.LoadAllOk(lifted, vals, expected, env, prefix, resolve);
  }

  /** The example definition of the tests (STR, BOOL, INT and NUM there; any
      distinct keys here) with the example values under the variable names of
      the prefix the module reads from the same environment gives the example
      configuration, for the default prefix `APP` and for a custom one such as
      `FOO` alike. */
  lemma LibFixture(defs: seq<(string, string)>, kStr: string, kBool: string, kInt: string, kNum: string,
                   env: map<string, string>, prefix: string)
    requires prefix == ConfigPrefix(env)
    requires defs == [(kStr, "string"), (kBool, "boolean"), (kInt, "integer"), (kNum, "number")]
    requires DistinctKeys(defs)
    requires EnvName(prefix, kStr) in env && env[EnvName(prefix, kStr)] == "hello"
    requires EnvName(prefix, kBool) in env && env[EnvName(prefix, kBool)] == "false"
    requires EnvName(prefix, kInt) in env && env[EnvName(prefix, kInt)] == "1234"
    requires EnvName(prefix, kNum) in env && env[EnvName(prefix, kNum)] == "3.14"
    ensures ConfigLib.NoInherited(defs)
    ensures ConfigLib.Load(defs, env, prefix)
         == Ok(map[kStr := Str("hello"), kBool := Bool(false), kInt := Int(1234), kNum := Num(Decimal(314, 2))])
  {
    forall i | 0 <= i < |defs| ensures Shared(defs[i].1) {
      PrimitiveShared(defs[i].1);
    }
    var lifted := Lift(defs);
    assert lifted == [(kStr, ConfigTs.TypeName("string")), (kBool, ConfigTs.TypeName("boolean")),
                      (kInt, ConfigTs.TypeName("integer")), (kNum, ConfigTs.TypeName("number"))];
    assert DistinctKeys(lifted);
    var resolve: string -> Option<int> := s => None;
    LiftedFixture(lifted, kStr, kBool, kInt, kNum, env, prefix, resolve);
    TsMatchesLib(defs, env, prefix, resolve);
  }
}

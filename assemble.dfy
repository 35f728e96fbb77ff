/** What the three loaders share around their parser tables: the name of the
    environment variable a key is read from, the two kinds of build error and
    their messages, and the declaration-ordered fold that turns the outcome of
    every key into either the whole configuration or the first error. */
module Assemble {
  import opened Results
  import opened Text
  import opened Parsers

  /** The two errors a build can end with. `Missing` is thrown outside the
      `try` block and so is reported unwrapped; every other failure is
      `Invalid`, carrying the message of the error that was caught. */
  datatype ConfigError =
    | Missing(envKey: string)
    | Invalid(envKey: string, reason: string)

  const MISSING_HEAD := "CONFIG: Environment variable "
  const MISSING_TAIL := " is missing"
  const INVALID_HEAD := "CONFIG: Error parsing environment variable "
  const INVALID_SEP := ": "

  /** The reason given for a declaration naming no parser. */
  const INVALID_TYPE := "Invalid type"

  /** The message of the thrown `Error`. */
  function Message(e: ConfigError): (m: string)
    ensures e.Missing? ==> |m| >= |MISSING_HEAD| && m[..|MISSING_HEAD|] == MISSING_HEAD
    ensures e.Invalid? ==> |m| >= |INVALID_HEAD| && m[..|INVALID_HEAD|] == INVALID_HEAD
    ensures var h := if e.Missing? then |MISSING_HEAD| else |INVALID_HEAD|;
      h + |e.envKey| <= |m| && m[h..h + |e.envKey|] == e.envKey
    ensures e.Missing? ==> |m| == |MISSING_HEAD| + |e.envKey| + |MISSING_TAIL|
    ensures e.Missing? ==> m[|m| - |MISSING_TAIL|..] == MISSING_TAIL
    ensures e.Invalid? ==> |m| == |INVALID_HEAD| + |e.envKey| + |INVALID_SEP| + |e.reason|
    ensures e.Invalid? ==> m[|INVALID_HEAD| + |e.envKey|..|INVALID_HEAD| + |e.envKey| + |INVALID_SEP|] == INVALID_SEP
    ensures e.Invalid? ==> m[|m| - |e.reason|..] == e.reason
  {
    match e
    case Missing(k) =>
      var m := MISSING_HEAD + k + MISSING_TAIL;
      assert m[..|MISSING_HEAD|] == MISSING_HEAD;
      assert m[|MISSING_HEAD|..|MISSING_HEAD| + |k|] == k;
      m
    case Invalid(k, reason) =>
      var m := INVALID_HEAD + k + INVALID_SEP + reason;
      assert m[..|INVALID_HEAD|] == INVALID_HEAD;
      assert m[|INVALID_HEAD|..|INVALID_HEAD| + |k|] == k;
      assert m[|INVALID_HEAD| + |k|..|INVALID_HEAD| + |k| + |INVALID_SEP|] == INVALID_SEP;
      m
  }

  /** A missing variable and a parse failure never produce the same message,
      and a missing-variable message determines the variable. */
  lemma MessagesDistinguish(k1: string, k2: string, reason: string)
    ensures Message(Missing(k1)) != Message(Invalid(k2, reason))
    ensures Message(Missing(k1)) == Message(Missing(k2)) ==> k1 == k2
  {
    var m1, m2 := Message(Missing(k1)), Message(Invalid(k2, reason));
    assert m1[..|MISSING_HEAD|][9] == 'n';
    assert m2[..|INVALID_HEAD|][9] == 'r';
    if Message(Missing(k1)) == Message(Missing(k2)) {
      var m3 := Message(Missing(k2));
      assert |m1| == |m3|;
    }
  }

  const PREFIX_VAR := "NODE_CONFIG_PREFIX"
  const DEFAULT_PREFIX := "APP"

  /** A variable counts as set only when it is defined and not empty
      (the loaders test `!value`). */
  predicate Present(env: map<string, string>, name: string)
  {
    name in env && env[name] != ""
  }

  /** `process.env.NODE_CONFIG_PREFIX || 'APP'`. */
  function ConfigPrefix(env: map<string, string>): (p: string)
    ensures p != ""
    ensures Present(env, PREFIX_VAR) ==> p == env[PREFIX_VAR]
    ensures !Present(env, PREFIX_VAR) ==> p == DEFAULT_PREFIX
  {
    if Present(env, PREFIX_VAR) then env[PREFIX_VAR] else DEFAULT_PREFIX
  }

  /** `(CONFIG_PREFIX + '_' + key).toUpperCase()`: the prefix and the key are
      each upper-cased and joined by `_`, and the name is already upper case. */
  function EnvName(prefix: string, key: string): (name: string)
    ensures name == Upper(prefix) + "_" + Upper(key)
    ensures Upper(name) == name
  {
    var name := Upper(prefix + "_" + key);
    assert name == Upper(prefix) + "_" + Upper(key) by {
      UpperConcat(prefix + "_", key);
      UpperConcat(prefix, "_");
      assert Upper("_") == "_";
    }
    assert Upper(name) == name by {
      UpperIdempotent(prefix + "_" + key);
    }
    name
  }

  /** The outcome of one declared key: its name and either its value or its error. */
  type Outcome = (string, Result<Value, ConfigError>)

  /** Adds one key's outcome to the configuration built so far: an earlier
      error stands, a new error replaces the configuration, a value is stored
      under the key (`config[key] = ...`). */
  function Step(acc: Result<map<string, Value>, ConfigError>, out: Outcome): (r: Result<map<string, Value>, ConfigError>)
    ensures acc.Err? ==> r == acc
    ensures acc.Ok? && out.1.Err? ==> r == Err(out.1.error)
    ensures r.Ok? <==> acc.Ok? && out.1.Ok?
    ensures r.Ok? ==> r.value.Keys == acc.value.Keys + {out.0} && r.value[out.0] == out.1.value
    ensures r.Ok? ==> forall k :: k in acc.value && k != out.0 ==> r.value[k] == acc.value[k]
  {
    match acc
    case Err(e) => Err(e)
    case Ok(config) =>
      match out.1
      case Err(e) => Err(e)
      case Ok(v) => Ok(config[out.0 := v])
  }

  /** The build loop over the outcomes in declaration order. */
  function Collect(outs: seq<Outcome>): (r: Result<map<string, Value>, ConfigError>)
    ensures r.Ok? ==> forall i :: 0 <= i < |outs| ==> outs[i].0 in r.value
  {
    if outs == [] then Ok(map[])
    else
      var n := |outs| - 1;
      assert forall i :: 0 <= i < n ==> outs[..n][i] == outs[i];
      Step(Collect(outs[..n]), outs[n])
  }

  /** The loop after `i + 1` keys is one step after the loop after `i` keys. */
  lemma CollectPrefixStep(outs: seq<Outcome>, i: int)
    requires 0 <= i < |outs|
    ensures Collect(outs[..i + 1]) == Step(Collect(outs[..i]), outs[i])
  {
    assert outs[..i + 1][..i] == outs[..i];
  }

  /** Once an error is thrown no later key is looked at. */
  lemma {:induction false} CollectErrSticky(outs: seq<Outcome>, i: int)
    requires 0 <= i <= |outs| && Collect(outs[..i]).Err?
    ensures Collect(outs) == Collect(outs[..i])
    decreases |outs| - i
  {
    if i < |outs| {
      CollectPrefixStep(outs, i);
      CollectErrSticky(outs, i + 1);
    } else {
      assert outs[..i] == outs;
    }
  }

  /** All or nothing: the build succeeds exactly when every key succeeds. */
  lemma {:induction false} CollectOk(outs: seq<Outcome>)
    ensures Collect(outs).Ok? <==> forall i :: 0 <= i < |outs| ==> outs[i].1.Ok?
  {
    if outs != [] {
      var n := |outs| - 1;
      CollectOk(outs[..n]);
      assert forall i :: 0 <= i < n ==> outs[..n][i] == outs[i];
    }
  }

  /** The first failing key in declaration order decides the error. */
  lemma CollectFirstError(outs: seq<Outcome>, i: int)
    requires 0 <= i < |outs| && outs[i].1.Err?
    requires forall j :: 0 <= j < i ==> outs[j].1.Ok?
    ensures Collect(outs) == Err(outs[i].1.error)
  {
    CollectOk(outs[..i]);
    assert forall j :: 0 <= j < i ==> outs[..i][j] == outs[j];
    CollectPrefixStep(outs, i);
    CollectErrSticky(outs, i + 1);
  }

  /** Conversely, the error of a failed build is the error of some key all of
      whose predecessors succeeded. */
  lemma {:induction false} CollectErrorIsFirst(outs: seq<Outcome>)
    requires Collect(outs).Err?
    ensures exists i :: (0 <= i < |outs| && outs[i].1 == Err(Collect(outs).error)
      && forall j :: 0 <= j < i ==> outs[j].1.Ok?)
  {
    var n := |outs| - 1;
    assert forall j :: 0 <= j < n ==> outs[..n][j] == outs[j];
    if Collect(outs[..n]).Err? {
      CollectErrorIsFirst(outs[..n]);
      var i :| 0 <= i < n && outs[..n][i].1 == Err(Collect(outs[..n]).error)
        && forall j :: 0 <= j < i ==> outs[..n][j].1.Ok?;
      assert outs[i].1 == Err(Collect(outs).error);
    } else {
      CollectOk(outs[..n]);
      assert outs[n].1 == Err(Collect(outs).error);
    }
  }

  /** The keys of a built configuration are exactly the declared keys. */
  lemma {:induction false} CollectKeys(outs: seq<Outcome>)
    requires Collect(outs).Ok?
    ensures Collect(outs).value.Keys == set i | 0 <= i < |outs| :: outs[i].0
  {
    if outs != [] {
      var n := |outs| - 1;
      CollectKeys(outs[..n]);
      KeySetSnoc(outs, outs[..n]);
    }
  }

  /** The keys of a non-empty run are those of all but its last outcome,
      and the last outcome's key. */
  lemma KeySetSnoc(outs: seq<Outcome>, front: seq<Outcome>)
    requires outs != [] && front == outs[..|outs| - 1]
    ensures (set i | 0 <= i < |outs| :: outs[i].0)
         == (set i | 0 <= i < |front| :: front[i].0) + {outs[|outs| - 1].0}
  {
    var n := |front|;
    var whole, keys := set i | 0 <= i < |outs| :: outs[i].0, set i | 0 <= i < n :: front[i].0;
    forall k | k in whole ensures k in keys + {outs[n].0} {
      var i :| 0 <= i < |outs| && outs[i].0 == k;
      if i < n { assert front[i].0 == k; }
    }
    forall k | k in keys ensures k in whole {
      var i :| 0 <= i < n && front[i].0 == k;
      assert outs[i].0 == k;
    }
  }

  /** Outcomes listed key by key along a definition have the definition's keys. */
  lemma SameKeys<D>(defs: seq<(string, D)>, outs: seq<Outcome>)
    requires |defs| == |outs| && forall i :: 0 <= i < |outs| ==> outs[i].0 == defs[i].0
    ensures (set i | 0 <= i < |outs| :: outs[i].0) == (set i | 0 <= i < |defs| :: defs[i].0)
  {
    var built, declared := set i | 0 <= i < |outs| :: outs[i].0, set i | 0 <= i < |defs| :: defs[i].0;
    forall k | k in declared ensures k in built {
      var i :| 0 <= i < |defs| && defs[i].0 == k;
      assert outs[i].0 == k;
    }
  }

  /** No key is listed twice (the own keys of an object). */
  predicate DistinctKeys<D>(ps: seq<(string, D)>)
  {
    forall i, j :: 0 <= i < j < |ps| ==> ps[i].0 != ps[j].0
  }

  /** With distinct keys (an object's own keys), each key is mapped to its
      own parsed value. */
  lemma {:induction false} CollectValues(outs: seq<Outcome>)
    requires DistinctKeys(outs) && Collect(outs).Ok?
    ensures forall i :: 0 <= i < |outs| ==>
      outs[i].1.Ok? && outs[i].0 in Collect(outs).value && Collect(outs).value[outs[i].0] == outs[i].1.value
  {
    if outs != [] {
      var n := |outs| - 1;
      var front := outs[..n];
      assert forall i :: 0 <= i < n ==> front[i] == outs[i];
      CollectValues(front);
      CollectKeys(front);
      CollectOk(outs);
    }
  }

  /** Two maps that hold the same value under each key of `outs`, and no
      other key, are equal. */
  lemma SameMap(outs: seq<Outcome>, m: map<string, Value>, expected: map<string, Value>)
    requires forall i :: 0 <= i < |outs| ==>
      outs[i].1.Ok? && outs[i].0 in m && m[outs[i].0] == outs[i].1.value
    requires forall i :: 0 <= i < |outs| ==> outs[i].0 in expected && expected[outs[i].0] == outs[i].1.value
    requires m.Keys == set i | 0 <= i < |outs| :: outs[i].0
    requires forall k :: k in expected ==> exists i :: 0 <= i < |outs| && outs[i].0 == k
    ensures m == expected
  {
    forall k | k in expected ensures k in m && m[k] == expected[k] {
      var i :| 0 <= i < |outs| && outs[i].0 == k;
    }
    assert m.Keys == expected.Keys;
  }

  /** A run in which every key succeeds, with distinct keys, builds exactly
      the map from each key to its value. */
  lemma CollectBuilds(outs: seq<Outcome>, expected: map<string, Value>)
    requires DistinctKeys(outs)
    requires forall i :: 0 <= i < |outs| ==>
      outs[i].1.Ok? && outs[i].0 in expected && expected[outs[i].0] == outs[i].1.value
    requires forall k :: k in expected ==> exists i :: 0 <= i < |outs| && outs[i].0 == k
    ensures Collect(outs) == Ok(expected)
  {
    CollectOk(outs);
    CollectValues(outs);
    CollectKeys(outs);
    SameMap(outs, Collect(outs).value, expected);
  }

  /** Two runs whose keys agree, and whose outcomes agree on success and on
      the value, agree on success and on the configuration built. */
  lemma {:induction false} CollectAgree(o1: seq<Outcome>, o2: seq<Outcome>)
    requires |o1| == |o2|
    requires forall i :: 0 <= i < |o1| ==> o1[i].0 == o2[i].0 && o1[i].1.Ok? == o2[i].1.Ok?
    requires forall i :: 0 <= i < |o1| && o1[i].1.Ok? ==> o1[i].1.value == o2[i].1.value
    ensures Collect(o1).Ok? == Collect(o2).Ok?
    ensures Collect(o1).Ok? ==> Collect(o1) == Collect(o2)
  {
    if o1 != [] {
      var n := |o1| - 1;
      assert forall i :: 0 <= i < n ==> o1[..n][i] == o1[i] && o2[..n][i] == o2[i];
      CollectAgree(o1[..n], o2[..n]);
    }
  }
}

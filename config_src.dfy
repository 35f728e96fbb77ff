/** The ES2015 copy of the JavaScript loader (src/config.js). Its parser
    table (lines 16-31) holds the same four parsers as lib/config.js, so the
    model reuses `ConfigLib.Parse`; its loop is modelled here on its own and
    proved to build exactly what lib/config.js builds. */
module ConfigSrc {
  import opened Results
  import opened Parsers
  import opened Assemble
  import ConfigLib

  /** The `for...in` loop of src/config.js:33-52. For every definition,
      environment and prefix it returns the configuration, or the error,
      that lib/config.js returns. */
  method Build(defs: seq<(string, string)>, env: map<string, string>, prefix: string)
    returns (r: Result<map<string, Value>, ConfigError>)
    requires ConfigLib.NoInherited(defs)
    ensures r == ConfigLib.Load(defs, env, prefix)
  {
    ghost var outs := ConfigLib.Outcomes(defs, env, prefix);
    var config: map<string, Value> := map[];
    var i := 0;
    while i < |defs|
      invariant 0 <= i <= |defs|
      invariant Collect(outs[..i]) == Ok(config)
    {
      var key := defs[i].0;
      assert outs[i] == (key, ConfigLib.Entry(prefix, key, defs[i].1, env));
      CollectPrefixStep(outs, i);
      var envKey := EnvName(prefix, key);
      if !(envKey in env) || env[envKey] == "" {
        CollectErrSticky(outs, i + 1);
        return Err(Missing(envKey));
      }
      var value := env[envKey];
      var t := defs[i].1;
      if !ConfigLib.Known(t) {
        CollectErrSticky(outs, i + 1);
        return Err(Invalid(envKey, INVALID_TYPE));
      }
      var parsed := ConfigLib.Parse(t, value);
      if parsed.Err? {
        CollectErrSticky(outs, i + 1);
        return Err(Invalid(envKey, parsed.error));
      }
      config := config[key := parsed.value];
      i := i + 1;
    }
    assert outs[..i] == outs;
    return Ok(config);
  }
}

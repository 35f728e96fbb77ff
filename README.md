# node-config-env, modelled in Dafny

This project models a schema-driven environment-variable loader for Node.js,
together with its `Duration` value type. A definition maps each configuration
key to a declaration. For every key, in declaration order, the loader:

1. derives the variable name `(PREFIX + "_" + key).toUpperCase()`, where the
   prefix is `NODE_CONFIG_PREFIX` or `APP`;
2. reads the variable and fails, unwrapped, when it is unset or empty;
3. fails when the declared type names no parser;
4. runs the key's validator, if any (TypeScript loader only);
5. hands the raw string to the parser for that type.

Every failure after step 2 is wrapped as
`CONFIG: Error parsing environment variable <name>: <reason>`. The first
failure ends the build and no configuration is produced. Otherwise the
result is the frozen map from each declared key to its parsed value.

The repository holds the loader three times:

- `src/config.ts` has six parsers and three forms of declaration: a type
  name, an array (an enum), or an object with `type`, `env`, `values` and
  `validator`.
- `lib/config.js`, the file the tests load, has four parsers. A declaration
  there is just a type name.
- `src/config.js` is the ES2015 source of `lib/config.js`.

Modules, one per file:

| module | file | contents |
|---|---|---|
| `Results` | results.dfy | `Option`, `Result` |
| `Text` | text.dfy | ASCII digits and their base-10 value, ASCII upper-casing, case-insensitive occurrence (the `i` regex flag) |
| `Patterns` | patterns.dfy | the integer, number and boolean regular expressions as predicates on strings |
| `Durations` | durations.dfy | `Duration` as a non-zero millisecond count, its two constructors and six rounded accessors |
| `Parsers` | parsers.dfy | the parser table and the values it produces |
| `Assemble` | assemble.dfy | variable names, the two build errors and their messages, and the declaration-ordered fold that keeps the first error |
| `ConfigTs` | config_ts.dfy | the loader of `src/config.ts` |
| `ConfigLib` | config_lib.dfy | the loader of `lib/config.js` |
| `ConfigSrc` | config_src.dfy | the loop of `src/config.js`, proved to build what `lib/config.js` builds |
| `Equivalence` | equivalence.dfy | the TypeScript loader agrees with the JavaScript one on primitive type names |

Each build loop is a method `Build` with a `while` loop over the definition.
It fills `config` key by key and returns at the first failure. It is proved
to return `Load`, a function that folds every key's `Entry` (the outcome of
one iteration) with `Assemble.Collect`. The all-or-nothing, first-failure,
key-set and value properties are proved about `Collect` and `Load`.

The boolean regexes are modelled as written. In `/^true|yes|y|1$/i`,
alternation binds loosest, so the pattern means "starts with `true`, or
contains `yes`, or contains `y`, or ends with `1`". A stricter reading would
say that any string outside the ten listed spellings fails to parse. The
code does not do this: `FALSEY` and `deny` are true and `on` is false
(`Parsers.BooleanLooseMatches`). The model follows the code.

## Model

| member | source | states |
|---|---|---|
| `Text.ContainsCI` | src/config.ts:25-26 | the left-to-right search for an unanchored, case-insensitive regex alternative succeeds exactly when the word occurs somewhere in the input |
| `Text.Upper` | src/config.ts:69 | `toUpperCase` keeps the length and upper-cases each character in place |
| `Text.DigitsValue` | src/config.ts:30 | the base-10 value of n digits is below 10^n |
| `Text.DigitsValueConcat` | src/config.ts:30 | reading digits `a` then `b` gives value(a) * 10^\|b\| + value(b) |
| `Patterns.IntegerPattern` | src/config.ts:18 | the integer regex accepts exactly a non-empty digit string, or a `+` or `-` followed by one |
| `Patterns.IntegerValue` | src/config.ts:30 | `parseInt(s, 10)` on an accepted string: its magnitude is below 10^(number of digits), it is negative only under a leading `-`, and a leading `-` never gives a positive value |
| `Patterns.NumberPattern` | src/config.ts:19 | the number regex holds exactly when the maximal leading digit run (after the sign) is non-empty and is followed by nothing or by `.` and digits only |
| `Patterns.TruePattern` | src/config.ts:25 | the true regex as written, alternation binding loosest: starts with `true`, contains `yes` or `y`, or ends with `1`, ignoring ASCII case; it carries no contract of its own, and `Patterns.TruePatternSimplified` states what it accepts |
| `Patterns.FalsePattern` | src/config.ts:26 | the false regex as written: starts with `false`, contains `no` or `n`, or ends with `0`, ignoring ASCII case; it carries no contract of its own, and `Patterns.FalsePatternSimplified` states what it accepts |
| `Patterns.TruePatternSimplified` | src/config.ts:25 | the true regex as written holds exactly when the input starts with `true`, contains a `y`, or ends with `1`, ignoring case (`yes` is subsumed) |
| `Patterns.FalsePatternSimplified` | src/config.ts:26 | the false regex as written holds exactly when the input starts with `false`, contains an `n`, or ends with `0`, ignoring case |
| `Patterns.SplitIsLeading` | src/config.ts:19 | a string accepted by the number regex splits only one way: the integer part is the maximal run of leading digits |
| `Patterns.IntegerIsNumber` | src/config.ts:18-19 | every string the integer regex accepts is accepted by the number regex, with no fractional part |
| `Durations.FromNumber` | src/Duration.ts:8-15 | construction from a number succeeds exactly when it is non-zero, stores it unchanged, and otherwise fails with `Cannot convert to duration` |
| `Durations.FromString` | src/Duration.ts:12-14 | construction from a string succeeds exactly when the `ms` resolution is a non-zero number, and stores that number |
| `Durations.YearIsExact` | src/Duration.ts:18-22 | the year factor, 365.25 days, is the whole number 31557600000 ms |
| `Durations.RoundDiv` | src/Duration.ts:30-34 | `Math.round(n / f)`: the result r satisfies f(2r-1) <= 2n < f(2r+1), i.e. the nearest integer with halves rounded up |
| `Durations.NearestUnique` | src/Duration.ts:30-34 | that rounding condition leaves exactly one result, so each accessor is determined |
| `Durations.AsMilliseconds` | src/Duration.ts:29 | returns the stored count, which is never 0 |
| `Durations.AsSeconds` | src/Duration.ts:30 | the count divided by 1000, rounded as `Math.round` rounds |
| `Durations.AsMinutes` | src/Duration.ts:31 | the count divided by 60000, rounded as `Math.round` rounds |
| `Durations.AsHours` | src/Duration.ts:32 | the count divided by 3600000, rounded as `Math.round` rounds |
| `Durations.AsDays` | src/Duration.ts:33 | the count divided by 86400000, rounded as `Math.round` rounds |
| `Durations.AsYears` | src/Duration.ts:34 | the count divided by 31557600000, rounded as `Math.round` rounds |
| `Durations.MillisecondsRoundTrip` | src/Duration.ts:9-10 | building from a non-zero count and reading milliseconds back gives the count |
| `Durations.TwoDays` | src/Duration.ts:18-33 | 172800000 ms reads as 172800 s, 2880 min, 48 h and 2 days |
| `Durations.TwoYears` | src/Duration.ts:21-34 | 63115200000 ms reads as 731 days (730.5 rounds up) and 2 years |
| `Parsers.ParseBoolean` | src/config.ts:24-28 | true exactly when the true regex holds; false exactly when it does not and the false regex holds; otherwise `Cannot convert to a boolean` |
| `Parsers.ParseInteger` | src/config.ts:29-32 | succeeds exactly when the integer regex accepts the input, with the signed base-10 value; otherwise `Cannot convert to an integer` |
| `Parsers.ParseNumber` | src/config.ts:33-36 | succeeds exactly when the number regex accepts the input; otherwise `Cannot convert to a number` |
| `Parsers.ParseDuration` | src/config.ts:37-40 | an integer string becomes that many milliseconds and 0 fails; any other string goes to the `ms` resolution; failures carry `Cannot convert to duration` |
| `Parsers.IndexOf` | src/config.ts:42 | `indexOf`: the first position holding the value, or -1 exactly when it is absent |
| `Parsers.ParseEnum` | src/config.ts:41-44 | succeeds exactly when the value is a member of the list, returns it unchanged, and otherwise fails with `Value not found in enumeration values` |
| `Parsers.IntegerRoundTrip` | src/config.ts:30 | printing any integer in decimal and parsing it back gives the integer |
| `Parsers.IntegerOfDigits` | src/config.ts:18 | an optional sign followed by one or more digits parses to the signed value of the digits |
| `Parsers.NumberExtendsInteger` | src/config.ts:33-34 | every integer the integer parser accepts is accepted by the number parser with the same value |
| `Parsers.NumberOfDecimal` | src/config.ts:34 | sign, digits, `.`, digits denotes the integer and fraction digits read together, over 10^(number of fraction digits) |
| `Parsers.DurationOfIntegerText` | src/config.ts:38 | the decimal text of n is a duration exactly when n is non-zero, negatives included, and holds n milliseconds |
| `Parsers.BooleanTrueExamples` | test/test.js:72-79 | `true`, `TRUE`, `yes`, `y` and `1` parse to true |
| `Parsers.BooleanFalseExamples` | test/test.js:81-88 | `false`, `FALSE`, `no`, `n` and `0` parse to false |
| `Parsers.BooleanRejectsHello` | test/test.js:68-70 | `hello` fails with the boolean error |
| `Parsers.BooleanLooseMatches` | lib/config.js:21-22 | because alternation binds loosest, `FALSEY` and `deny` are true and `on` is false |
| `Parsers.IntegerRejects` | test/test.js:94-97 | `hello` and `123.45` fail with the integer error |
| `Parsers.IntegerAccepts` | test/test.js:99-106 | `0`, `+123` and `-456789` parse to 0, 123 and -456789 |
| `Parsers.NumberRejects` | test/test.js:112-115 | `hello` and `123.hello` fail with the number error |
| `Parsers.NumberAcceptsPositive` | test/test.js:117-124 | `+123.45` parses to 12345 / 10^2 |
| `Parsers.NumberAcceptsNegative` | test/test.js:118-122 | `-678.9` parses to -6789 / 10^1 |
| `Parsers.ExampleInteger` | test/test.js:134-139 | `1234` parses to 1234 |
| `Parsers.ExampleNumber` | test/test.js:135-140 | `3.14` parses to 314 / 10^2 |
| `Assemble.Message` | src/config.ts:84-96 | the missing message is exactly the missing head, the variable and ` is missing` (its length is the sum of the three); the parse message is exactly the parse head, the variable, `: ` and the reason |
| `Assemble.MessagesDistinguish` | lib/config.js:42-50 | a missing-variable message never equals a parse-error message, and it determines the variable |
| `Assemble.ConfigPrefix` | src/config.ts:8 | the prefix is `NODE_CONFIG_PREFIX` when set and non-empty, otherwise `APP`; it is never empty |
| `Assemble.EnvName` | src/config.ts:69 | the name is the upper-cased prefix, `_`, and the upper-cased key; it is its own upper case |
| `Assemble.Step` | src/config.ts:93-95 | one iteration of the loop: an earlier error stands; a new error replaces the configuration; a value adds its key, with that value, and leaves every other key as it was |
| `Assemble.Collect` | src/config.ts:66-99 | the loop over all outcomes: a built configuration holds every visited key |
| `Assemble.CollectErrSticky` | src/config.ts:84-96 | once a key has failed, no later key changes the outcome |
| `Assemble.CollectOk` | lib/config.js:37-52 | the build succeeds exactly when every key succeeds |
| `Assemble.CollectFirstError` | lib/config.js:41-50 | the first failing key decides the error |
| `Assemble.CollectErrorIsFirst` | src/config.ts:68-97 | a failed build's error is that of a key all of whose predecessors succeeded |
| `Assemble.CollectKeys` | src/config.ts:93 | a built configuration's keys are exactly the keys visited |
| `Assemble.CollectValues` | lib/config.js:48 | with distinct keys, each key is mapped to its own parsed value |
| `Assemble.CollectAgree` | src/config.js:35-50 | two runs whose keys and successes agree, and whose values agree, build the same configuration |
| `Assemble.CollectBuilds` | src/config.ts:93-99 | a run where every key succeeds builds exactly the map from each key to its value |
| `ConfigTs.Normalize` | src/config.ts:69-80 | the derived name unless an object declaration has a non-empty `env`, which is taken verbatim; a type name is its own type with no values; an array is an enum over its elements; an object's `type`, `values` and `validator` are its own fields; only objects carry a validator |
| `ConfigTs.Parse` | src/config.ts:21-44 | each of the six table entries yields what its parser yields: string is the identity; boolean, integer, number and duration carry their parser's value and fail with its message; enum succeeds exactly on a member of `values` and fails with `Value not found in enumeration values`, or with the `TypeError` when `values` is absent |
| `ConfigTs.Entry` | src/config.ts:68-96 | one iteration: an error names the variable that was read, and a value comes only from a set variable |
| `ConfigTs.EntryMeaning` | src/config.ts:82-96 | a key's checks run in order: missing (unwrapped), then `Invalid type`, then the validator, then the parser, each later error wrapped with the variable name; a value comes exactly when all pass |
| `ConfigTs.Load` | src/config.ts:66-99 | the build succeeds exactly when every key succeeds, and then holds exactly the declared keys |
| `ConfigTs.Build` | src/config.ts:66-99 | the imperative loop returns exactly `Load` |
| `ConfigTs.FirstFailureDecides` | src/config.ts:68-97 | the first failing key in declaration order decides the error; later keys are never looked at |
| `ConfigTs.MissingFailsLoad` | src/config.ts:84-86 | an unset or empty variable fails the build, with the missing error when the earlier keys succeed |
| `ConfigTs.ValidatorVeto` | src/config.ts:90-92 | a rejecting validator fails the key with the wrapped validator message, whatever the parser would say |
| `ConfigTs.OverrideIgnoresPrefix` | src/config.ts:78 | a key with a non-empty `env` override has the same outcome under every prefix |
| `ConfigTs.LoadValues` | src/config.ts:93 | each declared key maps to the value its parser produced |
| `ConfigTs.TypeNameEntry` | src/config.ts:71-93 | a type-name declaration with its variable set yields whatever that type's parser made of it |
| `ConfigTs.DeclaredEntry` | src/config.ts:76-95 | an object declaration reads the variable its `env` names (or the derived one) and, with the variable set, a known `type` and an accepting validator, yields the value of its own `type`'s parser given its own `values`, or that parser's message wrapped with the variable's name |
| `ConfigTs.LoadAllOk` | src/config.ts:66-99 | when every key yields its value, the build is exactly the map of those values |
| `ConfigTs.ScenarioLoads` | src/config.ts:66-99 | the five-key schema (string, boolean, integer, number, enum `[a,b,c]`) with `hello`, `false`, `1234`, `3.14`, `b` builds `{hello, false, 1234, 3.14, b}` for any prefix |
| `ConfigLib.Parse` | lib/config.js:16-33 | each of the four table entries yields what its parser yields: string is the identity; boolean, integer and number carry their parser's value and fail with its message |
| `ConfigLib.Entry` | lib/config.js:37-51 | one iteration: an error names the derived variable, and a value comes only from a set variable |
| `ConfigLib.EntryMeaning` | lib/config.js:37-51 | missing first (unwrapped, and exactly when the variable is unset or empty), then `Invalid type` (wrapped), then the parser, whose message is wrapped with the variable name; a value comes exactly from a set variable, a known type and an accepting parser |
| `ConfigLib.StringIsIdentity` | lib/config.js:17-19 | the `string` type yields the raw variable unchanged |
| `ConfigLib.Load` | lib/config.js:35-54 | the build succeeds exactly when every key succeeds, and then holds exactly the declared keys |
| `ConfigLib.Build` | lib/config.js:37-52 | the imperative loop returns exactly `Load` |
| `ConfigLib.FirstFailureDecides` | lib/config.js:46-50 | the first failing key in declaration order decides the error |
| `ConfigLib.MissingFailsLoad` | lib/config.js:39-43 | an unset or empty variable fails the build whatever its type, with the unwrapped missing error when the earlier keys succeed |
| `ConfigLib.UnknownTypeFailsLoad` | lib/config.js:45-50 | a set variable whose type names no parser fails the build, with the wrapped `Invalid type` when the earlier keys succeed |
| `ConfigLib.LoadValues` | lib/config.js:48 | each declared key maps to the value its parser produced |
| `ConfigLib.PrefixIndependent` | lib/config.js:6-38 | two environments holding the same values under two prefixes' names succeed together and build the same configuration |
| `ConfigSrc.Build` | src/config.js:33-52 | for every definition, environment and prefix, the ES2015 loop returns what `lib/config.js` returns; the parser table of src/config.js:16-31 is the same as that of `lib/config.js` and is modelled by reusing `ConfigLib.Known` and `ConfigLib.Parse`, so that part of the agreement is by construction, and only the loop is proved |
| `Equivalence.EntryMatches` | src/config.ts:82-96 | on a type name other than `duration` and `enum`, one key has the same outcome under the TypeScript and the JavaScript loader |
| `Equivalence.TsMatchesLib` | src/config.js:35-50 | on such definitions the TypeScript loader builds exactly what the JavaScript loader builds, errors included |
| `Equivalence.LibFixture` | test/test.js:127-159 | the test schema (string, boolean, integer, number) with `hello`, `false`, `1234`, `3.14` under the names of the prefix read from the environment builds `{hello, false, 1234, 3.14}`, under the default prefix and a custom one alike |

## Left out

- Module-load I/O is not modelled. This covers resolving `NODE_CONFIG_PATH`, `require` of the definition file, its load error, and reading the process environment. The definition, the environment and the prefix are parameters. `Assemble.ConfigPrefix` states how the prefix is chosen.
- The `ms` library (typings/ms.d.ts) is a parameter `resolve: string -> Option<int>`. `None` stands for a result that is not a number. An integer result cannot represent the fractional counts `ms` returns for inputs such as `1.5ms`, so a duration holding a fraction of a millisecond is not modelled.
- Parsers.ParseNumber: the value is the text's digits and scale, `Decimal(mantissa, scale)`, not normalised: `3.14` and `3.140` give unequal values although `parseFloat` returns the same number for both, and `parseFloat` would also round to the nearest double. `parseInt` and the duration accessors use unbounded integers, so JavaScript's double precision limits are not modelled.
- Text.Upper: `toUpperCase` is modelled for ASCII letters only. Other characters are left unchanged.
- ConfigLib.Load: the JavaScript parser tables are plain objects, so a type such as `toString` finds an inherited function. The model requires that no declaration names an `Object.prototype` property (`ConfigLib.NoInherited`). `ConfigLib.Build` and `ConfigSrc.Build` carry the same requirement.
- ConfigLib.Entry: requires `!Inherited(t)` for the declared type, for the same reason as `ConfigLib.Load`; an inherited name would reach an `Object.prototype` function instead of a parser.
- ConfigLib.EntryMeaning: carries the same `!Inherited(t)` requirement as `ConfigLib.Entry`.
- `Object.freeze`, and the failed assignment the tests expect, are modelled by the configuration being an immutable `map` value.
- The `asX` and `toX` accessors are one function object per unit, so each pair is one Dafny function. Attaching them through `prototype` is not modelled.
- `for...in` order is taken to be the definition's sequence order, with distinct keys. Inherited enumerable keys of the definition object are not modelled.
- Validators are total, pure `string -> bool` functions. A validator that throws is not modelled.
- ConfigTs.Parse: an enum declared without `values` fails, here with the current V8 wording of the `TypeError` (`NO_VALUES_ERROR`). Other engines, and Node releases before 16.9, word it differently.
- A `null` declaration in `src/config.ts` is not modelled. It would throw outside the `try` block. A structured declaration without `type` reads as an unknown type name, which is what `parsers[undefined]` gives. A non-array `values` is not modelled.
- Declarations in `lib/config.js` are modelled as strings. JavaScript would coerce any other value to a property name.
- The commented-out `addDurationParser` block (src/config.ts:47-63) is dead code and is not modelled.
- The test harness (environment snapshots, the `require` cache) is not modelled. Its expected values appear as the example lemmas.

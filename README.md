# The Detox `test` command, modelled in Dafny

Detox's `detox test` command runs an end-to-end test suite with the test
runner named in the project configuration. This project models the command's
decision logic and proves properties about it:

- **Runner selection.** The runner is Mocha if its name mentions `mocha`,
  otherwise Jest if it mentions `jest`. Any other name is refused before
  anything is launched or reset.
- **Argument builders.** `prepareMochaArgs` and `prepareJestArgs` turn the
  CLI configuration, the runner's configuration file and the platform into
  the runner's flags and the environment variables passed to it.
- **Launch with retries.** The runner is relaunched while retries remain.
  Each relaunch runs only the specs listed in the failed-tests file the
  previous launch left behind.
- **Jest flag repair.** A boolean Jest flag that swallowed a spec path
  (`--no-color e2e/a.spec.js`) gets its boolean back. The path moves to the
  front of the positional list `_`. The set of boolean flags comes from
  Jest's option table, names and aliases both.
- **Helpers.** The other platform's spec tag, the one-line rendering of the
  environment that is logged before a launch, and the choice of the device
  lock file that is reset before the first launch.

JavaScript values are a tagged union (`JsValues.JsValue`), with ECMAScript
truthiness, `isFinite`, loose equality with 1 and template-string
conversion. Objects keep the insertion order of their keys
(`JsObjects.JsObject`), because that order decides what is printed and
what the runner receives. The keys here are option and variable names, never
array indices, which `Object.entries` would list first. The object-literal
builders are functions. The loops of the source (`fixJestSingletonFlags`, `collectIgnoredArgs`, the
retry `do/while`) are methods with loop invariants, each proved against a
specification function. The lemmas state the properties about those
functions.

Launching a process is an oracle. `launch(i)` is the outcome of the `i`-th
launch. A failed launch carries the error it threw and the text of the
failed-tests file. `Date.now()` is the parameter `now`.

Where the code as written cannot run, the model follows its evident intent:

- `prepareJestArgs` tests `jestReportSpecsArg`, which is not declared
  (detox/local-cli/test.js:112). The model tests `cliConfig.jestReportSpecs`,
  the value the other branch reads.
- The failed-tests file is read through `environment`, which test.js does not
  import (line 133). The model takes the file's text from the launch outcome.
- The launched process gets `detoxEnvironmentVariables`, which is not
  defined (line 158). The model treats the builder's `env` as the runner's
  environment.
- Neither builder returns `specs`, and neither builds an `argv._`, yet
  line 146 spreads both. The model starts both lists empty. It keeps `_` out
  of the flags object: line 147 spreads the flags after `_`, so an own `_`
  there would replace the combined list and drop the specs.

Three behaviours of the code as written are easy to miss, and the model
keeps them:

- Mocha's `--grep` is present only for `ios` and `android`: for any other
  non-empty platform `getPlatformSpecificString` gives `undefined`, while
  `--invert` is still set.
- Jest's `--color` is always passed, as `!noColor`.
- An empty failed-tests file does not stop the retries. `"".split('\n')` is
  `[""]`, so the relaunch runs the single spec `""`.

## Model

| member | source | states |
|---|---|---|
| JsValues.OrUndefined | detox/local-cli/test.js:55-75 | `x \|\| undefined` is present exactly when `x` is truthy, and then is `x` |
| JsValues.TrueOrUndefined | detox/local-cli/test.js:56-63 | `Boolean(x) \|\| undefined` is present exactly when `x` is truthy, and then is `true` |
| JsValues.NumberStringRoundTrip | detox/local-cli/utils/misc.js:27 | the decimal text of an integer reads back as the same number |
| JsValues.DecimalRoundTrip | detox/local-cli/utils/misc.js:27 | the digits printed for a natural number have that value |
| JsValues.IsFinite | detox/local-cli/test.js:68 | `isFinite` holds exactly when ToNumber gives a finite number, so `null`, booleans and numeric strings pass and `undefined` does not |
| JsValues.LooseEqualsOne | detox/local-cli/test.js:21 | `v == 1` holds exactly when ToNumber gives 1, so `true` and "1" equal 1 and `undefined` and `null` do not |
| JsValues.TemplateStringIsTrue | detox/local-cli/test.js:114 | `` `${x}` === 'true' `` holds exactly for `true` and the string "true" |
| Json.EscapeRoundTrip | detox/local-cli/utils/misc.js:27 | unescaping the escaped characters of a string gives the string back |
| Json.UnescapeHexEscape | detox/local-cli/utils/misc.js:27 | a control character without a short escape is read back from its `\u00XX` form |
| Json.UnescapeEscapeChar | detox/local-cli/utils/misc.js:27 | each escaped character is read back as itself, whatever follows it |
| Json.QuoteRoundTrip | detox/local-cli/utils/misc.js:27 | parsing `JSON.stringify(s)` gives `s` back |
| Json.EscapePlain | detox/local-cli/utils/misc.js:27 | a string without quotes, backslashes or control characters is printed as it is |
| Strings.ContainsAt | detox/local-cli/test.js:25 | `includes` finds a text that occurs at any position |
| Strings.ContainsOccurs | detox/local-cli/test.js:25 | what `includes` finds occurs at some position |
| Strings.JoinSplit | detox/local-cli/test.js:135 | joining the lines of the failed-tests file restores its text |
| Strings.SplitJoin | detox/local-cli/test.js:135 | splitting a join of line-free specs gives the specs back |
| Strings.FirstPiece | detox/local-cli/test.js:20 | the platform is the prefix of the device type up to its first dot |
| JsObjects.JsObject.Set | detox/local-cli/utils/collectExtraArgs.js:39-42 | assigning a property sets that key, keeps every other, and appends a new key at the end |
| JsObjects.AssignPrefixGet | detox/local-cli/test.js:89-91 | spreading the first entries of an object overrides exactly those keys |
| JsObjects.AssignGet | detox/local-cli/test.js:89-91 | in `{...target, ...source}` the keys of `source` win and every other key keeps its value |
| JsObjects.PickKeys | detox/local-cli/test.js:91-110 | the picked keys are the listed keys the configuration has, each once |
| JsObjects.Pick | detox/local-cli/test.js:91-110 | `_.pick` holds exactly the listed keys the configuration has, with their values |
| JsObjects.DefinedKeys | detox/local-cli/test.js:89-115 | the kept keys are exactly those with a defined value, each once |
| JsObjects.OmitUndefined | detox/local-cli/test.js:89-115 | `_.omitBy(o, _.isUndefined)` drops exactly the undefined entries and keeps the other values |
| Misc.GetPlatformSpecificString | detox/local-cli/utils/misc.js:13-19 | `ios` gives `:android:`, `android` gives `:ios:`, anything else undefined; never the platform's own tag |
| Misc.PrintEnvironmentVariables | detox/local-cli/utils/misc.js:21-29 | the line is the rendering of every kept entry, concatenated in entry order |
| Misc.PiecesAppend | detox/local-cli/utils/misc.js:21-29 | the rendering of a concatenation of entries is the concatenation of their renderings |
| Misc.PrintIsPieces | detox/local-cli/utils/misc.js:21-29 | the reduce renders the kept entries first to last, each once |
| Misc.PrintEmpty | detox/local-cli/utils/misc.js:21-29 | an empty environment renders as `''` |
| Misc.PrintAppend | detox/local-cli/utils/misc.js:21-29 | one more entry appends exactly its rendering, or nothing when it is skipped |
| Misc.PrintSkipsEmpty | detox/local-cli/utils/misc.js:23-25 | an entry holding null, undefined or `''` leaves the line as it would be without it |
| Misc.PrintKeepsFalseAndZero | detox/local-cli/utils/misc.js:23-27 | `false` and `0` are printed, as `KEY=false ` and `KEY=0 ` |
| Misc.PrintedStringRoundTrip | detox/local-cli/utils/misc.js:27 | a string entry renders as `KEY=` + its JSON text + a space, and that text parses back to the string |
| Misc.ClearDeviceRegistryLockFile | detox/local-cli/utils/misc.js:4-11 | the iOS lock file exactly for `ios`, the Android one otherwise; `[]` is written |
| CollectExtraArgs.IgnoredArgsMembers | detox/local-cli/utils/collectExtraArgs.js:8-24 | the collected set is exactly the option names and their aliases |
| CollectExtraArgs.CollectIgnoredArgs | detox/local-cli/utils/collectExtraArgs.js:8-24 | the reduce over the options, with the inner loop over an alias array, collects every key and alias and nothing else |
| CollectExtraArgs.BooleanOptions | detox/local-cli/utils/collectExtraArgs.js:2-6 | the `pickBy` keeps exactly the options of type `boolean` |
| CollectExtraArgs.BooleanArgsMembers | detox/local-cli/utils/collectExtraArgs.js:2-6 | `booleanJestArgs` holds exactly the names and aliases of boolean options |
| CollectExtraArgs.FixJestSingletonFlags | detox/local-cli/utils/collectExtraArgs.js:27-48 | the loop builds the rewritten flags and puts the swallowed values, in entry order, in front of the old `_` |
| CollectExtraArgs.FixedFlags | detox/local-cli/utils/collectExtraArgs.js:31-44 | the result has no more keys than entries, and every key it has is written by some entry other than `_` |
| CollectExtraArgs.Strays | detox/local-cli/utils/collectExtraArgs.js:38-40 | every value a boolean flag swallowed is moved to `_`, and nothing else is |
| CollectExtraArgs.StraysCount | detox/local-cli/utils/collectExtraArgs.js:38-40 | `_` receives exactly one value per swallowing entry |
| CollectExtraArgs.StrayIndicesStep | detox/local-cli/utils/collectExtraArgs.js:38-40 | one more entry adds one swallowing position exactly when that entry swallowed its value |
| CollectExtraArgs.StrayPosition | detox/local-cli/utils/collectExtraArgs.js:38-40 | a swallowed value sits in `_` after exactly the values swallowed before it, so `_` keeps entry order |
| CollectExtraArgs.LastWriter | detox/local-cli/utils/collectExtraArgs.js:31-44 | the last entry that writes a key comes before the current position |
| CollectExtraArgs.FixedFlagsGet | detox/local-cli/utils/collectExtraArgs.js:31-44 | a key is in the result exactly when some entry writes it, and it holds what the last such entry wrote |
| CollectExtraArgs.LastWriterIs | detox/local-cli/utils/collectExtraArgs.js:31-44 | an entry that no later entry overwrites is the last writer of its key |
| CollectExtraArgs.EntryOutcome | detox/local-cli/utils/collectExtraArgs.js:37-43 | a swallowing flag becomes `positiveKey = (key == positiveKey)`; any other entry is copied unchanged |
| CollectExtraArgs.NoWriter | detox/local-cli/utils/collectExtraArgs.js:31-44 | a key no entry writes has no last writer |
| CollectExtraArgs.NegatedKeyDropped | detox/local-cli/utils/collectExtraArgs.js:37-40 | a `no-` flag that swallowed a value is not copied under its own name |
| CollectExtraArgs.NothingSwallowedKeys | detox/local-cli/utils/collectExtraArgs.js:31-44 | without a swallowing flag the keys come out in the same order |
| CollectExtraArgs.PlainLastToWrite | detox/local-cli/utils/collectExtraArgs.js:41-43 | without a swallowing flag no entry is overwritten |
| CollectExtraArgs.NothingSwallowedStrays | detox/local-cli/utils/collectExtraArgs.js:38-40 | without a swallowing flag nothing moves to `_` |
| CollectExtraArgs.FixJestIdentity | detox/local-cli/utils/collectExtraArgs.js:31-46 | without a swallowing flag the named arguments come back unchanged |
| CollectExtraArgs.NoColorExample | detox/local-cli/utils/collectExtraArgs.js:37-46 | `--no-color a.spec.js` gives `color: false` and puts the path first in `_` |
| CollectExtraArgs.FixMochaSingletonFlags | detox/local-cli/utils/collectExtraArgs.js:50-52 | Mocha's arguments pass through unchanged |
| TestCommand.SelectRunner | detox/local-cli/test.js:24-46 | Mocha exactly when the name contains `mocha`, Jest when it contains `jest` and not `mocha`, otherwise the unsupported-runner error |
| TestCommand.PlatformOf | detox/local-cli/test.js:20 | the platform is the device type up to its first dot, and holds no dot |
| TestCommand.HasMultipleWorkers | detox/local-cli/test.js:21 | several workers exactly when `workers` does not convert to 1; a missing setting counts as several |
| TestCommand.TrimTrailingSlashes | detox/local-cli/test.js:49 | the result is the path up to its trailing slashes: a prefix, followed only by slashes, and not ending in one |
| TestCommand.BaseName | detox/local-cli/test.js:49 | the result is the last segment: a slash-free suffix of the path that is the whole path or follows a slash |
| TestCommand.HasOptsExtension | detox/local-cli/test.js:49 | `path.extname(path) === '.opts'` for a POSIX path; its meaning is stated by OptsExtensionOfFileName below |
| TestCommand.OptsExtensionOfFileName | detox/local-cli/test.js:49 | a path whose file name is followed only by slashes has the `.opts` extension exactly when the name is `.opts` preceded by at least one character |
| TestCommand.MochaFlags | detox/local-cli/test.js:53-76 | the Mocha flag names, one per property of the literal, in its order |
| TestCommand.MochaOptionsListed | detox/local-cli/test.js:53-76 | the literal lists every property, once |
| TestCommand.CopiedFlagNamesDistinct | detox/local-cli/test.js:58-75 | the copied options have distinct flag names |
| TestCommand.FlagNameInjective | detox/local-cli/test.js:53-76 | no two properties share a flag name |
| TestCommand.FlagNamesDistinct | detox/local-cli/test.js:53-76 | the Mocha flags are distinct keys |
| TestCommand.MochaArgv | detox/local-cli/test.js:53-76 | every Mocha property sits under its flag name, in literal order, with its value |
| TestCommand.PrepareMochaArgs | detox/local-cli/test.js:48-79 | the Mocha flags with `opts` chosen by the `.opts` extension, and an environment holding only `deviceLaunchArgs` |
| TestCommand.OtherConfigFlagAbsent | detox/local-cli/test.js:49-55 | only one of `opts` and `config` is a flag |
| TestCommand.MochaConfigFile | detox/local-cli/test.js:49-55 | the configuration file goes in `--opts` for a `.opts` file, in `--config` otherwise, and is absent for an empty path |
| TestCommand.MochaInvertFlag | detox/local-cli/test.js:62 | `--invert` is `true` for a non-empty platform and absent otherwise |
| TestCommand.MochaGrepFlag | detox/local-cli/test.js:61 | `--grep` is the platform-specific string for a non-empty platform and absent otherwise |
| TestCommand.GrepValue | detox/local-cli/test.js:61 | that value is the other platform's tag on iOS and Android and absent for any other platform |
| TestCommand.MochaPlatformFilter | detox/local-cli/test.js:61-62 | `--invert` is set exactly for a non-empty platform; `--grep` is the other platform's tag on iOS and Android and absent otherwise |
| TestCommand.MochaSwitches | detox/local-cli/test.js:56-63 | `--colors` is always `!noColor`; `--cleanup` and `--headless` are `true` when set and absent otherwise |
| TestCommand.MochaCopiedFlags | detox/local-cli/test.js:58-75 | each copied option is present exactly when its configuration value is truthy, and then holds it |
| TestCommand.MochaDebugFlag | detox/local-cli/test.js:68 | `--debug-synchronization` carries the configured value when it is finite and is absent otherwise |
| TestCommand.MochaDebugSynchronization | detox/local-cli/test.js:68 | `--debug-synchronization` is present exactly for a finite value, `0` included, and then holds it |
| TestCommand.PatternAcceptsIffAbsent | detox/local-cli/test.js:86 | as a case-sensitive regular expression, `^((?!tag).)*$` matches exactly the single-line names that do not contain the tag |
| TestCommand.TestNamePattern | detox/local-cli/test.js:86 | the pattern is falsy exactly without a platform, and excludes the other platform's tag on iOS and Android |
| TestCommand.JestSkipsOtherPlatform | detox/local-cli/test.js:86 | on iOS and Android the pattern is the other platform's tag excluded, and read case-sensitively it accepts exactly the single-line names without that tag |
| TestCommand.JestArgv | detox/local-cli/test.js:83-88 | `color` is `!noColor`, `config` is the file when there is one, `testNamePattern` as above, `maxWorkers` is `workers` |
| TestCommand.ReportSpecs | detox/local-cli/test.js:112-114 | without an override, `workers == 1`; with one, whether it is `true` or "true" |
| TestCommand.ReadOnlyEmu | detox/local-cli/test.js:111 | present only on Android, and then `workers != 1` |
| TestCommand.AddedKeysNotPicked | detox/local-cli/test.js:89-111 | the timestamp, `readOnlyEmu` and `reportSpecs` are not among the picked keys |
| TestCommand.JestEnvLiteralEntries | detox/local-cli/test.js:89-111 | the literal holds the timestamp, the picked keys the configuration has, `readOnlyEmu` and `reportSpecs` |
| TestCommand.JestEnv | detox/local-cli/test.js:89-115 | no environment entry is undefined; the timestamp and `reportSpecs` are always there, `readOnlyEmu` only on Android, and a picked key exactly when the configuration defines it |
| TestCommand.PrepareJestArgs | detox/local-cli/test.js:81-117 | the Jest flags and environment, with no specs and an empty `_` |
| TestCommand.PrepareArgs | detox/local-cli/test.js:24-46 | the builder of the selected runner is used |
| TestCommand.Budget | detox/local-cli/test.js:137 | `retries-- > 0` allows `retries` relaunches, and none for a value of 0 or less |
| TestCommand.Retries | detox/local-cli/test.js:124-137 | at least one launch and at most `retries + 1`; the first runs the initial specs |
| TestCommand.RetriesEarlierFailed | detox/local-cli/test.js:126-137 | every launch before the last one failed |
| TestCommand.RetriesLastLaunch | detox/local-cli/test.js:137-142 | the command throws exactly when the last launch failed, and throws its error |
| TestCommand.RetriesRelaunchSpecs | detox/local-cli/test.js:133-135 | each relaunch runs `_` followed by the lines of the previous launch's failed-tests file |
| TestCommand.RetriesAllFail | detox/local-cli/test.js:124-142 | when every launch fails there are exactly `retries + 1` launches and the last error is thrown |
| TestCommand.RetriesStopAtSuccess | detox/local-cli/test.js:126-137 | a launch that passes within the budget is the last one, and nothing is thrown |
| TestCommand.EmptyFailedTestsFile | detox/local-cli/test.js:133-135 | whatever the error, an empty failed-tests file relaunches with the single spec `""` |
| TestCommand.RunWithRetries | detox/local-cli/test.js:124-137 | the `do/while` loop, counting retries down after failures only, makes exactly the launches of `Retries` |
| TestCommand.Test | detox/local-cli/test.js:17-142 | an unsupported runner is refused with no launch and no lock reset; otherwise the selected builder's invocation, a lock reset unless `keepLockFile`, the retried launches, and the last launch's error |

## Left out

- Running the runner (`cp.execSync`, its working directory and merged process environment) is an oracle indexed by launch number.
- Rendering the flags into a command line (`yargs-unparser`) is a foreign library. Only the positional list `[...argv._, ...specs]` is modelled.
- Configuration composition and argument splitting (`composeDetoxConfig`, `splitArgv`) are external. The CLI configuration, the runner configuration and the device type are inputs.
- Reading the failed-tests file and writing the lock file are file I/O. The file text comes with each failed launch, and only the lock file's identity and the `[]` content are modelled.
- Logging (`log.warn`, `log.error`, `log.info`) is output only, so the multiple-workers warnings are not modelled.
- `Date.now()` is the parameter `now`.
- Jest's own option table (`jest-cli/build/cli/args`) is a parameter, so the `type === 'boolean'` filter is modelled and the table's contents are not.
- `path.extname` is modelled for POSIX paths only, and `runnerConfig.runnerConfig` is a string, so the error `path.extname` throws for an undefined path is not modelled.
- JsValues.IntToDecimal: JavaScript numbers are doubles. They are exact only up to 2^53, and `String(n)` writes 10^21 and above in exponent form, while the model's integers are unbounded and always written digit by digit.
- Numbers are integers, NaN and the infinities. Fractional numbers are not modelled. ToNumber on strings recognises only an optional sign followed by decimal digits, and the empty string as 0. It does not recognise whitespace, hexadecimal, exponents or "Infinity".
- Strings are sequences of Unicode scalar values, so lone surrogates, which `JSON.stringify` writes as `\uXXXX` escapes, cannot occur. JavaScript's `slice`, `split`, `includes` and `.` work on UTF-16 code units; the results agree here because the `no-` prefix, the separators and the tags are ASCII.
- TestCommand.Test: `argv.retries` is an integer. A missing or non-numeric value behaves like 0, and that case is not modelled separately.
- TestCommand.Test: an error thrown with a falsy value would stop the retries without being rethrown. The model treats every failed launch as a thrown error.
- TestCommand.JestEnv: states which entries the environment holds and their values, but not their order. The order affects only the logged line.
- TestCommand.PatternAcceptsIffAbsent: states the meaning of the pattern as a case-sensitive regular expression, where `.` refuses line terminators. Case-insensitive matching is not modelled.
- TestCommand.JestSkipsOtherPlatform: Jest compiles `testNamePattern` case-insensitively, so a name carrying `:IOS:` is also skipped on Android. The lemma states the case-sensitive reading, not which tests Jest itself runs.
- CollectExtraArgs.FixJestSingletonFlags: the positional list `_` is an array of values. An `argv._` that is not an array is not modelled; a missing one becomes `[undefined]`, as `concat` makes it.

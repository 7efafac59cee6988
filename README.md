# html-report `env` package in Dafny

This project models the decision logic of the `env` package of the Gauge
html-report plugin (`env/env.go`). That logic covers:

- reading the required `GAUGE_PROJECT_ROOT` variable (`GetProjectRoot`);
- placing the default properties file at `env/default/default.properties`
  under the project root (`getDefaultPropertiesFile`, through Go's
  `filepath.Join`);
- offering the two plugin properties `gauge_reports_dir` (default `reports`)
  and `overwrite_reports` (default `true`) to that file, if it exists
  (`AddDefaultPropertiesToProject`);
- the two boolean flags `overwrite_reports` and `use_nested_specs`, each on
  exactly when its lower-cased value is `true`;
- `plugin_kill_timeout`, a millisecond value parsed with Go's `strconv.Atoi`
  and converted to whole seconds by Go's truncating division. It is 0 when
  the value is unset, empty or does not parse.

Everything is pure: the process environment is a `map<string, string>`
passed in, and a missing name reads as `""`, as `os.Getenv` does. The
existing files are a `set<string>` passed in. A call to `logger.Fatalf`
becomes a `Fatal` result.

Files and modules:

- `strconv.dfy`, module `Strconv`: Go's `Atoi` on a 64-bit platform. It
  follows the library's structure: a fast path for texts of 1 to 18
  characters, and otherwise `ParseInt` over `ParseUint`, whose digit loop
  checks for uint64 overflow before each step. It also has `Itoa`. The
  specification beside them is `IsIntegerText` (an optional sign, then one or
  more digits) and `TextValue`. The lemmas prove that the implementation
  meets that specification, and that printing and parsing are round trips.
- `filepath.dfy`, module `FilePath`: Go's `filepath.Join` and `Clean` for
  '/'-separated paths. `Clean` is stated on the path's elements, with a stack
  of kept names. The lemmas say where names joined under a directory end up.
- `env.dfy`, module `Env`: the functions of `env/env.go`, with their
  properties.

Notes on the code:

- `getDefaultPropertiesFile` uses `filepath.Join`, which cleans the root. So
  the file is not always the literal text `<root>/env/default/default.properties`.
  A root `/p/` gives `/p/env/default/default.properties`, and a root `.`
  gives `env/default/default.properties`. The model follows the code
  (`Env.DefaultPropertiesFile`, `FilePath.JoinUnder`).
- `AddDefaultPropertiesToProject` calls `GetProjectRoot` first. An unset root
  therefore ends the process before the file-existence check, rather than
  being a soft no-op.
- `PluginKillTimeout` rejects an out-of-range number as well as malformed
  text, because `Atoi` reports `ErrRange` as an error.

## Model

| member | source | states |
|---|---|---|
| `Strconv.AtoiMeetsSpec` | env/env.go:119 | `Atoi` succeeds exactly on an optional sign followed by one or more digits whose value fits in an int64, and then returns that value. An integer text outside the range is `ErrRange`; a malformed text shorter than 19 characters is `ErrSyntax` |
| `Strconv.AtoiFastMeetsSpec` | env/env.go:119 | `Atoi`'s fast path for texts of 1 to 18 characters never overflows. It accepts exactly the integer texts, returns their value, and otherwise gives `ErrSyntax` |
| `Strconv.ParseIntMeetsSpec` | env/env.go:119 | The slow path (`ParseInt` over `ParseUint`) accepts exactly the integer texts in the int64 range, with their value; an integer text outside the range is `ErrRange` |
| `Strconv.ParseUintValue` | env/env.go:119 | `ParseUint` returns the value of a non-empty digit string that fits in a uint64. A digit string beyond that is `ErrRange`, and anything else is an error |
| `Strconv.FastDigitsValue` | env/env.go:119 | The fast path's digit loop, continuing from the value of the digits read so far, gives the value of the whole digit string, and a syntax error at any non-digit |
| `Strconv.ParseUintDigitsValue` | env/env.go:119 | `ParseUint`'s overflow-checking loop gives the value of the whole digit string when it fits in a uint64. An overflowing digit string is `ErrRange`, and a non-digit is an error |
| `Strconv.AtoiItoa` | env/env.go:119 | Printing any int64 in decimal and parsing the text gives the same number back |
| `Strconv.ItoaAtoi` | env/env.go:119 | A canonical integer text that `Atoi` accepts (no `+`, no leading zero, no `-0`) prints back as the same text |
| `Strconv.FormatNatDigitsValue` | env/env.go:119 | A digit string without a superfluous leading zero is printed back exactly from its value |
| `Env.GetProjectRoot` | env/env.go:61-67 | The root is returned unmodified exactly when `GAUGE_PROJECT_ROOT` is non-empty. When it is unset or empty, the process stops with the missing variable named |
| `Env.DefaultPropertiesFile` | env/env.go:93-95 | The result stops the process when the root is missing. Otherwise it is `env/default/default.properties` under the cleaned root, with no leading `./` and no doubled slash after `/` |
| `Env.DefaultPropertiesFileAbsolute` | env/env.go:93-95 | For an absolute root of ordinary names, with or without a trailing slash, the file is that root, then `/`, then `env/default/default.properties` |
| `FilePath.JoinUnder` | env/env.go:94 | `filepath.Join` of a non-empty directory and ordinary names puts the names under `Clean(dir)`: after `/` for the root, alone for `.`, and after one slash otherwise |
| `FilePath.UnderCleanAbsolute` | env/env.go:94 | A tail placed under an absolute directory of ordinary names, with or without a trailing slash, follows the directory after exactly one `/` |
| `FilePath.CleanAbsolute` | env/env.go:94 | An absolute path of ordinary names is already clean, and `Clean` drops a trailing slash after it |
| `FilePath.SplitAppend` | env/env.go:94 | Splitting `a + "/" + b` at slashes gives the elements of `a` followed by those of `b` |
| `FilePath.ResolveAppend` | env/env.go:94 | `Clean`'s element processing over two lists is the processing of the second list from where the first one left off |
| `Env.AddDefaultPropertiesToProject` | env/env.go:69-91 | An unset root stops the process. If the default properties file does not exist, nothing is appended. If it exists, exactly two properties are offered: `gauge_reports_dir` (default `reports`), then `overwrite_reports` (default `true`) |
| `Env.IsTrueFlagSpellsTrue` | env/env.go:99 | "Lower-cased value equals `true`" holds exactly for the four-letter spellings of `true` in any mix of upper and lower case |
| `Env.ShouldOverwriteReports` | env/env.go:97-103 | True exactly when `overwrite_reports` is a case-insensitive spelling of `true`; unset means false |
| `Env.ShouldUseNestedSpecs` | env/env.go:105-111 | True exactly when `use_nested_specs` is a case-insensitive spelling of `true`; unset means false |
| `Env.FlagOnExamples` | env/env.go:97-111 | `true`, `TRUE`, `True` and `tRuE` turn a flag on |
| `Env.FlagOffExamples` | env/env.go:97-111 | Unset, `""`, `yes`, `1`, `false` and ` true` leave a flag off |
| `Env.FlagsIndependent` | env/env.go:97-111 | Each flag depends on its own variable only: setting any other variable, including the other flag, leaves it unchanged |
| `Env.OverwriteDefaultTurnsFlagOn` | env/env.go:77-80 | The `overwrite_reports` default that the plugin offers to the project makes `ShouldOverwriteReports` true |
| `Env.TruncDiv` | env/env.go:123 | Go's `/`: the quotient truncates toward zero. For a non-negative dividend `r*b <= a < r*b + b`; for a negative one `r*b - b < a <= r*b` |
| `Env.TruncDivNegate` | env/env.go:123 | Truncating division commutes with negation |
| `Env.PluginKillTimeout` | env/env.go:114-124 | The result is 0 when `plugin_kill_timeout` is unset or empty, is not an integer text, or is out of the int64 range. Otherwise it is the value divided by 1000, truncated toward zero |
| `Env.PluginKillTimeoutSeconds` | env/env.go:123 | For a valid non-negative value `v` the result `r` satisfies `0 <= r` and `r*1000 <= v < (r+1)*1000`. For a negative one, `r <= 0` and `(r-1)*1000 < v <= r*1000` |
| `Env.PluginKillTimeoutItoa` | env/env.go:119-123 | Writing any int64 number of milliseconds in decimal into `plugin_kill_timeout` yields that number divided by 1000, truncated |
| `Env.PluginKillTimeoutRejects` | env/env.go:115-122 | Unset, `""`, `abc`, `12a` and ` 5` give 0 |
| `Env.PluginKillTimeoutConverts` | env/env.go:119-123 | `2500` gives 2, `999` gives 0 and `-2500` gives -2 |

## Left out

- `GetCurrentExecutableDir`: it only asks the operating system for the executable's path and resolves symbolic links. Nothing about it can be stated beyond the directory and base name of a path.
- `CreateDirectory`: it is a call to `os.MkdirAll` plus a fatal log on failure.
- Logging (`logger.Fatalf`, `Debugf`, `Debug`): fatal paths are `Fatal` / `SetupFatal` results, and debug messages are not modelled.
- `common.FileExists` is a set of existing paths passed in.
- `common.AppendProperties` belongs to a library outside this model. Its add-if-absent merge and the contents of the file afterwards are not modelled.
- `Env.AddDefaultPropertiesToProject` ends at the request to append. Whether the library's append succeeds or fails is not modelled, because both outcomes are only logged.
- The package-level `var` bindings of `GetProjectRoot` and `PluginKillTimeout` let tests override them. The model treats them as plain functions.
- Reading the real process environment: the environment is a map argument.
- `strings.ToLower` is modelled for ASCII only. No other code point lower-cases to a letter of `true`, so the flags decide the same way.
- Strings are sequences of characters, not UTF-8 bytes. For non-ASCII text, Go's byte length differs from the character count. That text is rejected by `Atoi` on either path, so the result is the same.
- `Strconv.AtoiMeetsSpec`: for malformed texts of 19 or more characters it says only that `Atoi` fails. `ParseUint` can report `ErrRange` before it reaches a later non-digit. `env.go` treats both errors alike.
- `Strconv.Atoi` drops the clamped value that Go returns beside `ErrRange`, because `env.go` ignores the value when there is an error.
- Go's `int` is taken to be 64 bits. The 32-bit cut-offs of `Atoi` (fast path below 10 characters, int32 range) are not modelled.
- `filepath.Join` and `Clean` are modelled for '/' as the separator. Windows volume names and '\' separators are not modelled.
- `ScreenshotsDirName` and `SaveExecutionResult` are declared as constants only. No modelled function uses them.

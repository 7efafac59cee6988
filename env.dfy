/** The decision logic of the html-report plugin's env package: the
    project-root lookup, the default-properties file and the two properties
    the plugin adds to it, the two boolean flags and the plugin kill
    timeout.

    The process environment is passed in as a map; a name that is not in
    the map reads as "", as with os.Getenv. A call to logger.Fatalf, which
    ends the process, is a Fatal result. */
module Env {
  import Strconv
  import FilePath

  type Environment = map<string, string>

  const DefaultReportsDir: string := "reports"
  const GaugeReportsDirEnvName: string := "gauge_reports_dir"
  const ScreenshotsDirName: string := "gauge_screenshots_dir"
  const OverwriteReportsEnvProperty: string := "overwrite_reports"
  const UseNestedSpecs: string := "use_nested_specs"
  const SaveExecutionResult: string := "save_execution_result"
  const PluginKillTimeoutEnvName: string := "plugin_kill_timeout"
  /** The project-root variable, a constant of the gauge common library. */
  const GaugeProjectRootEnv: string := "GAUGE_PROJECT_ROOT"

  /** Where the default properties file sits below the project root. */
  const DefaultPropertiesPath: seq<string> := ["env", "default", "default.properties"]
  const DefaultPropertiesRelative: string := "env/default/default.properties"

  /** A named configuration entry, with its comment and default value. */
  datatype Property = Property(comment: string, name: string, defaultValue: string)

  /** Why the process would stop. */
  datatype Failure = MissingEnv(name: string)

  /** A value, or the process ended by logger.Fatalf. */
  datatype Outcome<T> = Done(value: T) | Fatal(failure: Failure)

  /** What AddDefaultPropertiesToProject does: nothing but a fatal log,
      nothing but a debug log because the file is missing, or a request to
      the properties library to append the given properties to the file. */
  datatype Setup =
    | SetupFatal(failure: Failure)
    | NoPropertiesFile(path: string)
    | AppendProperties(path: string, properties: seq<Property>)

  function Getenv(env: Environment, name: string): string {
    if name in env then env[name] else ""
  }

  // ---------------------------------------------------------------------
  // Project root and the default properties file

  function GetProjectRoot(env: Environment): (r: Outcome<string>)
    ensures r.Done? <==> Getenv(env, GaugeProjectRootEnv) != ""
    ensures r.Done? ==> GaugeProjectRootEnv in env && r.value == env[GaugeProjectRootEnv]
    ensures r.Fatal? ==> r.failure == MissingEnv(GaugeProjectRootEnv)
  {
    var projectRoot := Getenv(env, GaugeProjectRootEnv);
    if projectRoot == "" then Fatal(MissingEnv(GaugeProjectRootEnv)) else Done(projectRoot)
  }

  /** getDefaultPropertiesFile: env/default/default.properties under the
      cleaned project root. */
  function DefaultPropertiesFile(env: Environment): (r: Outcome<string>)
    ensures r.Done? <==> Getenv(env, GaugeProjectRootEnv) != ""
    ensures r.Fatal? ==> r.failure == MissingEnv(GaugeProjectRootEnv)
    ensures r.Done? ==>
      r.value == FilePath.Under(FilePath.Clean(env[GaugeProjectRootEnv]), DefaultPropertiesRelative)
  {
    match GetProjectRoot(env)
    case Fatal(f) => Fatal(f)
    case Done(root) =>
      DefaultPathNames();
      FilePath.JoinUnder(root, DefaultPropertiesPath);
      Done(FilePath.Join([root] + DefaultPropertiesPath))
  }

  lemma DefaultPathNames()
    ensures forall i :: 0 <= i < |DefaultPropertiesPath| ==> FilePath.IsName(DefaultPropertiesPath[i])
    ensures FilePath.JoinSlash(DefaultPropertiesPath) == DefaultPropertiesRelative
  {
    assert FilePath.IsName("env") && FilePath.IsName("default");
    assert FilePath.IsName("default.properties");
    assert DefaultPropertiesPath[1..][1..] == ["default.properties"];
  }

  /** For an absolute project root made of ordinary names, with or without
      a trailing slash, the file is the root followed by
      /env/default/default.properties. */
  lemma DefaultPropertiesFileAbsolute(env: Environment, names: seq<string>, trailingSlash: bool)
    requires names != []
    requires forall i :: 0 <= i < |names| ==> FilePath.IsName(names[i])
    requires Getenv(env, GaugeProjectRootEnv) ==
      "/" + FilePath.JoinSlash(names) + (if trailingSlash then "/" else "")
    ensures DefaultPropertiesFile(env) ==
      Done("/" + FilePath.JoinSlash(names) + "/" + DefaultPropertiesRelative)
  {
    var root := Getenv(env, GaugeProjectRootEnv);
    assert root[0] == '/';
    FilePath.UnderCleanAbsolute(root, names, trailingSlash, DefaultPropertiesRelative);
  }

  const ReportsDirProperty: Property := Property(
    "The path to the gauge reports directory. Should be either relative to the project directory or an absolute path",
    GaugeReportsDirEnvName,
    DefaultReportsDir)

  const OverwriteReportProperty: Property := Property(
    "Set as false if gauge reports should not be overwritten on each execution. A new time-stamped directory will be created on each execution.",
    OverwriteReportsEnvProperty,
    "true")

  /** AddDefaultPropertiesToProject, with the set of files that exist
      standing for common.FileExists. */
  function AddDefaultPropertiesToProject(env: Environment, existing: set<string>): (r: Setup)
    ensures r.SetupFatal? <==> Getenv(env, GaugeProjectRootEnv) == ""
    ensures r.SetupFatal? ==> r.failure == MissingEnv(GaugeProjectRootEnv)
    ensures !r.SetupFatal? ==>
      r.path == FilePath.Under(FilePath.Clean(env[GaugeProjectRootEnv]), DefaultPropertiesRelative)
    ensures !r.SetupFatal? ==> (r.AppendProperties? <==> r.path in existing)
    ensures r.AppendProperties? ==>
      |r.properties| == 2
      && r.properties[0].name == "gauge_reports_dir" && r.properties[0].defaultValue == "reports"
      && r.properties[1].name == "overwrite_reports" && r.properties[1].defaultValue == "true"
  {
    match DefaultPropertiesFile(env)
    case Fatal(f) => SetupFatal(f)
    case Done(file) =>
      var properties := [ReportsDirProperty, OverwriteReportProperty];
      if file !in existing then NoPropertiesFile(file)
      else AppendProperties(file, properties)
  }

  // ---------------------------------------------------------------------
  // Boolean flags

  /** ASCII lower-casing; no other code point lower-cases to a letter of "true". */
  function LowerChar(c: char): char {
    if 'A' <= c <= 'Z' then (c as int - 'A' as int + 'a' as int) as char else c
  }

  function ToLower(s: string): string {
    if s == [] then [] else [LowerChar(s[0])] + ToLower(s[1..])
  }

  /** The spellings of "true" in any mix of upper and lower case. */
  predicate SpellsTrue(v: string) {
    |v| == 4
    && (v[0] == 't' || v[0] == 'T') && (v[1] == 'r' || v[1] == 'R')
    && (v[2] == 'u' || v[2] == 'U') && (v[3] == 'e' || v[3] == 'E')
  }

  predicate IsTrueFlag(v: string) {
    ToLower(v) == "true"
  }

  lemma LowerCharIs(c: char, l: char)
    requires 'a' <= l <= 'z'
    ensures LowerChar(c) == l <==> c == l || c as int == l as int - 32
  {
  }

  /** The lower-casing test accepts exactly the case-insensitive spellings of "true". */
  lemma IsTrueFlagSpellsTrue(v: string)
    ensures IsTrueFlag(v) <==> SpellsTrue(v)
  {
    ToLowerLength(v);
    if |v| == 4 {
      var l := ToLower(v);
      assert l[0] == LowerChar(v[0]) && l[1] == LowerChar(v[1]);
      assert l[2] == LowerChar(v[2]) && l[3] == LowerChar(v[3]);
      LowerCharIs(v[0], 't');
      LowerCharIs(v[1], 'r');
      LowerCharIs(v[2], 'u');
      LowerCharIs(v[3], 'e');
      assert l == "true" <==> l[0] == 't' && l[1] == 'r' && l[2] == 'u' && l[3] == 'e';
    }
  }

  lemma {:induction false} ToLowerLength(s: string)
    ensures |ToLower(s)| == |s|
    ensures forall i :: 0 <= i < |s| ==> ToLower(s)[i] == LowerChar(s[i])
  {
    if s != [] {
      ToLowerLength(s[1..]);
    }
  }

  function ShouldOverwriteReports(env: Environment): (r: bool)
    ensures r <==> SpellsTrue(Getenv(env, OverwriteReportsEnvProperty))
  {
    IsTrueFlagSpellsTrue(Getenv(env, OverwriteReportsEnvProperty));
    IsTrueFlag(Getenv(env, OverwriteReportsEnvProperty))
  }

  function ShouldUseNestedSpecs(env: Environment): (r: bool)
    ensures r <==> SpellsTrue(Getenv(env, UseNestedSpecs))
  {
    IsTrueFlagSpellsTrue(Getenv(env, UseNestedSpecs));
    IsTrueFlag(Getenv(env, UseNestedSpecs))
  }

  /** "true", "TRUE", "True" and "tRuE" turn a flag on. */
  lemma FlagOnExamples(env: Environment)
    ensures ShouldOverwriteReports(env[OverwriteReportsEnvProperty := "true"])
    ensures ShouldOverwriteReports(env[OverwriteReportsEnvProperty := "TRUE"])
    ensures ShouldOverwriteReports(env[OverwriteReportsEnvProperty := "True"])
    ensures ShouldUseNestedSpecs(env[UseNestedSpecs := "tRuE"])
  {
  }

  /** Unset, "", "yes", "1", "false" and " true" leave a flag off. */
  lemma FlagOffExamples(env: Environment)
    ensures !ShouldOverwriteReports(env - {OverwriteReportsEnvProperty})
    ensures !ShouldOverwriteReports(env[OverwriteReportsEnvProperty := ""])
    ensures !ShouldOverwriteReports(env[OverwriteReportsEnvProperty := "yes"])
    ensures !ShouldOverwriteReports(env[OverwriteReportsEnvProperty := "1"])
    ensures !ShouldOverwriteReports(env[OverwriteReportsEnvProperty := "false"])
    ensures !ShouldUseNestedSpecs(env[UseNestedSpecs := " true"])
  {
  }

  /** Each flag reads its own variable only: setting the other one, or any
      other variable, leaves it unchanged. */
  lemma FlagsIndependent(env: Environment, name: string, v: string)
    ensures name != OverwriteReportsEnvProperty ==>
      ShouldOverwriteReports(env[name := v]) == ShouldOverwriteReports(env)
    ensures name != UseNestedSpecs ==>
      ShouldUseNestedSpecs(env[name := v]) == ShouldUseNestedSpecs(env)
  {
  }

  /** The overwrite_reports default that the plugin writes into a project
      turns ShouldOverwriteReports on once it reaches the environment. */
  lemma OverwriteDefaultTurnsFlagOn(env: Environment)
    ensures ShouldOverwriteReports(env[OverwriteReportProperty.name := OverwriteReportProperty.defaultValue])
  {
  }

  // ---------------------------------------------------------------------
  // Plugin kill timeout

  /** Go's integer division, which truncates toward zero: the remainder
      a - r * b has the sign of a and is smaller than b. */
  function TruncDiv(a: int, b: int): (r: int)
    requires b > 0
    ensures a >= 0 ==> r >= 0 && r * b <= a < r * b + b
    ensures a < 0 ==> r <= 0 && r * b - b < a <= r * b
  {
    if a >= 0 then a / b else -((-a) / b)
  }

  /** Truncating division commutes with negation, unlike Dafny's Euclidean one. */
  lemma TruncDivNegate(a: int, b: int)
    requires b > 0
    ensures TruncDiv(-a, b) == -TruncDiv(a, b)
  {
  }

  /** PluginKillTimeout: plugin_kill_timeout in milliseconds, converted to
      whole seconds; 0 when unset, empty or not an int. */
  function PluginKillTimeout(env: Environment): (r: int)
    ensures Getenv(env, PluginKillTimeoutEnvName) == "" ==> r == 0
    ensures !Strconv.IsIntegerText(Getenv(env, PluginKillTimeoutEnvName)) ==> r == 0
    ensures Strconv.IsIntegerText(Getenv(env, PluginKillTimeoutEnvName)) ==>
      var v := Strconv.TextValue(Getenv(env, PluginKillTimeoutEnvName));
      r == if Strconv.InInt64(v) then TruncDiv(v, 1000) else 0
  {
    var e := Getenv(env, PluginKillTimeoutEnvName);
    if e == "" then 0
    else
      Strconv.AtoiMeetsSpec(e);
      match Strconv.Atoi(e)
      case Err(_) => 0
      case Ok(v) => TruncDiv(v, 1000)
  }

  /** For a non-negative millisecond value the timeout is the whole number
      of seconds in it; for a negative one it rounds toward zero. */
  lemma PluginKillTimeoutSeconds(env: Environment)
    requires Strconv.IsIntegerText(Getenv(env, PluginKillTimeoutEnvName))
    requires Strconv.InInt64(Strconv.TextValue(Getenv(env, PluginKillTimeoutEnvName)))
    ensures var v := Strconv.TextValue(Getenv(env, PluginKillTimeoutEnvName));
      var r := PluginKillTimeout(env);
      (v >= 0 ==> 0 <= r && r * 1000 <= v < (r + 1) * 1000)
      && (v < 0 ==> r <= 0 && (r - 1) * 1000 < v <= r * 1000)
  {
  }

  /** Printing any int64 number of milliseconds into plugin_kill_timeout
      gives back that number of whole seconds. */
  lemma PluginKillTimeoutItoa(env: Environment, ms: int)
    requires Strconv.InInt64(ms)
    ensures PluginKillTimeout(env[PluginKillTimeoutEnvName := Strconv.Itoa(ms)]) == TruncDiv(ms, 1000)
  {
    Strconv.AtoiItoa(ms);
    Strconv.FormatNatDigits(if ms < 0 then -ms else ms);
  }

  lemma PluginKillTimeoutRejects(env: Environment)
    ensures PluginKillTimeout(env - {PluginKillTimeoutEnvName}) == 0
    ensures PluginKillTimeout(env[PluginKillTimeoutEnvName := ""]) == 0
    ensures PluginKillTimeout(env[PluginKillTimeoutEnvName := "abc"]) == 0
    ensures PluginKillTimeout(env[PluginKillTimeoutEnvName := "12a"]) == 0
    ensures PluginKillTimeout(env[PluginKillTimeoutEnvName := " 5"]) == 0
  {
    assert !Strconv.IsDigit("12a"[2]);
  }

  lemma PluginKillTimeoutConverts(env: Environment)
    ensures PluginKillTimeout(env[PluginKillTimeoutEnvName := "2500"]) == 2
    ensures PluginKillTimeout(env[PluginKillTimeoutEnvName := "999"]) == 0
    ensures PluginKillTimeout(env[PluginKillTimeoutEnvName := "-2500"]) == -2
  {
    assert Strconv.DigitsValue("2500") == 2500 by {
      assert "2500"[..3] == "250" && "250"[..2] == "25" && "25"[..1] == "2" && "2"[..0] == "";
    }
    assert Strconv.DigitsValue("999") == 999 by {
      assert "999"[..2] == "99" && "99"[..1] == "9" && "9"[..0] == "";
    }
    assert Strconv.Magnitude("-2500") == "2500";
  }
}

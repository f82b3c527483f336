/**
 * The production launcher: `load_env_file` reads `KEY=VALUE` lines into the
 * process environment, and `main` takes the server's host, port and log
 * level from that environment with fixed defaults.
 */
module Production {
  import opened Wrappers
  import opened PyText

  /** What one line of the environment file does. */
  datatype LineAction = Skip | Assign(key: string, value: string)

  /** A line is stripped; a blank line, a `#` comment or a line without `=`
      is skipped; otherwise it is split at its first `=` and both halves are
      stripped. */
  function ParseEnvLine(line: string): (r: LineAction)
    ensures r.Assign? ==> '=' !in r.key
  {
    var l := Strip(line);
    if |l| > 0 && l[0] != '#' && '=' in l then
      var i := IndexOf(l, '=');
      StripKeepsOut(l[..i], '=');
      Assign(Strip(l[..i]), Strip(l[i + 1..]))
    else Skip
  }

  /** An assignment's key has no `=` and neither part has whitespace at
      either end. */
  lemma ParsedLineTrimmed(line: string)
    requires ParseEnvLine(line).Assign?
    ensures '=' !in ParseEnvLine(line).key
    ensures var k := ParseEnvLine(line).key; |k| > 0 ==> !IsSpace(k[0]) && !IsSpace(k[|k| - 1])
    ensures var v := ParseEnvLine(line).value; |v| > 0 ==> !IsSpace(v[0]) && !IsSpace(v[|v| - 1])
  {
    var l := Strip(line);
    var i := IndexOf(l, '=');
    StripKeepsOut(l[..i], '=');
  }

  /** `key=value`, with no whitespace around either part, a key that is not
      empty, has no `=` and does not start a comment, reads back as the
      assignment of `value` to `key`; the value may itself contain `=`. */
  lemma ParseEnvLineRoundTrip(key: string, value: string)
    requires |key| > 0 && '=' !in key && key[0] != '#'
    requires !IsSpace(key[0]) && !IsSpace(key[|key| - 1])
    requires |value| > 0 ==> !IsSpace(value[0]) && !IsSpace(value[|value| - 1])
    ensures ParseEnvLine(key + "=" + value) == Assign(key, value)
  {
    var line := key + "=" + value;
    assert line[0] == key[0];
    assert line[|key|] == '=';
    if |value| > 0 {
      assert line[|line| - 1] == value[|value| - 1];
    }
    StripUnpadded(line);
    assert forall k :: 0 <= k < |key| ==> line[k] == key[k];
    assert IndexOf(line, '=') == |key|;
    assert line[..|key|] == key && line[|key| + 1..] == value;
    StripUnpadded(key);
    if |value| > 0 {
      StripUnpadded(value);
    }
  }

  /** The message of the exception `os.environ[key] = value` raises on a
      POSIX system, if any: a `ValueError` for a null character, and the
      `OSError` of `setenv()` for an empty name. */
  function SetEnvError(key: string, value: string): (e: Option<string>)
    ensures e.None? <==> key != "" && '\0' !in key && '\0' !in value
  {
    if '\0' in key || '\0' in value then Some("embedded null byte")
    else if key == "" then Some("[Errno 22] Invalid argument")
    else None
  }

  /** The environment after some lines, and the error that stopped it. */
  datatype LoadOutcome = LoadOutcome(vars: map<string, string>, error: Option<string>)

  /** One parsed line applied to the environment loaded so far. */
  function Step(before: LoadOutcome, action: LineAction): LoadOutcome
  {
    if before.error.Some? then before
    else
      match action
      case Skip => before
      case Assign(key, value) =>
        match SetEnvError(key, value)
        case Some(e) => LoadOutcome(before.vars, Some(e))
        case None => LoadOutcome(before.vars[key := value], None)
  }

  /** The parsed lines applied in file order; the first exception stops the
      loop and leaves the assignments made before it. Loading only adds or
      overwrites variables, and the only exceptions are those of the
      assignment. */
  function LoadActions(env: map<string, string>, actions: seq<LineAction>): (r: LoadOutcome)
    ensures env.Keys <= r.vars.Keys
    ensures r.error.Some? ==> r.error.value in {"embedded null byte", "[Errno 22] Invalid argument"}
  {
    if actions == [] then LoadOutcome(env, None)
    else Step(LoadActions(env, actions[..|actions| - 1]), actions[|actions| - 1])
  }

  /** What each line of a file does. */
  function ParseLines(lines: seq<string>): (actions: seq<LineAction>)
    ensures |actions| == |lines|
    ensures forall k :: 0 <= k < |lines| ==> actions[k] == ParseEnvLine(lines[k])
  {
    seq(|lines|, k requires 0 <= k < |lines| => ParseEnvLine(lines[k]))
  }

  /** The environment after the lines of a file, and the error that stopped
      it; no variable is removed. */
  function LoadLines(env: map<string, string>, lines: seq<string>): (r: LoadOutcome)
    ensures env.Keys <= r.vars.Keys
  {
    LoadActions(env, ParseLines(lines))
  }

  /** Whether a parsed line assigns `key`. */
  predicate AssignsKey(action: LineAction, key: string)
  {
    action.Assign? && action.key == key
  }

  /** Skipped lines leave the environment as it was. */
  lemma SkippedLineKeepsEnv(env: map<string, string>, lines: seq<string>, line: string)
    requires ParseEnvLine(line).Skip?
    ensures LoadLines(env, lines + [line]) == LoadLines(env, lines)
  {
    assert ParseLines(lines + [line])[..|lines|] == ParseLines(lines);
  }

  /** When no line fails, a key no line assigns keeps its previous value,
      or stays absent. */
  lemma {:induction false} LoadActionsUntouched(env: map<string, string>, actions: seq<LineAction>, key: string)
    requires LoadActions(env, actions).error.None?
    requires forall j :: 0 <= j < |actions| ==> !AssignsKey(actions[j], key)
    ensures key in LoadActions(env, actions).vars <==> key in env
    ensures key in env ==> LoadActions(env, actions).vars[key] == env[key]
  {
    if actions != [] {
      var init := actions[..|actions| - 1];
      assert LoadActions(env, init).error.None?;
      assert forall j :: 0 <= j < |init| ==> init[j] == actions[j];
      LoadActionsUntouched(env, init, key);
    }
  }

  /** When no line fails, a key some line assigns holds the value of the
      last such line. */
  lemma {:induction false} LoadActionsLastWins(env: map<string, string>, actions: seq<LineAction>, key: string, j: nat)
    requires LoadActions(env, actions).error.None?
    requires j < |actions| && AssignsKey(actions[j], key)
    requires forall l :: j < l < |actions| ==> !AssignsKey(actions[l], key)
    ensures key in LoadActions(env, actions).vars
    ensures LoadActions(env, actions).vars[key] == actions[j].value
  {
    var init := actions[..|actions| - 1];
    assert LoadActions(env, init).error.None?;
    if j < |actions| - 1 {
      assert init[j] == actions[j];
      assert forall l :: j < l < |init| ==> init[l] == actions[l];
      LoadActionsLastWins(env, init, key, j);
    }
  }

  /** For the lines of a file that loads without error, a key no line
      assigns keeps its previous value, or stays absent. */
  lemma LoadLinesUntouched(env: map<string, string>, lines: seq<string>, key: string)
    requires LoadLines(env, lines).error.None?
    requires forall j :: 0 <= j < |lines| ==> !AssignsKey(ParseEnvLine(lines[j]), key)
    ensures key in LoadLines(env, lines).vars <==> key in env
    ensures key in env ==> LoadLines(env, lines).vars[key] == env[key]
  {
    LoadActionsUntouched(env, ParseLines(lines), key);
  }

  /** For the lines of a file that loads without error, a key some line
      assigns holds the value of the last such line. */
  lemma LoadLinesLastWins(env: map<string, string>, lines: seq<string>, key: string, j: nat)
    requires LoadLines(env, lines).error.None?
    requires j < |lines| && AssignsKey(ParseEnvLine(lines[j]), key)
    requires forall l :: j < l < |lines| ==> !AssignsKey(ParseEnvLine(lines[l]), key)
    ensures key in LoadLines(env, lines).vars
    ensures LoadLines(env, lines).vars[key] == ParseEnvLine(lines[j]).value
  {
    LoadActionsLastWins(env, ParseLines(lines), key, j);
  }

  /** The process environment as `os.environ` holds it. */
  class Environment {
    var vars: map<string, string>

    constructor(initial: map<string, string>)
      ensures vars == initial
    {
      vars := initial;
    }

    /** `load_env_file`; `file` holds the file's lines, or `None` when the
        file does not exist. The result is the `ValueError` that stops it. */
    method LoadEnvFile(file: Option<seq<string>>) returns (error: Option<string>)
      modifies this
      ensures file.None? ==> vars == old(vars) && error.None?
      ensures file.Some? ==> LoadOutcome(vars, error) == LoadLines(old(vars), file.value)
    {
      error := None;
      if file.None? {
        return;
      }
      var lines := file.value;
      ghost var actions := ParseLines(lines);
      var i := 0;
      assert actions[..0] == [];
      while i < |lines|
        invariant 0 <= i <= |lines|
        invariant LoadOutcome(vars, None) == LoadActions(old(vars), actions[..i])
      {
        LoadActionsSnoc(old(vars), actions, i);
        var action := ReadLine(lines[i]);
        if action.Assign? {
          var e := SetEnvError(action.key, action.value);
          if e.Some? {
            error := e;
            CollectStops(old(vars), actions, i + 1);
            return;
          }
          vars := vars[action.key := action.value];
        }
        assert LoadActions(old(vars), actions[..i + 1]) == LoadOutcome(vars, None);
        i := i + 1;
      }
      assert actions[..i] == actions;
    }
  }

  /** The body of `load_env_file`'s loop up to the assignment: strip the
      line, skip it or split it at its first `=`. */
  method ReadLine(raw: string) returns (action: LineAction)
    ensures action == ParseEnvLine(raw)
  {
    var line := Strip(raw);
    if |line| > 0 && line[0] != '#' && '=' in line {
      var split := IndexOf(line, '=');
      var key, value := Strip(line[..split]), Strip(line[split + 1..]);
      AssignmentLine(raw, line, split, key, value);
      return Assign(key, value);
    }
    SkippedLine(raw, line);
    return Skip;
  }

  /** The loop body's own split of a line agrees with `ParseEnvLine`. */
  lemma AssignmentLine(raw: string, line: string, split: nat, key: string, value: string)
    requires line == Strip(raw) && |line| > 0 && line[0] != '#' && '=' in line
    requires split == IndexOf(line, '=')
    requires key == Strip(line[..split]) && value == Strip(line[split + 1..])
    ensures ParseEnvLine(raw) == Assign(key, value)
  {
  }

  /** A blank line, a comment or a line without `=` is skipped. */
  lemma SkippedLine(raw: string, line: string)
    requires line == Strip(raw) && !(|line| > 0 && line[0] != '#' && '=' in line)
    ensures ParseEnvLine(raw) == Skip
  {
  }

  /** Loading one more parsed line is one more step. */
  lemma LoadActionsSnoc(env: map<string, string>, actions: seq<LineAction>, i: nat)
    requires i < |actions|
    ensures LoadActions(env, actions[..i + 1]) == Step(LoadActions(env, actions[..i]), actions[i])
  {
    assert actions[..i + 1][..i] == actions[..i];
  }

  /** Once a line has failed, the lines after it are not applied. */
  lemma {:induction false} CollectStops(env: map<string, string>, actions: seq<LineAction>, n: nat)
    requires n <= |actions| && LoadActions(env, actions[..n]).error.Some?
    ensures LoadActions(env, actions) == LoadActions(env, actions[..n])
  {
    if n < |actions| {
      var init := actions[..|actions| - 1];
      assert init[..n] == actions[..n];
      CollectStops(env, init, n);
    } else {
      assert actions[..n] == actions;
    }
  }

  /** The server settings `main` reads. */
  datatype ServerConfig = ServerConfig(host: string, port: int, logLevel: string)

  function GetOr(env: map<string, string>, key: string, default: string): string
  {
    if key in env then env[key] else default
  }

  /** `main`'s settings; `int()` of a malformed `API_PORT` raises. */
  function ConfigOf(env: map<string, string>): (r: Result<ServerConfig>)
    ensures r.Ok? <==> PyInt(GetOr(env, "API_PORT", "8000")).Some?
    ensures "API_PORT" !in env ==> r.Ok? && r.value.port == 8000
  {
    DefaultPortText();
    var port := GetOr(env, "API_PORT", "8000");
    match PyInt(port)
    case None => Err("invalid literal for int() with base 10: '" + port + "'")
    case Some(p) => Ok(ServerConfig(GetOr(env, "API_HOST", "0.0.0.0"), p, GetOr(env, "LOG_LEVEL", "info")))
  }

  /** `str(8000)` */
  lemma DefaultPortDigits()
    ensures IntToString(8000) == "8000"
  {
    assert NatToString(8) == ['8'];
    assert NatToString(80) == ['8', '0'];
    assert NatToString(800) == ['8', '0', '0'];
  }

  /** The default port text is read as 8000. */
  lemma DefaultPortText()
    ensures PyInt("8000") == Some(8000)
  {
    DefaultPortDigits();
    PyIntOfIntToString(8000);
  }

  /** With no `API_HOST` and `API_PORT` the server listens on `0.0.0.0:8000`;
      the log level is `LOG_LEVEL`, or `info` when that is unset too. */
  lemma ConfigDefaults(env: map<string, string>)
    requires "API_HOST" !in env && "API_PORT" !in env
    ensures ConfigOf(env).Ok?
    ensures ConfigOf(env).value.host == "0.0.0.0" && ConfigOf(env).value.port == 8000
    ensures "LOG_LEVEL" !in env ==> ConfigOf(env).value.logLevel == "info"
    ensures "LOG_LEVEL" in env ==> ConfigOf(env).value.logLevel == env["LOG_LEVEL"]
  {
    DefaultPortText();
  }

  /** A port given as the decimal text of an integer is read as that integer;
      host and log level are taken as given. */
  lemma ConfigReadsPort(env: map<string, string>, port: int)
    requires "API_PORT" in env && env["API_PORT"] == IntToString(port)
    ensures ConfigOf(env).Ok?
    ensures ConfigOf(env).value.port == port
    ensures "API_HOST" in env ==> ConfigOf(env).value.host == env["API_HOST"]
    ensures "LOG_LEVEL" in env ==> ConfigOf(env).value.logLevel == env["LOG_LEVEL"]
  {
    PyIntOfIntToString(port);
  }

  /** `main` up to starting the server: load `production.env`, then read
      the settings; an exception from either ends it. */
  method StartProduction(env: Environment, file: Option<seq<string>>) returns (config: Result<ServerConfig>)
    modifies env
    ensures file.None? ==> env.vars == old(env.vars)
    ensures file.Some? ==> env.vars == LoadLines(old(env.vars), file.value).vars
    ensures config == (match (if file.Some? then LoadLines(old(env.vars), file.value).error else None)
                       case Some(e) => Err(e)
                       case None => ConfigOf(env.vars))
  {
    var error := env.LoadEnvFile(file);
    if error.Some? {
      return Err(error.value);
    }
    config := ConfigOf(env.vars);
  }
}

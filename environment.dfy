/** The process environment as the Go tree reads it (core/util/context.go): variables are
    a map from name to value, and the result of `os.Stat` is a value of its own. */
module Environment {

  import opened Wrappers

  type Env = map<string, string>

  /** What a finished subprocess reports: whether it exited successfully, and its
      combined standard output and standard error. */
  datatype ProcessResult = ProcessResult(success: bool, output: string)

  /** `exec.Command(command, args...).CombinedOutput()`: the outcome of running a program
      with its arguments. */
  type Runner = (string, seq<string>) -> ProcessResult

  /** What `os.Stat` reports for a path. */
  datatype Stat = Found | NotExist | StatError(msg: string)

  /** `IsDebugMode`: debug mode is on only when `ESPRESSO_DEBUG` is set to exactly `1`. */
  function IsDebugMode(env: Env): (r: bool)
    ensures r <==> "ESPRESSO_DEBUG" in env && env["ESPRESSO_DEBUG"] == "1"
  {
    if "ESPRESSO_DEBUG" !in env then false else env["ESPRESSO_DEBUG"] == "1"
  }

  /** Other spellings of "on", such as `true` or `01`, leave debug mode off. */
  lemma DebugOnlyForOne(env: Env, v: string)
    ensures IsDebugMode(env["ESPRESSO_DEBUG" := v]) <==> v == "1"
  {
  }

  /** `GetJavaHome`: the value of `JAVA_HOME`, an error only when it is unset. */
  function GetJavaHome(env: Env): (r: Result<string>)
    ensures r.Err? <==> "JAVA_HOME" !in env
    ensures r.Ok? ==> r.value == env["JAVA_HOME"]
  {
    if "JAVA_HOME" in env then Ok(env["JAVA_HOME"]) else Err("java_home is not set")
  }

  /** `DoesPathExist`: the path counts as present unless the stat said it does not exist;
      the error half of the result is always nil. */
  function DoesPathExist(stat: Stat): (r: (bool, Option<string>))
    ensures r.1 == None
    ensures r.0 <==> !stat.NotExist?
  {
    (stat.Found? || !stat.NotExist?, None)
  }

  /** A path whose stat fails for any other reason (permission denied, say) is reported
      as existing. */
  lemma StatFailureCountsAsPresent(msg: string)
    ensures DoesPathExist(StatError(msg)) == (true, None)
  {
  }
}

/** The host capabilities the credential chain reads through: a snapshot of the
    process environment, a snapshot of the filesystem, `strconv.ParseBool`, and
    the snapstore package's environment helpers `GetEnvVarOrError` and
    `GetEnvVarToBool`. None of these are part of the modelled file; each is
    written here as the behaviour the credential chain relies on. */
module Host {
  import opened Wrappers

  /** Errors raised by the host capabilities. */
  datatype HostError =
    | ReadDirFailed(dir: string)      // os.ReadDir could not list the directory
    | ReadFileFailed(path: string)    // os.ReadFile could not read the file
    | ParseBoolSyntax(text: string)   // strconv.ParseBool rejected the text
    | MissingEnvVar(name: string)     // GetEnvVarOrError found the variable unset or empty

  /** A snapshot of the environment. A name absent from the map is unset; a
      name mapped to "" is set but empty: the two are different states. */
  type Env = map<string, string>

  /** A snapshot of the filesystem: the entry names each listable directory
      holds, in listing order, and the contents of each readable file. */
  datatype FileSystem = FileSystem(dirs: map<string, seq<string>>, files: map<string, string>)

  /** `os.LookupEnv`: the value, and whether the variable is set at all. */
  function LookupEnv(env: Env, name: string): (r: Option<string>)
    ensures r.Some? <==> name in env
    ensures r.Some? ==> r.value == env[name]
  {
    if name in env then Some(env[name]) else None
  }

  /** `os.Getenv`: an unset variable reads as the empty string. */
  function Getenv(env: Env, name: string): (r: string)
    ensures r != "" ==> name in env && env[name] == r
    ensures name in env ==> r == env[name]
  {
    match LookupEnv(env, name)
    case Some(v) => v
    case None => ""
  }

  /** "The variable is set and not empty." */
  predicate HasValue(env: Env, name: string)
  {
    name in env && env[name] != ""
  }

  /** `os.ReadDir`. */
  function ReadDir(fs: FileSystem, dir: string): (r: Result<seq<string>, HostError>)
    ensures r.Ok? <==> dir in fs.dirs
    ensures r.Ok? ==> r.value == fs.dirs[dir]
    ensures r.Err? ==> r.error == ReadDirFailed(dir)
  {
    if dir in fs.dirs then Ok(fs.dirs[dir]) else Err(ReadDirFailed(dir))
  }

  /** `os.ReadFile`, with the bytes already taken as a string. */
  function ReadFile(fs: FileSystem, path: string): (r: Result<string, HostError>)
    ensures r.Ok? <==> path in fs.files
    ensures r.Ok? ==> r.value == fs.files[path]
    ensures r.Err? ==> r.error == ReadFileFailed(path)
  {
    if path in fs.files then Ok(fs.files[path]) else Err(ReadFileFailed(path))
  }

  /** The literals `strconv.ParseBool` documents as true and as false. */
  const TrueLiterals: set<string> := {"1", "t", "T", "TRUE", "true", "True"}
  const FalseLiterals: set<string> := {"0", "f", "F", "FALSE", "false", "False"}

  /** `strconv.ParseBool`: exactly the documented literals, nothing trimmed. */
  function ParseBool(text: string): (r: Result<bool, HostError>)
    ensures r.Ok? <==> text in TrueLiterals + FalseLiterals
    ensures r == Ok(true) <==> text in TrueLiterals
    ensures r.Err? ==> r.error == ParseBoolSyntax(text)
  {
    if text in TrueLiterals then Ok(true)
    else if text in FalseLiterals then Ok(false)
    else Err(ParseBoolSyntax(text))
  }

  /** `GetEnvVarOrError`: the value of a variable that is set and not empty,
      otherwise an error naming the variable. */
  function GetEnvVarOrError(env: Env, name: string): (r: Result<string, HostError>)
    ensures r.Ok? <==> HasValue(env, name)
    ensures r.Ok? ==> r.value == env[name] && r.value != ""
    ensures r.Err? ==> r.error == MissingEnvVar(name)
  {
    var value := Getenv(env, name);
    if value == "" then Err(MissingEnvVar(name)) else Ok(value)
  }

  /** `GetEnvVarToBool`: `GetEnvVarOrError` followed by `strconv.ParseBool`. */
  function GetEnvVarToBool(env: Env, name: string): (r: Result<bool, HostError>)
    ensures r.Ok? <==> name in env && env[name] in TrueLiterals + FalseLiterals
    ensures r == Ok(true) <==> name in env && env[name] in TrueLiterals
  {
    match GetEnvVarOrError(env, name)
    case Err(e) => Err(e)
    case Ok(value) => ParseBool(value)
  }
}

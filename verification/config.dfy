/**
 * Configuration resolution at the start of `main` (main.go:144-191): command-line
 * values first, then the environment loaded from the config file for whatever is
 * still empty, then a check that the three API settings are present.
 *
 * The environment as it stands after the file has been loaded is an input map
 * (a missing key reads as ""); whether the file exists and whether it loads are
 * inputs too. `envToInt`'s integer scan is the parameter `scan`.
 */
module Config {
  import opened Wrappers

  datatype Settings = Settings(
    baseUrl: string,
    loginName: string,
    password: string,
    debug: bool,
    printRows: bool,
    emailTo: string,
    smtpHost: string,
    smtpPort: int,
    smtpUser: string,
    smtpPass: string,
    smtpFrom: string,
    configFile: string)

  /** What `os.Stat` and `godotenv.Load` found: no file, a file that fails to load, a loaded file. */
  datatype FileState = Missing | Unloadable | Loaded

  datatype ConfigError = LoadFailed(path: string) | MissingRequired

  type Env = map<string, string>

  const DefaultSmtpPort: int := 587

  /** `os.Getenv`: the empty string for an unset variable. */
  function Getenv(env: Env, key: string): (v: string)
    ensures key !in env ==> v == ""
    ensures key in env ==> v == env[key]
  {
    if key in env then env[key] else ""
  }

  /** `envToInt`: the default for an empty or unscannable value, otherwise the scanned number. */
  function EnvToInt(env: Env, key: string, default: int, scan: string -> Option<int>): (n: int)
    ensures Getenv(env, key) == "" ==> n == default
    ensures Getenv(env, key) != "" && scan(Getenv(env, key)).None? ==> n == default
    ensures Getenv(env, key) != "" && scan(Getenv(env, key)).Some? ==> n == scan(Getenv(env, key)).value
  {
    var v := Getenv(env, key);
    if v == "" then default
    else match scan(v)
      case None => default
      case Some(k) => k
  }

  /** The three API settings; the file is consulted only when one of them is empty. */
  predicate RequiredMissing(s: Settings) {
    s.baseUrl == "" || s.loginName == "" || s.password == ""
  }

  /** A string setting keeps its command-line value unless that value is empty. */
  function OrEnv(flag: string, env: Env, key: string): (v: string)
    ensures flag != "" ==> v == flag
    ensures flag == "" ==> v == Getenv(env, key)
  {
    if flag == "" then Getenv(env, key) else flag
  }

  /** Fills every empty setting from the environment; the port only when it is 0. */
  function FillFromEnv(flags: Settings, env: Env, scan: string -> Option<int>): (s: Settings)
    ensures s.debug == flags.debug && s.printRows == flags.printRows && s.configFile == flags.configFile
    ensures flags.smtpPort != 0 ==> s.smtpPort == flags.smtpPort
    ensures flags.smtpPort == 0 ==> s.smtpPort == EnvToInt(env, "SMTP_PORT", DefaultSmtpPort, scan)
  {
    flags.(
      baseUrl := OrEnv(flags.baseUrl, env, "BASE_URL"),
      loginName := OrEnv(flags.loginName, env, "LOGIN_NAME"),
      password := OrEnv(flags.password, env, "PASSWORD"),
      emailTo := OrEnv(flags.emailTo, env, "EMAIL_TO"),
      smtpHost := OrEnv(flags.smtpHost, env, "SMTP_HOST"),
      smtpPort := if flags.smtpPort == 0 then EnvToInt(env, "SMTP_PORT", DefaultSmtpPort, scan) else flags.smtpPort,
      smtpUser := OrEnv(flags.smtpUser, env, "SMTP_USER"),
      smtpPass := OrEnv(flags.smtpPass, env, "SMTP_PASS"),
      smtpFrom := OrEnv(flags.smtpFrom, env, "SMTP_FROM"))
  }

  /** Every non-empty string setting of `flags` is unchanged in `s`. */
  predicate KeepsFlags(flags: Settings, s: Settings) {
    && (flags.baseUrl != "" ==> s.baseUrl == flags.baseUrl)
    && (flags.loginName != "" ==> s.loginName == flags.loginName)
    && (flags.password != "" ==> s.password == flags.password)
    && (flags.emailTo != "" ==> s.emailTo == flags.emailTo)
    && (flags.smtpHost != "" ==> s.smtpHost == flags.smtpHost)
    && (flags.smtpUser != "" ==> s.smtpUser == flags.smtpUser)
    && (flags.smtpPass != "" ==> s.smtpPass == flags.smtpPass)
    && (flags.smtpFrom != "" ==> s.smtpFrom == flags.smtpFrom)
    && (flags.smtpPort != 0 ==> s.smtpPort == flags.smtpPort)
  }

  /** Whether the merge reads the environment at all. */
  predicate ConsultsFile(flags: Settings, file: FileState) {
    RequiredMissing(flags) && file == Loaded
  }

  /** The merge step: a config file that exists but fails to load is fatal. */
  function Merge(flags: Settings, file: FileState, env: Env, scan: string -> Option<int>): (r: Result<Settings, ConfigError>)
    ensures r.Failure? <==> RequiredMissing(flags) && file == Unloadable
    ensures r.Failure? ==> r.error == LoadFailed(flags.configFile)
    ensures r.Success? ==> KeepsFlags(flags, r.value)
    ensures r.Success? && !ConsultsFile(flags, file) ==> r.value == flags
    ensures r.Success? && ConsultsFile(flags, file) ==> r.value == FillFromEnv(flags, env, scan)
  {
    if !RequiredMissing(flags) then Success(flags)
    else match file
      case Missing => Success(flags)
      case Unloadable => Failure(LoadFailed(flags.configFile))
      case Loaded => Success(FillFromEnv(flags, env, scan))
  }

  /** Merge, then refuse to go on without the three API settings. */
  function Resolve(flags: Settings, file: FileState, env: Env, scan: string -> Option<int>): (r: Result<Settings, ConfigError>)
    ensures r.Success? ==> !RequiredMissing(r.value) && KeepsFlags(flags, r.value)
    ensures r.Success? ==> Merge(flags, file, env, scan).Success? && r.value == Merge(flags, file, env, scan).value
    ensures r.Failure? && r.error == MissingRequired <==>
            Merge(flags, file, env, scan).Success? && RequiredMissing(Merge(flags, file, env, scan).value)
    ensures r.Failure? && r.error.LoadFailed? <==> Merge(flags, file, env, scan).Failure?
    ensures r.Failure? && r.error.LoadFailed? ==> r.error == Merge(flags, file, env, scan).error
  {
    match Merge(flags, file, env, scan)
    case Failure(e) => Failure(e)
    case Success(s) => if RequiredMissing(s) then Failure(MissingRequired) else Success(s)
  }

  /** The environment matters only when a required setting is missing and the file loaded. */
  lemma EnvIgnoredUnlessConsulted(flags: Settings, file: FileState, env1: Env, env2: Env, scan: string -> Option<int>)
    requires !ConsultsFile(flags, file)
    ensures Resolve(flags, file, env1, scan) == Resolve(flags, file, env2, scan)
  {
  }

  /** With all three API settings on the command line, the result is the command line itself. */
  lemma CompleteFlagsResolveToThemselves(flags: Settings, file: FileState, env: Env, scan: string -> Option<int>)
    requires !RequiredMissing(flags)
    ensures Resolve(flags, file, env, scan) == Success(flags)
  {
  }

  /** Once the file is consulted, an empty setting ends up with the environment's value. */
  lemma EmptyFlagsTakeEnv(flags: Settings, env: Env, scan: string -> Option<int>)
    requires RequiredMissing(flags)
    ensures var s := Merge(flags, Loaded, env, scan).value;
      && (flags.baseUrl == "" ==> s.baseUrl == Getenv(env, "BASE_URL"))
      && (flags.loginName == "" ==> s.loginName == Getenv(env, "LOGIN_NAME"))
      && (flags.password == "" ==> s.password == Getenv(env, "PASSWORD"))
      && (flags.emailTo == "" ==> s.emailTo == Getenv(env, "EMAIL_TO"))
      && (flags.smtpHost == "" ==> s.smtpHost == Getenv(env, "SMTP_HOST"))
      && (flags.smtpUser == "" ==> s.smtpUser == Getenv(env, "SMTP_USER"))
      && (flags.smtpPass == "" ==> s.smtpPass == Getenv(env, "SMTP_PASS"))
      && (flags.smtpFrom == "" ==> s.smtpFrom == Getenv(env, "SMTP_FROM"))
  {
  }

  /** Without a loadable file, a missing setting stays missing and validation fails. */
  lemma NoFileNoRescue(flags: Settings, env: Env, scan: string -> Option<int>)
    requires RequiredMissing(flags)
    ensures Resolve(flags, Missing, env, scan) == Failure(MissingRequired)
  {
  }
}

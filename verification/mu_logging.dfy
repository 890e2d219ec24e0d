/** The level mapping and message filter of `MULogging`.

    The custom levels run from FATAL (1) to VERBOSE (6); a message is emitted when
    its level is at most the configured one, and it goes to one of the five methods
    of Python's logger, which applies its own level (the `logging` module's numbers)
    on top. */
module MuLogging {
  import opened Results

  const VERBOSE: int := 6
  const DEBUG: int := 5
  const INFO: int := 4
  const WARNING: int := 3
  const ERROR: int := 2
  const FATAL: int := 1

  /** Numeric levels of Python's `logging` module (`FATAL` is `CRITICAL`). */
  const LOGGING_DEBUG: int := 10
  const LOGGING_INFO: int := 20
  const LOGGING_WARNING: int := 30
  const LOGGING_ERROR: int := 40
  const LOGGING_FATAL: int := 50

  /** The pair `determine_log_level` sets: `log_level` and `logging_log_level`. */
  datatype LevelConfig = LevelConfig(logLevel: int, loggingLogLevel: int)

  /** The configuration chosen, and the notice printed when the configured name is
      not a level name. */
  datatype Determined = Determined(config: LevelConfig, notice: Option<string>)

  predicate IsCustomLevel(level: int)
  {
    FATAL <= level <= VERBOSE
  }

  /** The configuration name of each custom level. */
  function LevelName(level: int): string
    requires IsCustomLevel(level)
  {
    if level == VERBOSE then "VERBOSE"
    else if level == DEBUG then "DEBUG"
    else if level == INFO then "INFO"
    else if level == WARNING then "WARNING"
    else if level == ERROR then "ERROR"
    else "FATAL"
  }

  predicate IsLevelName(s: string)
  {
    s in {"VERBOSE", "DEBUG", "INFO", "WARNING", "ERROR", "FATAL"}
  }

  /** The five methods of a Python logger the filter routes to. */
  datatype LoggerMethod = Critical | Error | Warning | Info | Debug

  /** The Python level at which each logger method records. */
  function MethodLevel(m: LoggerMethod): int
  {
    match m
    case Critical => LOGGING_FATAL
    case Error => LOGGING_ERROR
    case Warning => LOGGING_WARNING
    case Info => LOGGING_INFO
    case Debug => LOGGING_DEBUG
  }

  /** The routing of `log`: FATAL, ERROR, WARNING and INFO to their own method,
      every other level (DEBUG, VERBOSE, or anything else) to `debug`. */
  function Route(level: int): (m: LoggerMethod)
    ensures m.Critical? <==> level == FATAL
    ensures m.Error? <==> level == ERROR
    ensures m.Warning? <==> level == WARNING
    ensures m.Info? <==> level == INFO
    ensures m.Debug? <==> !(FATAL <= level <= INFO)
  {
    if level == FATAL then Critical
    else if level == ERROR then Error
    else if level == WARNING then Warning
    else if level == INFO then Info
    else Debug
  }

  /** `determine_log_level`: a level name selects its level, and the Python level is
      the one of the method that level is routed to; any other name falls back to
      DEBUG with a printed notice. */
  function DetermineLogLevel(configured: string): (d: Determined)
    ensures IsCustomLevel(d.config.logLevel)
    ensures d.config.loggingLogLevel == MethodLevel(Route(d.config.logLevel))
    ensures d.notice.None? <==> IsLevelName(configured)
    ensures IsLevelName(configured) ==> LevelName(d.config.logLevel) == configured
    ensures !IsLevelName(configured) ==> d.config == LevelConfig(DEBUG, LOGGING_DEBUG)
    ensures !IsLevelName(configured) ==>
      d.notice == Some("invalid log level >" + configured + "< in config.json. Defaulting to DEBUG")
  {
    if configured == "VERBOSE" then Determined(LevelConfig(VERBOSE, LOGGING_DEBUG), None)
    else if configured == "DEBUG" then Determined(LevelConfig(DEBUG, LOGGING_DEBUG), None)
    else if configured == "INFO" then Determined(LevelConfig(INFO, LOGGING_INFO), None)
    else if configured == "WARNING" then Determined(LevelConfig(WARNING, LOGGING_WARNING), None)
    else if configured == "ERROR" then Determined(LevelConfig(ERROR, LOGGING_ERROR), None)
    else if configured == "FATAL" then Determined(LevelConfig(FATAL, LOGGING_FATAL), None)
    else
      var notice := "invalid log level >" + configured + "< in config.json. Defaulting to DEBUG";
      Determined(LevelConfig(DEBUG, LOGGING_DEBUG), Some(notice))
  }

  /** One call of a logger method with the text it records. */
  datatype LoggerCall = LoggerCall(loggerMethod: LoggerMethod, message: string)

  /** `log`: at most one logger call, made exactly when the message passes the
      threshold, carrying the text `caller - msg`. */
  function Log(config: LevelConfig, level: int, msg: string, caller: string): (r: Option<LoggerCall>)
    ensures r.Some? <==> level <= config.logLevel
    ensures r.Some? ==> r.value.message == caller + " - " + msg
    ensures r.Some? ==> MethodLevel(r.value.loggerMethod) == (if FATAL <= level <= INFO then 10 * (6 - level) else LOGGING_DEBUG)
  {
    if level <= config.logLevel then Some(LoggerCall(Route(level), caller + " - " + msg)) else None
  }

  /** Python's logger, set to `loggingLogLevel`, records the call. */
  predicate Recorded(config: LevelConfig, call: Option<LoggerCall>)
  {
    call.Some? && MethodLevel(call.value.loggerMethod) >= config.loggingLogLevel
  }

  /** Each level name and its level determine each other. */
  lemma LevelNameRoundTrip(level: int, name: string)
    requires IsCustomLevel(level)
    requires IsLevelName(name)
    ensures DetermineLogLevel(LevelName(level)).config.logLevel == level
    ensures DetermineLogLevel(LevelName(level)).notice.None?
    ensures LevelName(DetermineLogLevel(name).config.logLevel) == name
  {
  }

  /** For every configured name and every custom level, the message reaches the
      log handlers exactly when it passes the custom threshold: the Python level set
      by `determine_log_level` never drops what the threshold let through. */
  lemma {:induction false} ThresholdAgreesWithLogger(configured: string, level: int, msg: string, caller: string)
    requires IsCustomLevel(level)
    ensures
      var config := DetermineLogLevel(configured).config;
      Recorded(config, Log(config, level, msg, caller)) <==> level <= config.logLevel
  {
    var config := DetermineLogLevel(configured).config;
    if level <= config.logLevel {
      var call := Log(config, level, msg, caller);
      assert call.Some?;
      assert MethodLevel(Route(level)) >= MethodLevel(Route(config.logLevel)) by {
        RouteMonotone(level, config.logLevel);
      }
    }
  }

  /** A lower custom level (more severe) is routed to a method with a Python level
      at least as high. */
  lemma RouteMonotone(a: int, b: int)
    requires a <= b
    ensures MethodLevel(Route(a)) >= MethodLevel(Route(b)) || a < FATAL
  {
  }

  /** VERBOSE admits every custom level; FATAL admits only FATAL. */
  lemma VerboseAdmitsAllFatalOnlyFatal(level: int, msg: string, caller: string)
    requires IsCustomLevel(level)
    ensures Log(DetermineLogLevel("VERBOSE").config, level, msg, caller).Some?
    ensures Log(DetermineLogLevel("FATAL").config, level, msg, caller).Some? <==> level == FATAL
  {
  }

  /** A level below FATAL (0 or any negative number) passes the custom threshold
      under every configured name and is routed to `debug`, so Python's logger keeps
      it exactly when it is set to its DEBUG level: under INFO, WARNING, ERROR and
      FATAL such a message is dropped although it is more severe than FATAL. */
  lemma LevelBelowFatalGoesToDebug(configured: string, level: int, msg: string, caller: string)
    requires level < FATAL
    ensures
      var config := DetermineLogLevel(configured).config;
      var call := Log(config, level, msg, caller);
      && call.Some?
      && call.value.loggerMethod == Debug
      && (Recorded(config, call) <==> config.loggingLogLevel == LOGGING_DEBUG)
  {
  }
}

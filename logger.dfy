/**
 * Loggers (src/support/logger.ts). A logger is a dictionary from method
 * names to log functions; a log function is either a sink of the host
 * (`console.debug`, `console.warn`, ...) or a prefixing wrapper built by
 * `wrapLoggerMethod`. Calling a log function delivers lines to sinks; the
 * text a caller formats is represented by the values it interpolates.
 */
module Log {
  import opened Wrappers

  datatype LogFunction =
    | Sink(name: string)
    | Wrapped(prefix: string, inner: Option<Logger>, level: string)

  datatype Logger = Logger(methods: map<string, LogFunction>)

  /** One line delivered to a host sink, with its arguments. */
  datatype Line = Line(sink: string, args: seq<string>)

  /** The lines delivered when `f` is called with `args`. */
  function Invoke(f: LogFunction, args: seq<string>): seq<Line>
    decreases f
  {
    match f
    case Sink(name) => [Line(name, args)]
    case Wrapped(prefix, inner, level) =>
      if inner.None? || level !in inner.value.methods then []
      else Invoke(inner.value.methods[level], [prefix] + args)
  }

  /** What a call produced, with the lines it logged on the way. */
  datatype Logged<T> = Logged(outcome: Completion<T>, lines: seq<Line>)

  /** `logger[level] && logger[level](...args)`: a missing method is skipped. */
  function Emit(logger: Logger, level: string, args: seq<string>): seq<Line>
  {
    if level in logger.methods then Invoke(logger.methods[level], args) else []
  }

  /** `wrapLoggerMethod`: calls `logger[level]` with the prefix in front of the arguments. */
  function WrapLoggerMethod(prefix: string, logger: Option<Logger>, level: string): (f: LogFunction)
    ensures forall args: seq<string> ::
              Invoke(f, args) == (if logger.None? then [] else Emit(logger.value, level, [prefix] + args))
  {
    Wrapped(prefix, logger, level)
  }

  /** The keys `prefixLogger` installs, as written: `wrap` stands where `warn` belongs. */
  const PrefixedLevels: seq<string> := ["debug", "info", "wrap", "error"]

  /** The four levels a logger has. */
  const LogLevels: seq<string> := ["debug", "info", "warn", "error"]

  /** `newLogger` holds exactly the `levels`, each wrapping the same-named method of `logger`. */
  ghost predicate PrefixesEach(newLogger: Logger, prefix: string, logger: Option<Logger>, levels: seq<string>)
  {
    && newLogger.methods.Keys == (set l | l in levels)
    && forall l | l in levels :: l in newLogger.methods && newLogger.methods[l] == WrapLoggerMethod(prefix, logger, l)
  }

  /** Fills a fresh dictionary with one wrapper per name in `levels`. */
  method FillPrefixed(prefix: string, logger: Option<Logger>, levels: seq<string>) returns (newLogger: Logger)
    ensures PrefixesEach(newLogger, prefix, logger, levels)
  {
    var methods: map<string, LogFunction> := map[];
    for i := 0 to |levels|
      invariant methods.Keys == set l | l in levels[..i]
      invariant forall l | l in levels[..i] :: methods[l] == WrapLoggerMethod(prefix, logger, l)
    {
      methods := methods[levels[i] := WrapLoggerMethod(prefix, logger, levels[i])];
    }
    assert levels[..|levels|] == levels;
    newLogger := Logger(methods);
  }

  /**
   * `prefixLogger`: a new dictionary (the wrapped logger is a value and is
   * left as it was) whose keys are exactly `debug`, `info`, `wrap`, `error`.
   */
  method PrefixLogger(prefix: string, logger: Option<Logger>) returns (newLogger: Logger)
    ensures PrefixesEach(newLogger, prefix, logger, PrefixedLevels)
    ensures "warn" !in newLogger.methods
  {
    newLogger := FillPrefixed(prefix, logger, PrefixedLevels);
  }

  /**
   * A prefixed logger forwards each installed level to the same level of the
   * wrapped logger with the prefix in front, and drops every other level.
   */
  lemma PrefixedForwarding(newLogger: Logger, prefix: string, logger: Option<Logger>,
                           levels: seq<string>, level: string, args: seq<string>)
    requires PrefixesEach(newLogger, prefix, logger, levels)
    ensures level in levels && logger.Some? ==>
      Emit(newLogger, level, args) == Emit(logger.value, level, [prefix] + args)
    ensures level !in levels || logger.None? ==> Emit(newLogger, level, args) == []
  {
    if level in levels {
      assert level in newLogger.methods;
    } else {
      assert level !in newLogger.methods.Keys;
    }
  }

  /** A logger whose every level writes straight to the host sink of the same name. */
  function ConsoleLike(): (c: Logger)
    ensures forall l | l in LogLevels :: l in c.methods && c.methods[l] == Sink(l)
  {
    Logger(map l | l in LogLevels :: Sink(l))
  }

  /** As written, a warning through a prefixed console reaches no sink. */
  lemma PrefixedWarnIsLost(newLogger: Logger, prefix: string, args: seq<string>)
    requires PrefixesEach(newLogger, prefix, Some(ConsoleLike()), PrefixedLevels)
    ensures Emit(ConsoleLike(), "warn", [prefix] + args) == [Line("warn", [prefix] + args)]
    ensures Emit(newLogger, "warn", args) == []
  {
    PrefixedForwarding(newLogger, prefix, Some(ConsoleLike()), PrefixedLevels, "warn", args);
  }

  /** `prefixLogger` with the evidently intended key `warn` in place of `wrap`. */
  method PrefixLoggerIntended(prefix: string, logger: Option<Logger>) returns (newLogger: Logger)
    ensures PrefixesEach(newLogger, prefix, logger, LogLevels)
    ensures forall l, args: seq<string> | l in LogLevels && logger.Some? ::
      Emit(newLogger, l, args) == Emit(logger.value, l, [prefix] + args)
  {
    newLogger := FillPrefixed(prefix, logger, LogLevels);
    forall l, args: seq<string> | l in LogLevels && logger.Some?
      ensures Emit(newLogger, l, args) == Emit(logger.value, l, [prefix] + args)
    {
      PrefixedForwarding(newLogger, prefix, logger, LogLevels, l, args);
    }
  }

  /** Through the corrected wrapper every level of a console reaches its sink, prefixed. */
  lemma IntendedPrefixReachesEverySink(newLogger: Logger, prefix: string, level: string, args: seq<string>)
    requires PrefixesEach(newLogger, prefix, Some(ConsoleLike()), LogLevels)
    requires level in LogLevels
    ensures Emit(newLogger, level, args) == [Line(level, [prefix] + args)]
  {
    PrefixedForwarding(newLogger, prefix, Some(ConsoleLike()), LogLevels, level, args);
  }
}

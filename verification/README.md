# jdk14-log in Dafny

A model of the `com.veracloud.logging` facade: a registry (`LogFactory`) that
hands out one `Log` handle per logger name, and the `Log` handle itself, which
gates each of five severities on the `java.util.logging` backend, formats the
message, attributes the record to the code that called the facade, and hands
the record to the backend.

Modules, following the source:

- `Wrappers` — `Option`, `Result` and a map lookup.
- `Levels` — the facade severities Trace < Debug < Info < Warn < Error and the
  backend levels they are delegated to (FINEST, FINE, INFO, WARNING, SEVERE).
- `CallerData` — the two-pass scan of `fillCallerData` over a stack of
  `(className, methodName)` frames, as a recursive reference definition and
  as the two loops of the source.
- `Logging` — the `Log` handle, `LogRecord`, the enablement queries and the
  emit calls. The backend's `isLoggable` and `String.format` are
  uninterpreted functions held in a `Backend` value; `String.format` may fail
  with a `FormatError`. The records the backend receives are an explicit
  sequence that an emit call extends.
- `LogFactory` — the registry as a value `Registry(loggers, nextRef)`, where
  `nextRef` gives every newly built handle an identity (Java reference
  identity). `putIfAbsent` is one atomic step; the lookups of other threads
  that can run between the optimistic read and the `putIfAbsent` are a
  parameter of `GetLogRacing`.

The ten overloads `t/d/i/w/e(format, args)` and `t/d/i/w/e(t, format, args)`
differ only in their level and in whether a throwable is passed. They are one
function, `Logging.Emit`, taking the facade `Level` and an `Option<Throwable>`
(None for the plain overload). The five `isXEnabled` queries are
`Logging.IsEnabled` with the same `Level`.

Two edge cases of the code, kept as written:

- With no frame of the facade class, `selfIndex` stays -1, the second pass
  starts at index 0, and the innermost frame is attributed; attribution is
  not skipped (`CallerData.NoFacadeFramePicksInnermost`).
- Any string, the empty one included, is accepted as a logger name.

## Model

| member | source | states |
|---|---|---|
| CallerData.FirstFrom | src/com/veracloud/logging/Log.java:261-277 | the index returned by either scanning pass is the first one at or after the start whose frame is (or is not) a facade frame, and -1 exactly when no such frame exists |
| CallerData.FirstFromUnique | src/com/veracloud/logging/Log.java:261-277 | the first-match description pins the scan result down uniquely |
| CallerData.SelfIndex | src/com/veracloud/logging/Log.java:261-268 | `selfIndex` is the smallest index of a frame of the facade class, or -1 exactly when the stack has none; every frame before it is a non-facade frame |
| CallerData.CallerIndex | src/com/veracloud/logging/Log.java:270-277 | `found` lies after `selfIndex`, its frame is not of the facade class, every frame strictly between the two is; -1 exactly when every frame after `selfIndex` is a facade frame |
| CallerData.FindCaller | src/com/veracloud/logging/Log.java:258-277 | the two `for` loops with `break` compute the same index as the reference definition, and it is -1 or a non-facade frame |
| CallerData.NoFacadeFramePicksInnermost | src/com/veracloud/logging/Log.java:261-279 | with no facade frame, a non-empty stack attributes the record to frame 0 and an empty stack attributes nothing |
| CallerData.SkipsFacadeRun | src/com/veracloud/logging/Log.java:262-277 | after a facade-free prefix, a whole run of consecutive facade frames is skipped and the next frame is the caller |
| CallerData.PrefixIrrelevant | src/com/veracloud/logging/Log.java:261-277 | non-facade frames before the first facade frame only shift both indices and never change the resolved caller |
| CallerData.ResolveCaller | src/com/veracloud/logging/Log.java:270-280 | the selected frame `steArray[found]` is the first frame after the first facade frame that is not of the facade class (every frame between is a facade frame); none is selected exactly when every later frame is a facade frame |
| CallerData.PrefixChoiceIrrelevant | src/com/veracloud/logging/Log.java:261-277 | two stacks that differ only in their facade-free prefix resolve to the same caller |
| Logging.IsEnabled | src/com/veracloud/logging/Log.java:30-213 | the five enablement queries ask the backend logger of the handle's name about FINEST, FINE, INFO, WARNING and SEVERE respectively |
| Logging.FillCallerData | src/com/veracloud/logging/Log.java:279-285 | when a caller is found both source fields are set from that frame; otherwise the record is unchanged; level, message and thrown are never touched |
| Logging.AttributionFromOneFrame | src/com/veracloud/logging/Log.java:279-284 | the source class and method are set together, name the first non-facade frame after the first facade frame, and are unset exactly when every later frame is a facade frame |
| Logging.BuildRecord | src/com/veracloud/logging/Log.java:251-256 | the private `log` builds a record with the given level, message and throwable, whose source fields are those of the resolved caller frame or unset |
| Logging.Emit | src/com/veracloud/logging/Log.java:43-256 | a disabled level delivers nothing even if formatting would fail; an enabled level propagates the formatting error or appends exactly one record with the mapped level, the formatted message and the throwable (None for the plain overload), earlier records unchanged |
| Logging.NoOpIffDisabled | src/com/veracloud/logging/Log.java:30-245 | an emit call leaves the delivered records unchanged and succeeds exactly when the enablement query of its level returns false, so query and emit consult the same backend level |
| Logging.DeliversOneIffLoggable | src/com/veracloud/logging/Log.java:43-245 | exactly one record is delivered iff the backend level is loggable and formatting succeeds; otherwise none |
| Logging.DeliveredRecordAttribution | src/com/veracloud/logging/Log.java:251-256 | the delivered record carries the class and method of the caller frame found over the facade's class name, or no source fields when none is found |
| Logging.ThresholdGatesDebug | src/com/veracloud/logging/Log.java:88-92 | with the backend at INFO a debug call delivers nothing; at FINE it delivers one record with the formatted message |
| Levels.BackendLevel | src/com/veracloud/logging/Log.java:30-245 | each severity maps to one of FINEST, FINE, INFO, WARNING, SEVERE |
| Levels.BackendLevelPreservesOrder | src/com/veracloud/logging/Log.java:30-245 | the mapping is one-to-one and keeps the order Trace < Debug < Info < Warn < Error |
| Levels.ThresholdEnablesUpward | src/com/veracloud/logging/Log.java:30-213 | under a threshold backend, a severity's query being true implies every more severe query is true |
| Wrappers.Get | src/com/veracloud/logging/LogFactory.java:41 | the optimistic read finds a handle exactly when the name is stored, and it is the stored one |
| LogFactory.Allocate | src/com/veracloud/logging/LogFactory.java:45 | `new Log(name)` yields a handle bound to `name` whose identity no stored handle has |
| LogFactory.PutIfAbsent | src/com/veracloud/logging/LogFactory.java:46 | a present name keeps and returns its handle; an absent one is bound to the candidate and nothing is returned; other entries are untouched |
| LogFactory.GetLog | src/com/veracloud/logging/LogFactory.java:40-49 | a stored name returns its handle and leaves the registry unchanged; afterwards the name is stored and bound to the returned handle; only the entry for the name can be added, nothing is removed or rebound |
| LogFactory.GetLogRacing | src/com/veracloud/logging/LogFactory.java:40-49 | whatever other lookups run between the read and `putIfAbsent`, a stored name returns its handle unchanged, and afterwards the name is bound to the handle returned |
| LogFactory.InitialValid | src/com/veracloud/logging/LogFactory.java:34 | the registry starts empty and valid |
| LogFactory.GetLogPreservesValid | src/com/veracloud/logging/LogFactory.java:40-49 | a lookup keeps every stored handle bound to its own name and distinct names on distinct handles; an inserted handle is fresh |
| LogFactory.GetLogIdempotent | src/com/veracloud/logging/LogFactory.java:40-49 | a second lookup of the same name returns the identical handle and changes nothing |
| LogFactory.RunAllSpec | src/com/veracloud/logging/LogFactory.java:34-49 | any sequence of lookups keeps the registry valid, only grows it by the names asked for, and every call returns the handle finally stored under its name |
| LogFactory.RunAllConverges | src/com/veracloud/logging/LogFactory.java:40-49 | across a sequence of lookups, two calls return the same handle iff they asked for the same name, and distinct names get handles of distinct identity |
| LogFactory.GetLogRacingSpec | src/com/veracloud/logging/LogFactory.java:40-49 | with other lookups run between the read and `putIfAbsent`, the result is the handle stored under the name; if another thread inserted the name meanwhile its handle is returned and the candidate discarded, otherwise the candidate is stored |
| LogFactory.RacingConverges | src/com/veracloud/logging/LogFactory.java:45-47 | after a raced lookup, every later lookup of the name returns the same handle |
| LogFactory.GetLogForClass | src/com/veracloud/logging/LogFactory.java:36-38 | lookup by class stores and returns the handle under the class's name, the stored one if it was present |

## Left out

- The static initializer of `LogFactory` that reads `/logging.properties` into the `LogManager` and prints errors: resource I/O and backend configuration.
- `java.util.logging` itself: `Logger.getLogger`, `isLoggable`, `Logger.log` and what a `LogRecord` infers on its own when its source fields are left unset. `isLoggable` is an uninterpreted function of logger name and level; `ThresholdLoggable` is only an example gate used by two lemmas.
- The semantics of `String.format`: an uninterpreted function that returns the message or a `FormatError`.
- Stack capture (`new Throwable().getStackTrace()`): the frame sequence is a parameter of the scan and of `Emit`.
- Thread safety of `ConcurrentHashMap`: `putIfAbsent` is one atomic step, and other threads' lookups are whole lookups run between the read and the insert.
- Java `null`: a null logger name is a `NullPointerException` at `loggerMap.get` (LogFactory.java:41); a null format string throws only on an enabled level; a null argument array is accepted. None of these can be expressed.
- `Class.getName()` is modelled by passing the class name.
- `LogRecord` fields the facade never sets (timestamp, sequence number, thread id, parameters).

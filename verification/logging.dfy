/**
 * The leveled logger handle: level gating, record construction and caller
 * attribution before a record is handed to the backend.
 *
 * The backend's `isLoggable` and `String.format` are uninterpreted functions
 * carried by a `Backend` value. The records the backend receives are an
 * explicit sequence: an emit call returns the sequence extended by the
 * records it delivered, or the formatting error it raised.
 */
module Logging {
  import opened Wrappers
  import opened Levels
  import opened CallerData

  /** The facade's own class name, against which stack frames are compared. */
  const SELF: string := "com.veracloud.logging.Log"

  /** An exception value attached to a record. */
  datatype Throwable = Throwable(className: string, message: string)

  /** The exception `String.format` throws for a malformed template or mismatched arguments. */
  datatype FormatError = IllegalFormat(description: string)

  /**
   * A backend log record. The source fields are None until caller
   * attribution sets them; `thrown` is None for a record without exception.
   */
  datatype LogRecord = LogRecord(
    level: JulLevel,
    message: string,
    thrown: Option<Throwable>,
    sourceClassName: Option<string>,
    sourceMethodName: Option<string>)

  /**
   * The platform backend as seen by the facade: whether the logger of a given
   * name currently accepts a level, and how a template is formatted with its
   * arguments (of type `A`).
   */
  datatype Backend<!A> = Backend(
    isLoggable: (string, JulLevel) -> bool,
    format: (string, seq<A>) -> Result<string, FormatError>)

  /**
   * A logger handle. `ref` is its allocation identity; `name` is the name of
   * the backend logger it is bound to at construction.
   */
  datatype Log = Log(ref: nat, name: string)

  /** The enablement query of a severity (`isTraceEnabled` … `isErrorEnabled`). */
  function IsEnabled<A>(h: Log, b: Backend<A>, level: Level): (enabled: bool)
    ensures level == Trace ==> (enabled <==> b.isLoggable(h.name, FINEST))
    ensures level == Debug ==> (enabled <==> b.isLoggable(h.name, FINE))
    ensures level == Info ==> (enabled <==> b.isLoggable(h.name, INFO))
    ensures level == Warn ==> (enabled <==> b.isLoggable(h.name, WARNING))
    ensures level == Error ==> (enabled <==> b.isLoggable(h.name, SEVERE))
  {
    b.isLoggable(h.name, BackendLevel(level))
  }

  /** A fresh record with level, message and thrown set, and no source fields. */
  function NewRecord(level: JulLevel, msg: string, thrown: Option<Throwable>): LogRecord {
    LogRecord(level, msg, thrown, None, None)
  }

  /**
   * Caller attribution: when the scan finds a caller frame, both source
   * fields are set from that one frame; otherwise the record is unchanged.
   */
  function FillCallerData(facade: string, stack: seq<Frame>, rec: LogRecord): (r: LogRecord)
    ensures r.level == rec.level && r.message == rec.message && r.thrown == rec.thrown
    ensures CallerIndex(stack, facade) == -1 ==> r == rec
    ensures CallerIndex(stack, facade) != -1 ==>
              && r.sourceClassName == Some(stack[CallerIndex(stack, facade)].className)
              && r.sourceMethodName == Some(stack[CallerIndex(stack, facade)].methodName)
  {
    var found := CallerIndex(stack, facade);
    if found != -1 then
      var ste := stack[found];
      rec.(sourceClassName := Some(ste.className), sourceMethodName := Some(ste.methodName))
    else
      rec
  }

  /**
   * When attribution sets the source fields of a fresh record, both name the
   * same non-facade frame of the stack, and that frame follows the first
   * facade frame.
   */
  lemma AttributionFromOneFrame(facade: string, stack: seq<Frame>, level: JulLevel, msg: string, thrown: Option<Throwable>)
    ensures var r := FillCallerData(facade, stack, NewRecord(level, msg, thrown));
            && (r.sourceClassName.Some? <==> r.sourceMethodName.Some?)
            && (r.sourceClassName.Some? ==>
                  exists k | SelfIndex(stack, facade) < k < |stack| ::
                    && !IsFacade(stack[k], facade)
                    && stack[k] == Frame(r.sourceClassName.value, r.sourceMethodName.value)
                    && forall j | SelfIndex(stack, facade) < j < k :: IsFacade(stack[j], facade))
            && (r.sourceClassName.None? <==>
                  forall j | SelfIndex(stack, facade) < j < |stack| :: IsFacade(stack[j], facade))
  {
    var r := FillCallerData(facade, stack, NewRecord(level, msg, thrown));
    var found := CallerIndex(stack, facade);
    if found != -1 {
      assert stack[found] == Frame(r.sourceClassName.value, r.sourceMethodName.value);
    }
  }

  /**
   * The private `log` method: build a record at `level` with `msg` and
   * `thrown`, then attribute the caller found in `stack`.
   */
  function BuildRecord(level: JulLevel, msg: string, thrown: Option<Throwable>, stack: seq<Frame>): (rec: LogRecord)
    ensures rec.level == level && rec.message == msg && rec.thrown == thrown
    ensures match ResolveCaller(stack, SELF)
            case None => rec.sourceClassName.None? && rec.sourceMethodName.None?
            case Some(f) => rec.sourceClassName == Some(f.className) && rec.sourceMethodName == Some(f.methodName)
  {
    FillCallerData(SELF, stack, NewRecord(level, msg, thrown))
  }

  /**
   * An emit call at `level` (`t`, `d`, `i`, `w`, `e`); `thrown` is None for
   * the plain overload and the passed throwable for the other. `delivered`
   * holds the records the backend received so far.
   *
   * Disabled: nothing is formatted, scanned or delivered. Enabled: the
   * formatting error propagates, or exactly one record is delivered.
   */
  function Emit<A>(h: Log, b: Backend<A>, level: Level, thrown: Option<Throwable>,
                   format: string, args: seq<A>, stack: seq<Frame>, delivered: seq<LogRecord>)
    : (r: Result<seq<LogRecord>, FormatError>)
    ensures !IsEnabled(h, b, level) ==> r == Success(delivered)
    ensures IsEnabled(h, b, level) && b.format(format, args).Failure? ==>
              r == Failure(b.format(format, args).error)
    ensures IsEnabled(h, b, level) && b.format(format, args).Success? ==>
              && r.Success?
              && |r.value| == |delivered| + 1
              && r.value[..|delivered|] == delivered
              && r.value[|delivered|].level == BackendLevel(level)
              && r.value[|delivered|].message == b.format(format, args).value
              && r.value[|delivered|].thrown == thrown
  {
    if b.isLoggable(h.name, BackendLevel(level)) then
      match b.format(format, args)
      case Failure(e) => Failure(e)
      case Success(msg) => Success(delivered + [BuildRecord(BackendLevel(level), msg, thrown, stack)])
    else
      Success(delivered)
  }

  /**
   * A call is a no-op exactly when the enablement query of its severity says
   * disabled: the query and both emit overloads consult the same backend level.
   */
  lemma NoOpIffDisabled<A>(h: Log, b: Backend<A>, level: Level, thrown: Option<Throwable>,
                           format: string, args: seq<A>, stack: seq<Frame>, delivered: seq<LogRecord>)
    ensures Emit(h, b, level, thrown, format, args, stack, delivered) == Success(delivered)
            <==> !IsEnabled(h, b, level)
  {
    if IsEnabled(h, b, level) && b.format(format, args).Success? {
      var r := Emit(h, b, level, thrown, format, args, stack, delivered);
      assert |r.value| == |delivered| + 1;
    }
  }

  /**
   * Exactly one record is delivered iff the level is loggable and the
   * template formats; otherwise none is.
   */
  lemma DeliversOneIffLoggable<A>(h: Log, b: Backend<A>, level: Level, thrown: Option<Throwable>,
                                  format: string, args: seq<A>, stack: seq<Frame>, delivered: seq<LogRecord>)
    ensures var r := Emit(h, b, level, thrown, format, args, stack, delivered);
            && (r.Success? && |r.value| == |delivered| + 1
                <==> b.isLoggable(h.name, BackendLevel(level)) && b.format(format, args).Success?)
            && (r.Success? ==> |r.value| == |delivered| || |r.value| == |delivered| + 1)
  {
  }

  /**
   * The delivered record's source fields are those of the frame the
   * caller scan selects over the facade's class name, or unset when the scan
   * finds none.
   */
  lemma DeliveredRecordAttribution<A>(h: Log, b: Backend<A>, level: Level, thrown: Option<Throwable>,
                                      format: string, args: seq<A>, stack: seq<Frame>, delivered: seq<LogRecord>)
    requires IsEnabled(h, b, level) && b.format(format, args).Success?
    ensures var rec := Emit(h, b, level, thrown, format, args, stack, delivered).value[|delivered|];
            match ResolveCaller(stack, SELF)
            case None => rec.sourceClassName.None? && rec.sourceMethodName.None?
            case Some(f) => rec.sourceClassName == Some(f.className) && rec.sourceMethodName == Some(f.methodName)
  {
  }

  /**
   * Under a threshold backend at INFO, a debug call is disabled and
   * delivers nothing, whatever the template; at FINE it delivers one record
   * carrying the formatted message.
   */
  lemma ThresholdGatesDebug<A>(h: Log, b: Backend<A>, threshold: int, format: string, args: seq<A>,
                               stack: seq<Frame>, delivered: seq<LogRecord>)
    requires forall n, j :: b.isLoggable(n, j) == ThresholdLoggable(threshold, j)
    ensures threshold == INFO.value ==>
              Emit(h, b, Debug, None, format, args, stack, delivered) == Success(delivered)
    ensures threshold == FINE.value && b.format(format, args).Success? ==>
              var r := Emit(h, b, Debug, None, format, args, stack, delivered);
              r.Success? && |r.value| == |delivered| + 1 && r.value[|delivered|].message == b.format(format, args).value
  {
  }
}

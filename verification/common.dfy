/**
 * `rp_exit` of cws/cws_common.c, the exit test every parser stage goes
 * through: when the exit condition holds and the caller gave a place for an
 * error message, it formats the message there and tells the stage to stop.
 */
module Common {
  import opened Strings

  /** What `rp_exit` decides and the error slot afterwards. The slot is
      `None` when `error_msg` is NULL and otherwise holds `*error_msg`. */
  datatype Exit = Exit(stop: bool, slot: Option<Option<string>>)

  /** `rp_exit(exit, error_msg, fmt, ...)`. Formatting is the foreign
      `vstrfmt`: `formatted` is its result, `None` when it fails. */
  function RpExit(exit: bool, slot: Option<Option<string>>, formatted: Option<string>): (r: Exit)
    ensures r.stop <==> exit && slot.Some? && formatted.Some?
    ensures r.stop ==> r.slot == Some(formatted)
    ensures !r.stop ==> r.slot == slot
  {
    if !exit || slot.None? then Exit(false, slot)
    else if formatted.Some? then Exit(true, Some(formatted))
    else Exit(false, slot)
  }

  /** With a place for the message and a formatter that succeeds, `rp_exit`
      is a plain guard: stop with the message exactly when the condition
      holds. The parser stages are modelled on this reading. */
  lemma RpExitIsGuard(exit: bool, current: Option<string>, msg: string)
    ensures RpExit(exit, Some(current), Some(msg)).stop == exit
    ensures exit ==> RpExit(exit, Some(current), Some(msg)).slot == Some(Some(msg))
  {
  }

  /** Without a place for the message the caller is told to carry on, even
      when the exit condition holds. */
  lemma RpExitWithoutSlotContinues(exit: bool, formatted: Option<string>)
    ensures RpExit(exit, None, formatted) == Exit(false, None)
  {
  }
}

/** The host runtime's interval timers (setInterval / clearInterval), as each
    engine sees them: at most one interval of its own is scheduled at a time,
    and it is named by the handle setInterval returned. */
module Intervals {

  datatype Option<T> = None | Some(value: T)

  /** An identifier returned by setInterval. Browsers hand out positive
      numbers, so a stored handle is never mistaken for "no handle" by the
      truthiness tests `!intervalId` and `if (intervalId)`. */
  type Handle = h: int | h > 0 witness 1

  /** clearInterval(h) seen from the engine whose scheduled interval is
      `scheduled`: the interval stops firing if it is the one named by h;
      cancelling a handle that was never scheduled, or was already
      cancelled, is a safe no-op. */
  function Cancel(scheduled: Option<Handle>, h: Handle): (r: Option<Handle>)
    ensures r != Some(h)
    ensures r.None? || r == scheduled
  {
    if scheduled == Some(h) then None else scheduled
  }

  /** Cancelling a handle that names no scheduled interval, such as a stale
      handle whose interval already cancelled itself, changes nothing. */
  lemma CancelUnscheduled(scheduled: Option<Handle>, h: Handle)
    requires scheduled != Some(h)
    ensures Cancel(scheduled, h) == scheduled
  {
  }

  /** Cancelling twice is cancelling once. */
  lemma CancelIdempotent(scheduled: Option<Handle>, h: Handle)
    ensures Cancel(Cancel(scheduled, h), h) == Cancel(scheduled, h)
  {
  }
}

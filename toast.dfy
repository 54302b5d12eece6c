/**
 * The page's one notification element (`#toast`) and the single hide timer
 * that `showToast` keeps in `showToast._t`.  The window's timer service is
 * modelled by a map from timer handles to due times.
 */
module Toast {
  import opened Wrappers

  /** How long a notification stays visible, in milliseconds. */
  const Duration: nat := 3800

  /** A handle returned by `window.setTimeout`. */
  type TimerId = nat

  /** The second class of a visible toast: `success` or `error`. */
  datatype Kind = Success | Error

  class Toast<M> {
    /** `textContent`; `None` while it still holds the markup's own text. */
    var text: Option<M>
    /** `Some(k)` while `className` is `toast show k`, `None` while it is `toast`. */
    var showing: Option<Kind>
    /** `showToast._t`: the handle of the last hide timer started, if any. */
    var timer: Option<TimerId>
    /** Hide timers still pending in the window, with the time each is due. */
    var pending: map<TimerId, nat>
    /** The handle the window hands out on the next `setTimeout`. */
    var nextTimer: TimerId

    /** At most one hide timer is pending, and it is the one `showToast._t` holds. */
    ghost predicate Valid()
      reads this
    {
      (forall t | t in pending :: timer == Some(t)) &&
      (timer.Some? ==> timer.value < nextTimer)
    }

    constructor ()
      ensures Valid()
      ensures text == None && showing == None && timer == None && pending == map[]
    {
      text, showing, timer, pending, nextTimer := None, None, None, map[], 0;
    }

    /**
     * `showToast(msg, kind)` at time `now`: show the message, cancel the
     * pending hide timer and start a fresh one due `Duration` later.
     */
    method Show(msg: M, kind: Kind, now: nat)
      requires Valid()
      modifies this
      ensures Valid()
      ensures text == Some(msg) && showing == Some(kind)
      ensures timer == Some(old(nextTimer)) && nextTimer == old(nextTimer) + 1
      ensures pending == map[old(nextTimer) := now + Duration]
      ensures old(timer).Some? ==> old(timer).value !in pending
    {
      text := Some(msg);
      showing := Some(kind);
      if timer.Some? {
        pending := pending - {timer.value};
      }
      var t := nextTimer;
      nextTimer := nextTimer + 1;
      assert pending == map[];
      pending := pending[t := now + Duration];
      timer := Some(t);
    }

    /** The window runs the hide callback of the pending timer `t`: the toast is hidden. */
    method Expire(t: TimerId, now: nat)
      requires Valid() && t in pending && pending[t] <= now
      modifies this
      ensures Valid()
      ensures showing == None && pending == map[]
      ensures text == old(text) && timer == old(timer) && nextTimer == old(nextTimer)
    {
      showing := None;
      pending := pending - {t};
    }
  }
}

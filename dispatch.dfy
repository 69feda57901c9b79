/** The body of the `task` that `_run_in_thread` starts in both command runners
    (serial_plugin/serial_command_runner.py, lib/serial_command_runner.py): run the
    worker, turn its exception into an error line, and hand one string to the
    callback. The thread itself is not modelled. */
module Dispatch {
  import opened Outcomes

  const ERROR_PREFIX := "[ERROR] "

  /** The string the callback receives for what the worker did: its result, or the
      error prefix followed by `str(e)` for the exception `e` it raised. */
  function Delivered(w: Outcome<string>): (r: string)
    ensures w.Returned? ==> r == w.value
    ensures w.Raised? ==> LooksLikeError(r) && r[|ERROR_PREFIX|..] == w.message
  {
    match w
    case Returned(s) => s
    case Raised(m) => ERROR_PREFIX + m
  }

  predicate LooksLikeError(s: string) {
    |ERROR_PREFIX| <= |s| && s[..|ERROR_PREFIX|] == ERROR_PREFIX
  }

  /** How a receiver of the callback string would read it back. */
  function Received(s: string): Outcome<string> {
    if LooksLikeError(s) then Raised(s[|ERROR_PREFIX|..]) else Returned(s)
  }

  /** Every exception reaches the callback as an error line carrying its message. */
  lemma DeliveredError(m: string)
    ensures LooksLikeError(Delivered(Raised(m)))
    ensures Received(Delivered(Raised(m))) == Raised(m)
  {
    assert (ERROR_PREFIX + m)[..|ERROR_PREFIX|] == ERROR_PREFIX;
    assert (ERROR_PREFIX + m)[|ERROR_PREFIX|..] == m;
  }

  /** The callback string tells what the worker did exactly when the worker did not
      itself return a string that starts like an error line. */
  lemma DeliveredReceived(w: Outcome<string>)
    ensures Received(Delivered(w)) == w <==> !(w.Returned? && LooksLikeError(w.value))
  {
    if w.Raised? {
      DeliveredError(w.message);
    }
  }

  /** A worker result that starts like an error line is read back as an exception. */
  lemma ReturnedLooksRaised(s: string)
    requires LooksLikeError(s)
    ensures Delivered(Raised(s[|ERROR_PREFIX|..])) == Delivered(Returned(s))
  {
    assert s == ERROR_PREFIX + s[|ERROR_PREFIX|..];
  }

  /** What a UI callback has been handed so far. Each task appends exactly one
      string. */
  class CallbackLog {
    var calls: seq<string>

    constructor ()
      ensures calls == []
    {
      calls := [];
    }

    /** `task()` once the worker has finished with outcome `w`. */
    method Task(w: Outcome<string>)
      modifies this
      ensures calls == old(calls) + [Delivered(w)]
    {
      var result := match w
        case Returned(s) => s
        case Raised(m) => ERROR_PREFIX + m;
      calls := calls + [result];
    }
  }
}

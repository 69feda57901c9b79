/** A stand-in for the pyserial `Serial` object the client talks to. It records what
    is written to the device and holds the input buffer of bytes the device has sent
    and the client has not read yet. */
module FakeSerial {
  import opened Utf8
  import opened Outcomes

  /** The `str()` of pyserial's PortNotOpenError, raised by any I/O on a closed port. */
  const PORT_NOT_OPEN := "Attempting to use a port that is not open"

  class Serial {
    var isOpen: bool
    var written: seq<byte>
    var pending: seq<byte>
    /** How many times `close()` has been called on this port. */
    var closeCalls: nat

    /** `Serial(port, baudrate, timeout=...)` once the operating system has opened the
        device; `banner` is what the device sends while the link settles. */
    constructor (banner: seq<byte>)
      ensures isOpen && written == [] && pending == banner && closeCalls == 0
    {
      isOpen, written, pending, closeCalls := true, [], banner, 0;
    }

    method Write(data: seq<byte>) returns (st: Outcome<()>)
      modifies this
      ensures st == if old(isOpen) then Returned(()) else Raised(PORT_NOT_OPEN)
      ensures written == if old(isOpen) then old(written) + data else old(written)
      ensures isOpen == old(isOpen) && pending == old(pending) && closeCalls == old(closeCalls)
    {
      if !isOpen {
        return Raised(PORT_NOT_OPEN);
      }
      written := written + data;
      st := Returned(());
    }

    /** `read_all()`: everything in the input buffer, which is left empty. The
        closed-port case is a stand-in: pyserial reaches `in_waiting` first, which
        fails with another message, but no caller gets here on a closed port
        (`send_repl_command` checks `is_open` first, and `_wake_repl` stops at
        `reset_input_buffer`). */
    method ReadAll() returns (r: Outcome<seq<byte>>)
      modifies this
      ensures r == if old(isOpen) then Returned(old(pending)) else Raised(PORT_NOT_OPEN)
      ensures pending == if old(isOpen) then [] else old(pending)
      ensures isOpen == old(isOpen) && written == old(written) && closeCalls == old(closeCalls)
    {
      if !isOpen {
        return Raised(PORT_NOT_OPEN);
      }
      r := Returned(pending);
      pending := [];
    }

    /** `read(1)`: the next byte, or no bytes once the input has run dry and the read
        timeout has passed. `failure` is the message of the error the operating system
        reports instead (the device vanished), if it does. */
    method Read(failure: Option<string>) returns (r: Outcome<seq<byte>>)
      modifies this
      ensures !old(isOpen) ==> r == Raised(PORT_NOT_OPEN)
      ensures old(isOpen) && failure.Some? ==> r == Raised(failure.value)
      ensures old(isOpen) && failure.None? ==>
                r == Returned(if old(pending) == [] then [] else [old(pending)[0]])
      ensures pending == if r.Returned? then old(pending)[|r.value|..] else old(pending)
      ensures isOpen == old(isOpen) && written == old(written) && closeCalls == old(closeCalls)
    {
      if !isOpen {
        return Raised(PORT_NOT_OPEN);
      }
      if failure.Some? {
        return Raised(failure.value);
      }
      if pending == [] {
        r := Returned([]);
      } else {
        r := Returned([pending[0]]);
        pending := pending[1..];
      }
    }

    /** `reset_input_buffer()`: discard everything received and not yet read. */
    method ResetInputBuffer() returns (st: Outcome<()>)
      modifies this
      ensures st == if old(isOpen) then Returned(()) else Raised(PORT_NOT_OPEN)
      ensures pending == if old(isOpen) then [] else old(pending)
      ensures isOpen == old(isOpen) && written == old(written) && closeCalls == old(closeCalls)
    {
      if !isOpen {
        return Raised(PORT_NOT_OPEN);
      }
      pending := [];
      st := Returned(());
    }

    method Close()
      modifies this
      ensures !isOpen && closeCalls == old(closeCalls) + 1
      ensures written == old(written) && pending == old(pending)
    {
      isOpen := false;
      closeCalls := closeCalls + 1;
    }

    /** The device transmits `data`, which lands at the end of the input buffer. */
    method Receive(data: seq<byte>)
      modifies this
      ensures pending == old(pending) + data
      ensures isOpen == old(isOpen) && written == old(written) && closeCalls == old(closeCalls)
    {
      pending := pending + data;
    }
  }
}

/** `SerialBase` (serial_plugin/serial_base.py): one serial link to a MicroPython board,
    its open/close lifecycle, the friendly-REPL exchange and the raw-REPL control
    sequences. The `sleep` calls only give the board time and are not modelled; bytes
    the board sends during a sleep that the code later reads are a parameter. */
module SerialPluginBase {
  import opened Utf8
  import opened Outcomes
  import opened PyText
  import opened FakeSerial

  /** SERIAL_RATE of config/application_configuration.py. */
  const SERIAL_RATE: int := 115200
  const DEFAULT_TIMEOUT: int := 2

  const CRLF: seq<byte> := [0x0D, 0x0A]
  /** `\r`, then Ctrl-C twice: interrupt whatever the board is running. */
  const INTERRUPT: seq<byte> := [0x0D, 0x03, 0x03]
  /** `\r`, then Ctrl-A: enter the raw REPL. */
  const RAW_ENTER: seq<byte> := [0x0D, 0x01]
  /** `\r`, then Ctrl-B: leave the raw REPL for the friendly one. */
  const RAW_EXIT: seq<byte> := [0x0D, 0x02]

  const NOT_CONNECTED := "REPL not connected"

  class SerialBase {
    const port: string
    const baudrate: int
    const timeout: int
    /** `_ser`: no port object until a connect succeeds. */
    var ser: Serial?

    constructor (port: string, baudrate: int := SERIAL_RATE, timeout: int := DEFAULT_TIMEOUT)
      ensures this.port == port && this.baudrate == baudrate && this.timeout == timeout
      ensures ser == null
    {
      this.port, this.baudrate, this.timeout := port, baudrate, timeout;
      ser := null;
    }

    predicate Connected()
      reads this, ser
    {
      ser != null && ser.isOpen
    }

    /** `_connect`: `opens` says whether the operating system opens the device (any
        failure is caught and reported as `false`, never raised); `banner` is what the
        board sends while the link settles. A failed attempt leaves `_ser` as it was. */
    method Connect(opens: bool, banner: seq<byte>) returns (ok: bool)
      modifies this
      ensures ok == opens
      ensures ok ==> fresh(ser) && ser.isOpen && ser.written == [] && ser.pending == banner
                     && ser.closeCalls == 0
      ensures !ok ==> ser == old(ser)
    {
      if opens {
        ser := new Serial(banner);
        ok := true;
      } else {
        ok := false;
      }
    }

    /** `_disconnect`: closes the port only when there is one and it is open, so a
        second call, or a call before any connect, does nothing. */
    method Disconnect()
      modifies ser
      ensures ser != null ==> !ser.isOpen && ser.written == old(ser.written)
                              && ser.pending == old(ser.pending)
                              && ser.closeCalls == old(ser.closeCalls) + (if old(ser.isOpen) then 1 else 0)
    {
      if ser != null && ser.isOpen {
        ser.Close();
      }
    }

    /** `send_repl_command`: write the command and CRLF, let `reply` arrive during the
        wait, then drain the input buffer and return it decoded (invalid bytes dropped)
        and stripped. Without an open port it raises and writes nothing. */
    method SendReplCommand(command: string, reply: seq<byte>) returns (r: Outcome<string>)
      modifies ser
      ensures !old(Connected()) ==> r == Raised(NOT_CONNECTED)
      ensures !old(Connected()) && ser != null ==>
                ser.isOpen == old(ser.isOpen) && ser.written == old(ser.written)
                && ser.pending == old(ser.pending) && ser.closeCalls == old(ser.closeCalls)
      ensures old(Connected()) ==>
                && ser.isOpen && ser.closeCalls == old(ser.closeCalls)
                && ser.written == old(ser.written) + Encode(command) + CRLF
                && ser.pending == []
                && r == Returned(Strip(Decode(old(ser.pending) + reply)))
    {
      if ser == null || !ser.isOpen {
        return Raised(NOT_CONNECTED);
      }
      var _ := ser.Write(Encode(command) + CRLF);
      ser.Receive(reply);
      var output := ser.ReadAll();
      r := Returned(Strip(Decode(output.value)));
    }

    /** `enter_raw_repl`: interrupt, then Ctrl-A, then discard the board's banner. */
    method EnterRawRepl() returns (st: Outcome<()>)
      modifies ser
      ensures ser == null ==> st == Raised(NoneAttribute("write"))
      ensures ser != null && !old(ser.isOpen) ==>
                st == Raised(PORT_NOT_OPEN) && !ser.isOpen && ser.written == old(ser.written)
                && ser.pending == old(ser.pending) && ser.closeCalls == old(ser.closeCalls)
      ensures old(Connected()) ==>
                && st == Returned(()) && ser.isOpen && ser.closeCalls == old(ser.closeCalls)
                && ser.written == old(ser.written) + INTERRUPT + RAW_ENTER
                && ser.pending == []
    {
      if ser == null {
        return Raised(NoneAttribute("write"));
      }
      st := ser.Write(INTERRUPT);
      if st.Raised? {
        return;
      }
      st := ser.Write(RAW_ENTER);
      st := ser.ResetInputBuffer();
    }

    /** `exit_raw_repl`: Ctrl-B, and nothing else. */
    method ExitRawRepl() returns (st: Outcome<()>)
      modifies ser
      ensures ser == null ==> st == Raised(NoneAttribute("write"))
      ensures ser != null && !old(ser.isOpen) ==>
                st == Raised(PORT_NOT_OPEN) && !ser.isOpen && ser.written == old(ser.written)
                && ser.pending == old(ser.pending) && ser.closeCalls == old(ser.closeCalls)
      ensures old(Connected()) ==>
                && st == Returned(()) && ser.isOpen && ser.closeCalls == old(ser.closeCalls)
                && ser.written == old(ser.written) + RAW_EXIT
                && ser.pending == old(ser.pending)
    {
      if ser == null {
        return Raised(NoneAttribute("write"));
      }
      st := ser.Write(RAW_EXIT);
    }

    /** `__enter__`: always tries to connect, and hands back this same link even when
        the connect failed. */
    method Enter(opens: bool, banner: seq<byte>) returns (link: SerialBase)
      modifies this
      ensures link == this
      ensures opens ==> fresh(ser) && ser.isOpen && ser.written == [] && ser.pending == banner
                        && ser.closeCalls == 0
      ensures !opens ==> ser == old(ser)
    {
      var _ := Connect(opens, banner);
      link := this;
    }

    /** `__exit__`: always disconnects; it returns nothing, so an exception raised in
        the `with` body keeps propagating. */
    method Exit()
      modifies ser
      ensures ser != null ==> !ser.isOpen && ser.written == old(ser.written)
                              && ser.pending == old(ser.pending)
                              && ser.closeCalls == old(ser.closeCalls) + (if old(ser.isOpen) then 1 else 0)
    {
      Disconnect();
    }
  }
}

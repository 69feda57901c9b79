/** `MicroPythonVersion` of lib/get_micropython_version.py, the older copy of the
    version probe. Its `_extract_version`, `_send_command` and `get_version` do what
    `VersionText.ExtractVersion`, `SerialBase.SendReplCommand` and
    `SerialPluginVersion.GetVersion` do, and its base class is `SerialBase`; what it
    adds is the wake-up exchange. */
module LibVersion {
  import opened Utf8
  import opened Outcomes
  import opened FakeSerial
  import opened SerialPluginBase

  /** `_wake_repl`: empty the input buffer, send a bare CRLF, let the board answer
      (`reply`) during the wait, then read that answer and throw it away. Without a
      port object the first call raises; on a closed port `reset_input_buffer`
      raises before anything is written. */
  method WakeRepl(link: SerialBase, reply: seq<byte>) returns (r: Outcome<()>)
    modifies link.ser
    ensures link.ser == null ==> r == Raised(NoneAttribute("reset_input_buffer"))
    ensures link.ser != null && !old(link.ser.isOpen) ==>
              && r == Raised(PORT_NOT_OPEN) && !link.ser.isOpen
              && link.ser.written == old(link.ser.written) && link.ser.pending == old(link.ser.pending)
              && link.ser.closeCalls == old(link.ser.closeCalls)
    ensures old(link.Connected()) ==>
              && r == Returned(()) && link.ser.isOpen && link.ser.closeCalls == old(link.ser.closeCalls)
              && link.ser.written == old(link.ser.written) + CRLF
              && link.ser.pending == []
  {
    var ser := link.ser;
    if ser == null {
      return Raised(NoneAttribute("reset_input_buffer"));
    }
    r := ser.ResetInputBuffer();
    if r.Raised? {
      return;
    }
    r := ser.Write(CRLF);
    ser.Receive(reply);
    var _ := ser.ReadAll();
  }
}

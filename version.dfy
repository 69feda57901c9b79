/** `Version.get_version` (serial_plugin/serial_get_version.py): one friendly-REPL
    exchange, then the version extraction of its reply. */
module SerialPluginVersion {
  import opened Utf8
  import opened Outcomes
  import opened PyText
  import opened FakeSerial
  import opened SerialPluginBase
  import opened VersionText

  /** `VERSION_COMMAND.encode()`; see `CommandAscii`. */
  const VERSION_BYTES: seq<byte> := AsciiBytes(VERSION_COMMAND)

  lemma CommandIsAscii()
    ensures IsAscii(VERSION_COMMAND)
  {
  }

  /** The command is ASCII, so its UTF-8 encoding is one byte per character. */
  lemma CommandAscii()
    ensures Encode(VERSION_COMMAND) == VERSION_BYTES
  {
    CommandIsAscii();
    EncodeAscii(VERSION_COMMAND);
  }

  /** `reply` is what the board sends while the client waits for the answer. */
  method GetVersion(link: SerialBase, reply: seq<byte>) returns (r: Outcome<string>)
    modifies link.ser
    ensures !old(link.Connected()) ==> r == Raised(NOT_CONNECTED)
    ensures !old(link.Connected()) && link.ser != null ==>
              link.ser.isOpen == old(link.ser.isOpen) && link.ser.written == old(link.ser.written)
              && link.ser.pending == old(link.ser.pending) && link.ser.closeCalls == old(link.ser.closeCalls)
    ensures old(link.Connected()) ==>
              && link.ser.isOpen && link.ser.pending == [] && link.ser.closeCalls == old(link.ser.closeCalls)
              && link.ser.written == old(link.ser.written) + VERSION_BYTES + CRLF
              && r == ExtractVersion(Strip(Decode(old(link.ser.pending) + reply)))
  {
    var output := link.SendReplCommand(VERSION_COMMAND, reply);
    CommandAscii();
    match output
    case Raised(m) => r := Raised(m);
    case Returned(text) => r := ExtractVersion(text);
  }

  /** A board with nothing buffered that answers with the echoed command, a version
      line and a prompt makes `GetVersion` return that line's second field. */
  lemma GetVersionOfEchoReply(line: string)
    requires NoLineBreak(line) && Marked(line)
    ensures ExtractVersion(Strip(Decode([] + Encode(EchoReply(line))))) == SecondField(line)
  {
    assert [] + Encode(EchoReply(line)) == Encode(EchoReply(line));
    DecodeEncode(EchoReply(line));
    ExtractVersionOfEchoReply(line);
  }
}

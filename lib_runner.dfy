/** `SerialCommandRunner` of lib/serial_command_runner.py, the older copy of the
    runner. The probe classes it imports (`lib.serial_get_micropython_version`,
    `lib.serial_get_file_structure`) are not part of this model, so what each probe
    does on the board is a parameter: the outcome it gives inside the `with` block. */
module LibRunner {
  import opened Utf8
  import opened Outcomes
  import opened FakeSerial
  import opened SerialPluginBase
  import opened Dispatch

  /** What the two probe classes give on the board behind a port: the version
      probe's and the file-structure probe's outcome. */
  datatype Probes = Probes(version: Outcome<string>, structure: Outcome<string>)

  /** `_get_version` and `_get_structure`: open a link to `port` in a `with` block,
      run the probe, and close the link again whether the probe returned or raised.
      The probe's outcome is passed on unchanged. */
  method RunProbe(port: string, opens: bool, banner: seq<byte>, probe: Outcome<string>)
    returns (w: Outcome<string>, link: SerialBase)
    ensures fresh(link) && link.port == port && link.baudrate == SERIAL_RATE && link.timeout == DEFAULT_TIMEOUT
    ensures w == probe
    ensures !link.Connected()
    ensures opens <==> link.ser != null
    ensures opens ==> link.ser.closeCalls == 1
  {
    link := new SerialBase(port);
    var fetcher := link.Enter(opens, banner);
    w := probe;
    fetcher.Exit();
  }

  /** `get_version`: one callback, with what the version probe gave on `port`. */
  method RequestVersion(log: CallbackLog, port: string, opens: bool, banner: seq<byte>, board: Probes)
    returns (link: SerialBase)
    modifies log
    ensures log.calls == old(log.calls) + [Delivered(board.version)]
    ensures link.port == port && !link.Connected()
  {
    var w;
    w, link := RunProbe(port, opens, banner, board.version);
    log.Task(w);
  }

  /** `get_structure`: one callback, with what the file-structure probe gave on
      `port`. */
  method RequestStructure(log: CallbackLog, port: string, opens: bool, banner: seq<byte>, board: Probes)
    returns (link: SerialBase)
    modifies log
    ensures log.calls == old(log.calls) + [Delivered(board.structure)]
    ensures link.port == port && !link.Connected()
  {
    var w;
    w, link := RunProbe(port, opens, banner, board.structure);
    log.Task(w);
  }
}

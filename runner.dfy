/** `SerialCommandRunner` (serial_plugin/serial_command_runner.py): each request opens
    a fresh link to the named port inside a `with` block, runs one probe on it, and
    hands the probe's outcome to the callback. The board's behaviour is given by the
    parameters: whether the port opens, what it sends while the link settles
    (`banner`) and what it answers to the probe. */
module SerialPluginRunner {
  import opened Utf8
  import opened Outcomes
  import opened PyText
  import opened FakeSerial
  import opened SerialPluginBase
  import opened VersionText
  import opened SerialPluginVersion
  import opened TreeReply
  import opened SerialPluginFileStructure
  import opened Dispatch

  /** What `Version(port).get_version()` does inside the `with` block. */
  function VersionOutcome(opens: bool, banner: seq<byte>, reply: seq<byte>): (r: Outcome<string>)
    ensures r.Raised? ==> r.message == NOT_CONNECTED || r.message == INDEX_ERROR
    ensures r.Returned? ==> ';' !in r.value
  {
    if opens then ExtractVersion(Strip(Decode(banner + reply))) else Raised(NOT_CONNECTED)
  }

  /** What `FileStructure(port).get_tree()` does inside the `with` block; the banner
      is discarded when the raw REPL is entered. */
  function StructureOutcome(opens: bool, reply: seq<byte>, elapsed: nat -> real, fault: Option<Fault>): (r: Outcome<string>)
    ensures r.Raised? ==> r.message == NoneAttribute("write") || (fault.Some? && r.message == fault.value.message)
    ensures r.Returned? ==> EOT !in r.value
  {
    if !opens then Raised(NoneAttribute("write"))
    else
      LoopEnds(reply, elapsed, fault, 0);
      TreeOutcome(ReadLoop(reply, elapsed, fault))
  }

  /** What `Debug(port).get_debug()` does inside the `with` block: without a port it
      raises at the first `readline`; with one it echoes lines forever, and only ends
      when a `readline` raises the error `ends` names. `None` is the run that never
      returns. */
  function MonitorOutcome(opens: bool, ends: Option<string>): (r: Option<Outcome<string>>)
    ensures r.Some? ==> r.value.Raised?
  {
    if !opens then Some(Raised(NoneAttribute("readline")))
    else if ends.Some? then Some(Raised(ends.value))
    else None
  }

  /** `_get_version`: the link is closed again whatever the probe did. */
  method RunVersion(port: string, opens: bool, banner: seq<byte>, reply: seq<byte>)
    returns (w: Outcome<string>, link: SerialBase)
    ensures fresh(link) && link.port == port && link.baudrate == SERIAL_RATE && link.timeout == DEFAULT_TIMEOUT
    ensures w == VersionOutcome(opens, banner, reply)
    ensures !link.Connected()
    ensures opens <==> link.ser != null
    ensures opens ==> link.ser.closeCalls == 1 && link.ser.written == VERSION_BYTES + CRLF
  {
    link := new SerialBase(port);
    var fetcher := link.Enter(opens, banner);
    assert opens <==> link.Connected();
    w := GetVersion(fetcher, reply);
    fetcher.Exit();
  }

  /** `_get_structure`: the link is closed again even when a read raised. */
  method RunStructure(port: string, opens: bool, banner: seq<byte>, reply: seq<byte>,
                      elapsed: nat -> real, fault: Option<Fault>)
    returns (w: Outcome<string>, link: SerialBase)
    ensures fresh(link) && link.port == port && link.baudrate == SERIAL_RATE && link.timeout == DEFAULT_TIMEOUT
    ensures w == StructureOutcome(opens, reply, elapsed, fault)
    ensures !link.Connected()
    ensures opens <==> link.ser != null
    ensures opens ==>
              && link.ser.closeCalls == 1
              && link.ser.written == TreeWrites(ReadLoop(reply, elapsed, fault).end.ReadFailed?)
  {
    link := new SerialBase(port);
    var fetcher := link.Enter(opens, banner);
    assert opens <==> link.Connected();
    w := GetTree(fetcher, reply, elapsed, fault);
    fetcher.Exit();
  }

  /** `_run_monitor`. */
  method RunMonitor(port: string, opens: bool, banner: seq<byte>, ends: Option<string>)
    returns (w: Option<Outcome<string>>, link: SerialBase)
    ensures fresh(link) && link.port == port
    ensures w == MonitorOutcome(opens, ends)
    ensures opens <==> link.ser != null
    ensures w.Some? ==> !link.Connected()
    ensures w.None? ==> link.Connected()
  {
    link := new SerialBase(port);
    var monitor := link.Enter(opens, banner);
    w := MonitorOutcome(opens, ends);
    if w.Some? {
      monitor.Exit();
    }
  }

  /** `get_version`: one callback, with what the version probe on `port` gave. */
  method RequestVersion(log: CallbackLog, port: string, opens: bool, banner: seq<byte>, reply: seq<byte>)
    returns (link: SerialBase)
    modifies log
    ensures log.calls == old(log.calls) + [Delivered(VersionOutcome(opens, banner, reply))]
    ensures link.port == port && !link.Connected()
  {
    var w;
    w, link := RunVersion(port, opens, banner, reply);
    log.Task(w);
  }

  /** `get_structure`: one callback, with what the file-structure probe on `port`
      gave. */
  method RequestStructure(log: CallbackLog, port: string, opens: bool, banner: seq<byte>, reply: seq<byte>,
                          elapsed: nat -> real, fault: Option<Fault>)
    returns (link: SerialBase)
    modifies log
    ensures log.calls == old(log.calls) + [Delivered(StructureOutcome(opens, reply, elapsed, fault))]
    ensures link.port == port && !link.Connected()
  {
    var w;
    w, link := RunStructure(port, opens, banner, reply, elapsed, fault);
    log.Task(w);
  }

  /** `get_debug`: a callback only if the monitor ever stops. */
  method RequestDebug(log: CallbackLog, port: string, opens: bool, banner: seq<byte>, ends: Option<string>)
    returns (link: SerialBase)
    modifies log
    ensures var w := MonitorOutcome(opens, ends);
            log.calls == old(log.calls) + (if w.Some? then [Delivered(w.value)] else [])
    ensures link.port == port
  {
    var w;
    w, link := RunMonitor(port, opens, banner, ends);
    if w.Some? {
      log.Task(w.value);
    }
  }

  /** A port that does not open still runs the version probe, which reports that the
      REPL is not connected. */
  lemma VersionWithoutPort(banner: seq<byte>, reply: seq<byte>)
    ensures Delivered(VersionOutcome(false, banner, reply)) == ERROR_PREFIX + NOT_CONNECTED
  {
  }

  /** A port that does not open makes the file-structure probe fail on the missing
      port object, before anything is written. */
  lemma StructureWithoutPort(reply: seq<byte>, elapsed: nat -> real, fault: Option<Fault>)
    ensures Delivered(StructureOutcome(false, reply, elapsed, fault)) == ERROR_PREFIX + NoneAttribute("write")
  {
  }

  lemma TimeoutIsErrorLine()
    ensures TIMEOUT_TEXT == ERROR_PREFIX + "Timeout"
  {
  }

  /** The timeout sentinel reaches the callback looking exactly like an exception
      whose message is `Timeout`. */
  lemma TimeoutLooksRaised(reply: seq<byte>, elapsed: nat -> real, fault: Option<Fault>)
    requires ReadLoop(reply, elapsed, fault).end == TimedOut
    ensures Delivered(StructureOutcome(true, reply, elapsed, fault)) == Delivered(Raised("Timeout"))
  {
    TimeoutReply(reply, elapsed, fault);
    assert StructureOutcome(true, reply, elapsed, fault) == Returned(TIMEOUT_TEXT);
    TimeoutIsErrorLine();
  }
}

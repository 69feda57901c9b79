/** `FileStructure.get_tree` (serial_plugin/serial_get_file_structure.py): send the
    tree program over the raw REPL, read the reply byte by byte against a deadline,
    leave the raw REPL and peel the envelope off the reply. */
module SerialPluginFileStructure {
  import opened Utf8
  import opened Outcomes
  import opened PyText
  import opened FakeSerial
  import opened SerialPluginBase
  import opened TreeReply
  import opened TreeProgram

  /** `_TREE_CODE`: the program run on the board. What its `tree` function prints is
      modelled by the TreeProgram module. */
  const TREE_CODE: string :=
    "import os\n"
    + "def tree(path='', prefix=''):\n"
    + " try:\n"
    + "  files = os.listdir(path) if path else os.listdir()\n"
    + " except: files = []\n"
    + " files.sort()\n"
    + " for idx, file in enumerate(files):\n"
    + "  full_path = path + '/' + file if path else file\n"
    + "  connector = '\U{2514}\U{2500}\U{2500} ' if idx == len(files) - 1 else '\U{251C}\U{2500}\U{2500} '\n"
    + "  print(prefix + connector + file)\n"
    + "  try:\n"
    + "   mode = os.stat(full_path)[0]\n"
    + "   if mode & 0x4000:\n"
    + "    extension = '    ' if idx == len(files) - 1 else '\U{2502}   '\n"
    + "    tree(full_path, prefix + extension)\n"
    + "  except Exception: pass\n"
    + "tree('')\n"

  /** What `get_tree` writes after entering the raw REPL: the program, then Ctrl-D to run it. */
  function ProgramBytes(): seq<byte> {
    Encode(TREE_CODE) + [EOT_BYTE]
  }

  /** Everything `get_tree` writes on a connected port: Ctrl-C and Ctrl-A to enter
      the raw REPL, the program, and, unless a read raised, Ctrl-B to leave it. */
  function TreeWrites(failed: bool): seq<byte> {
    INTERRUPT + RAW_ENTER + ProgramBytes() + (if failed then [] else RAW_EXIT)
  }

  lemma AppendTreeWrites(before: seq<byte>, failed: bool)
    ensures before + TreeWrites(failed)
            == before + INTERRUPT + RAW_ENTER + ProgramBytes() + (if failed then [] else RAW_EXIT)
  {
    Regroup(before, INTERRUPT, RAW_ENTER, ProgramBytes(), if failed then [] else RAW_EXIT);
  }

  lemma Regroup(before: seq<byte>, i: seq<byte>, e: seq<byte>, p: seq<byte>, x: seq<byte>)
    ensures before + (i + e + p + x) == before + i + e + p + x
  {
    assert before + (i + e + p + x) == before + (i + e + p) + x;
    assert before + (i + e + p) == before + (i + e) + p;
  }

  /** The `while True` loop of `get_tree` (lines 48-61), reading what is waiting in
      the input buffer one byte at a time. `elapsed(k)` is the time since the start, in
      seconds, when the deadline is checked for the `k`-th time, and `fault` the read,
      if any, at which the port raises. */
  method ReadUntilPrompt(ser: Serial, elapsed: nat -> real, fault: Option<Fault>)
    returns (r: Outcome<seq<byte>>)
    requires ser.isOpen
    modifies ser
    ensures var loop := ReadLoop(old(ser.pending), elapsed, fault);
            && r == (if loop.end.ReadFailed? then Raised(loop.end.message) else Returned(loop.output))
            && ser.pending == old(ser.pending)[loop.consumed..]
    ensures ser.isOpen && ser.written == old(ser.written) && ser.closeCalls == old(ser.closeCalls)
  {
    ghost var reply := ser.pending;
    ghost var loop := ReadLoop(reply, elapsed, fault);
    var output: seq<byte> := [];
    var k: nat := 0;
    while true
      invariant ser.isOpen && ser.written == old(ser.written) && ser.closeCalls == old(ser.closeCalls)
      invariant k <= |reply| && ser.pending == reply[k..] && output == reply[..k]
      invariant Loop(reply, elapsed, fault, k) == loop
      decreases |reply| - k
    {
      if elapsed(k) > TIMEOUT_SECONDS {
        output := TIMEOUT_BYTES;
        assert loop == LoopResult(output, k, TimedOut);
        break;
      }
      var data := ser.Read(if FailsAt(fault, k) then Some(fault.value.message) else None);
      if data.Raised? {
        assert loop == LoopResult(output, k, ReadFailed(data.message));
        return Raised(data.message);
      }
      if data.value == [] {
        assert k == |reply| && output == reply;
        assert loop == LoopResult(output, k, NoData);
        break;
      }
      assert data.value == [reply[k]];
      output := output + data.value;
      assert output == reply[..k + 1];
      PromptAtEndsWith(reply, k + 1);
      if EndsWith(output, PROMPT) {
        assert loop == LoopResult(output, k + 1, Prompt);
        k := k + 1;
        break;
      }
      LoopStep(reply, elapsed, fault, k);
      k := k + 1;
    }
    r := Returned(output);
  }

  /** What `get_tree` returns once the read loop has stopped: the read error it
      raised, or the reply decoded with invalid bytes dropped and its envelope peeled
      off. */
  /** What `get_tree` gives for how its read loop ended: only a read error raises, and
      any text it returns holds no Ctrl-D and ends in a visible character. */
  function TreeOutcome(loop: LoopResult): (r: Outcome<string>)
    ensures r.Raised? <==> loop.end.ReadFailed?
    ensures r.Returned? ==> EOT !in r.value && (r.value == [] || !IsSpace(r.value[|r.value| - 1]))
  {
    if loop.end.ReadFailed? then Raised(loop.end.message) else Returned(StripEnvelope(Decode(loop.output)))
  }

  /** `get_tree`. `reply` is what the board sends once the program is written. A
      read error leaves the board in the raw REPL: nothing catches it on the way out. */
  method GetTree(link: SerialBase, reply: seq<byte>, elapsed: nat -> real, fault: Option<Fault>)
    returns (r: Outcome<string>)
    modifies link.ser
    ensures link.ser == null ==> r == Raised(NoneAttribute("write"))
    ensures link.ser != null && !old(link.ser.isOpen) ==>
              && r == Raised(PORT_NOT_OPEN) && !link.ser.isOpen
              && link.ser.written == old(link.ser.written) && link.ser.pending == old(link.ser.pending)
              && link.ser.closeCalls == old(link.ser.closeCalls)
    ensures old(link.Connected()) ==>
              var loop := ReadLoop(reply, elapsed, fault);
              && link.ser.isOpen && link.ser.closeCalls == old(link.ser.closeCalls)
              && link.ser.written == old(link.ser.written) + TreeWrites(loop.end.ReadFailed?)
              && link.ser.pending == reply[loop.consumed..]
              && r == TreeOutcome(loop)
  {
    ghost var before := if link.ser != null then link.ser.written else [];
    var entered := link.EnterRawRepl();
    if entered.Raised? {
      return Raised(entered.message);
    }
    var _ := link.ser.Write(ProgramBytes());
    ghost var sent := link.ser.written;
    link.ser.Receive(reply);
    assert link.ser.pending == reply;
    var output := ReadUntilPrompt(link.ser, elapsed, fault);
    if output.Raised? {
      AppendTreeWrites(before, true);
      assert link.ser.written == sent == before + TreeWrites(true);
      return Raised(output.message);
    }
    var _ := link.ExitRawRepl();
    AppendTreeWrites(before, false);
    assert link.ser.written == sent + RAW_EXIT == before + TreeWrites(false);
    r := Returned(StripEnvelope(Decode(output.value)));
  }

  /** What the board sends once it runs a program that prints `lines`: whatever is
      left of the raw-REPL banner (`junk`), `OK`, the printed lines, Ctrl-D, an empty
      error stream, Ctrl-D and the `>` prompt. */
  function TreeReplyText(junk: string, lines: seq<string>): string {
    junk + ACK + Printed(lines) + [EOT, EOT, '>']
  }

  /** The reply bytes hold no Ctrl-D besides the two delimiters, so the loop reads
      them whole when the deadline does not pass. */
  lemma TreeReplyRead(junk: string, lines: seq<string>, elapsed: nat -> real)
    requires EOT !in junk
    requires forall i :: 0 <= i < |lines| ==> EOT !in lines[i]
    requires forall j :: 0 <= j < |Encode(TreeReplyText(junk, lines))| ==> elapsed(j) <= TIMEOUT_SECONDS
    ensures var reply := Encode(TreeReplyText(junk, lines));
            ReadLoop(reply, elapsed, None) == LoopResult(reply, |reply|, Prompt)
  {
    var shown := junk + ACK + Printed(lines);
    var head := Encode(shown);
    PrintedAvoids(lines, EOT);
    assert EOT !in shown;
    assert TreeReplyText(junk, lines) == shown + [EOT, EOT, '>'];
    EncodeAppend(shown, [EOT, EOT, '>']);
    assert Encode([EOT, EOT, '>']) == [EOT_BYTE] + PROMPT by {
      EncodeAscii([EOT, EOT, '>']);
    }
    assert EOT_BYTE !in head by {
      if EOT_BYTE in head {
        EncodeAsciiByte(shown, EOT_BYTE);
      }
    }
    assert Encode(TreeReplyText(junk, lines)) == head + [EOT_BYTE] + PROMPT;
    ReadLoopOfReply(head, elapsed);
  }

  /** Peeling the envelope off the reply text leaves the printed lines, less the
      final line end. */
  lemma TreeReplyStripped(junk: string, lines: seq<string>)
    requires 'O' !in junk
    requires lines != [] && lines[0] != [] && !IsSpace(lines[0][0])
    requires forall i :: 0 <= i < |lines| ==> NoLineBreak(lines[i]) && EOT !in lines[i]
    requires lines[|lines| - 1] != [] && !IsSpace(lines[|lines| - 1][|lines[|lines| - 1]| - 1])
    ensures StripEnvelope(TreeReplyText(junk, lines)) == RStrip(Printed(lines))
    ensures SplitLines(StripEnvelope(TreeReplyText(junk, lines))) == lines
  {
    TreeReplyEnvelope(junk, lines);
    SplitLinesStripped(lines);
  }

  lemma TreeReplyEnvelope(junk: string, lines: seq<string>)
    requires 'O' !in junk
    requires lines != [] && lines[0] != [] && !IsSpace(lines[0][0])
    requires forall i :: 0 <= i < |lines| ==> EOT !in lines[i]
    ensures StripEnvelope(TreeReplyText(junk, lines)) == RStrip(Printed(lines))
  {
    PrintedAvoids(lines, EOT);
    StripEnvelopeOfReply(junk, Printed(lines));
    LStripPrinted(lines);
  }

  /** When the board prints the tree lines in time, `get_tree` hands back exactly
      those lines, joined by the board's line ends: `splitlines()` recovers them. */
  lemma TreeReplyRecovered(junk: string, lines: seq<string>, elapsed: nat -> real)
    requires 'O' !in junk && EOT !in junk
    requires lines != [] && lines[0] != [] && !IsSpace(lines[0][0])
    requires forall i :: 0 <= i < |lines| ==> lines[i] != [] && NoLineBreak(lines[i]) && EOT !in lines[i]
    requires !IsSpace(lines[|lines| - 1][|lines[|lines| - 1]| - 1])
    requires forall j :: 0 <= j < |Encode(TreeReplyText(junk, lines))| ==> elapsed(j) <= TIMEOUT_SECONDS
    ensures var loop := ReadLoop(Encode(TreeReplyText(junk, lines)), elapsed, None);
            && loop.end == Prompt
            && StripEnvelope(Decode(loop.output)) == RStrip(Printed(lines))
            && SplitLines(StripEnvelope(Decode(loop.output))) == lines
  {
    TreeReplyRead(junk, lines, elapsed);
    DecodeEncode(TreeReplyText(junk, lines));
    TreeReplyStripped(junk, lines);
  }

  /** A name that prints as one line ending in a visible character, with no Ctrl-D. */
  predicate Printable(name: string) {
    name != [] && NoLineBreak(name) && EOT !in name && !IsSpace(name[|name| - 1])
  }

  /** Every name anywhere in the file system below `listing` is printable. */
  predicate PrintableNames(listing: Listing)
    decreases listing
  {
    listing.Listed? ==> forall e :: e in listing.entries ==> Printable(e.name) && PrintableNames(e.listing)
  }

  /** A line the reply carries intact: `splitlines()` and `rstrip()` leave it alone. */
  predicate PrintableLine(line: string) {
    line != [] && NoLineBreak(line) && EOT !in line && !IsSpace(line[|line| - 1])
  }

  predicate Margin(prefix: string) {
    NoLineBreak(prefix) && EOT !in prefix
  }

  lemma EntryLinePrintable(prefix: string, last: bool, name: string)
    requires Margin(prefix) && Printable(name)
    ensures PrintableLine(prefix + Connector(last) + name)
  {
    var line := prefix + Connector(last) + name;
    forall i | 0 <= i < |line| ensures !IsLineBreak(line[i]) {
      if i >= |prefix| + 4 {
        assert line[i] == name[i - |prefix| - 4];
      } else if i >= |prefix| {
        assert line[i] == Connector(last)[i - |prefix|];
      } else {
        assert line[i] == prefix[i];
      }
    }
    assert line[|line| - 1] == name[|name| - 1];
  }

  lemma MarginExtends(prefix: string, last: bool)
    requires Margin(prefix)
    ensures Margin(prefix + Extension(last))
  {
    var p := prefix + Extension(last);
    forall i | 0 <= i < |p| ensures !IsLineBreak(p[i]) {
      if i >= |prefix| {
        assert p[i] == Extension(last)[i - |prefix|];
      } else {
        assert p[i] == prefix[i];
      }
    }
  }

  /** Every line `tree` prints for a file system of printable names is printable. */
  lemma {:induction false} TreeLinesPrintable(listing: Listing, prefix: string)
    requires Margin(prefix) && PrintableNames(listing)
    ensures forall line :: line in Tree(listing, prefix) ==> PrintableLine(line)
    decreases listing, 1
  {
    if listing.Listed? {
      var files := SortByName(listing.entries);
      assert forall e :: e in files ==> e in multiset(listing.entries);
      EntriesLinesPrintable(listing, files, prefix, 0);
    }
  }

  lemma {:induction false} EntriesLinesPrintable(listing: Listing, files: seq<Entry>, prefix: string, idx: nat)
    requires listing.Listed? && idx <= |files|
    requires forall e :: e in files ==> e in listing.entries
    requires Margin(prefix) && PrintableNames(listing)
    ensures forall line :: line in Entries(listing, files, prefix, idx) ==> PrintableLine(line)
    decreases listing, 0, |files| - idx
  {
    if idx < |files| {
      var e := files[idx];
      var last := idx == |files| - 1;
      assert e in listing.entries;
      EntriesStep(listing, files, prefix, idx);
      EntryLinePrintable(prefix, last, e.name);
      if Descends(e) {
        MarginExtends(prefix, last);
        TreeLinesPrintable(e.listing, prefix + Extension(last));
      }
      EntriesLinesPrintable(listing, files, prefix, idx + 1);
    }
  }

  /** The first line `tree('')` prints for a non-empty root starts with a connector. */
  lemma TreeStartsWithConnector(listing: Listing)
    requires listing.Listed? && listing.entries != []
    ensures var lines := Tree(listing, "");
            lines != [] && lines[0] != [] && !IsSpace(lines[0][0])
  {
    var files := SortByName(listing.entries);
    assert |files| == |multiset(files)| == |listing.entries|;
    assert forall e :: e in files ==> e in multiset(listing.entries);
    var first := HeadLines(files, "")[0];
    assert Tree(listing, "")[0] == first by {
      assert Tree(listing, "") == Entries(listing, files, "", 0);
      EntriesStep(listing, files, "", 0);
    }
    assert first == "" + Connector(|files| == 1) + files[0].name;
    assert first[0] == Connector(|files| == 1)[0];
    ConnectorVisible(|files| == 1);
  }

  lemma ConnectorVisible(last: bool)
    ensures !IsSpace(Connector(last)[0])
  {
  }

  /** A program that prints nothing: the reply is read whole and stripping leaves
      the empty text, which has no lines. */
  lemma EmptyTreeReplyRecovered(junk: string, elapsed: nat -> real)
    requires 'O' !in junk && EOT !in junk
    requires forall j :: 0 <= j < |Encode(TreeReplyText(junk, []))| ==> elapsed(j) <= TIMEOUT_SECONDS
    ensures var loop := ReadLoop(Encode(TreeReplyText(junk, [])), elapsed, None);
            && loop.end == Prompt
            && StripEnvelope(Decode(loop.output)) == []
  {
    TreeReplyRead(junk, [], elapsed);
    DecodeEncode(TreeReplyText(junk, []));
    assert TreeReplyText(junk, []) == junk + ACK + [] + [EOT, EOT, '>'];
    StripEnvelopeOfReply(junk, []);
  }

  /** An unreadable or empty directory prints no lines. */
  lemma EmptyTree(root: Listing)
    requires root.Unreadable? || root.entries == []
    ensures Tree(root, "") == []
  {
    if root.Listed? {
      var files := SortByName(root.entries);
      assert |files| == |multiset(files)| == |root.entries| == 0;
    }
  }

  /** End to end: a board whose names are all printable answers the tree program
      with text that `get_tree` turns back into exactly the lines `tree('')`
      printed. For an empty or unreadable root both are empty. */
  lemma BoardTreeRecovered(junk: string, root: Listing, elapsed: nat -> real)
    requires 'O' !in junk && EOT !in junk
    requires PrintableNames(root)
    requires forall j :: 0 <= j < |Encode(TreeReplyText(junk, Tree(root, "")))| ==> elapsed(j) <= TIMEOUT_SECONDS
    ensures var loop := ReadLoop(Encode(TreeReplyText(junk, Tree(root, ""))), elapsed, None);
            SplitLines(StripEnvelope(Decode(loop.output))) == Tree(root, "")
  {
    if root.Unreadable? || root.entries == [] {
      EmptyTree(root);
      EmptyTreeReplyRecovered(junk, elapsed);
      return;
    }
    var lines := Tree(root, "");
    TreeLinesPrintable(root, "");
    TreeStartsWithConnector(root);
    assert lines[|lines| - 1] in lines;
    assert forall i :: 0 <= i < |lines| ==> PrintableLine(lines[i]) by {
      forall i | 0 <= i < |lines| ensures PrintableLine(lines[i]) {
        assert lines[i] in lines;
      }
    }
    TreeReplyRecovered(junk, lines, elapsed);
  }
}

/** `_extract_version`, shared word for word by serial_plugin/serial_get_version.py and
    lib/get_micropython_version.py: the first line of the reply that mentions
    MicroPython holds the version as its second `;`-separated field. */
module VersionText {
  import opened Outcomes
  import opened PyText

  const MARKER := "MicroPython"
  const NOT_FOUND := "No MicroPython version found"
  /** The message of the IndexError raised by `[1]` on a one-element list. */
  const INDEX_ERROR := "list index out of range"
  const VERSION_COMMAND := "import sys; print(sys.version)"

  /** `line.strip().split(";")[1].strip()`. */
  function SecondField(line: string): (r: Outcome<string>)
    ensures r.Raised? <==> ';' !in line
    ensures r.Raised? ==> r.message == INDEX_ERROR
    ensures r.Returned? ==> ';' !in r.value
  {
    StripKeeps(line, ';');
    var parts := Split(Strip(line), ';');
    if |parts| < 2 then Raised(INDEX_ERROR)
    else
      assert parts[1] in parts;
      StripKeeps(parts[1], ';');
      Returned(Strip(parts[1]))
  }

  predicate Marked(line: string) {
    Contains(line, MARKER)
  }

  /** The loop over the lines with its early return. */
  function ScanLines(lines: seq<string>): (r: Outcome<string>)
    ensures lines == [] ==> r == Returned(NOT_FOUND)
    ensures r.Raised? ==> r.message == INDEX_ERROR
    ensures r.Returned? ==> ';' !in r.value
  {
    if lines == [] then Returned(NOT_FOUND)
    else if Marked(lines[0]) then SecondField(lines[0])
    else ScanLines(lines[1..])
  }

  /** With no marked line the loop runs out and returns the sentinel. */
  lemma {:induction false} ScanLinesUnmarked(lines: seq<string>)
    requires forall i :: 0 <= i < |lines| ==> !Marked(lines[i])
    ensures ScanLines(lines) == Returned(NOT_FOUND)
  {
    if lines != [] {
      assert !Marked(lines[0]);
      assert forall i :: 0 <= i < |lines| - 1 ==> lines[1..][i] == lines[i + 1];
      ScanLinesUnmarked(lines[1..]);
    }
  }

  /** The first marked line decides the result. */
  lemma {:induction false} ScanLinesFirstMarked(lines: seq<string>, k: nat)
    requires k < |lines| && Marked(lines[k])
    requires forall i :: 0 <= i < k ==> !Marked(lines[i])
    ensures ScanLines(lines) == SecondField(lines[k])
  {
    if k > 0 {
      assert !Marked(lines[0]);
      assert forall i :: 0 <= i < k - 1 ==> lines[1..][i] == lines[i + 1];
      assert lines[1..][k - 1] == lines[k];
      ScanLinesFirstMarked(lines[1..], k - 1);
    }
  }

  /** `_extract_version`: it can only fail with the IndexError of a marked line that
      has no second field, and a version it returns holds no `;`. */
  function ExtractVersion(raw: string): (r: Outcome<string>)
    ensures raw == [] ==> r == Returned(NOT_FOUND)
    ensures r.Raised? ==> r.message == INDEX_ERROR
    ensures r.Returned? ==> ';' !in r.value
  {
    ScanLines(SplitLines(raw))
  }

  /** The extraction is decided by the first marked line: it is that line's second
      field, and what follows it never matters; with no marked line the result is the
      fixed sentinel. */
  lemma ExtractVersionFirstMarked(raw: string, k: nat)
    requires k < |SplitLines(raw)| && Marked(SplitLines(raw)[k])
    requires forall i :: 0 <= i < k ==> !Marked(SplitLines(raw)[i])
    ensures ExtractVersion(raw) == SecondField(SplitLines(raw)[k])
  {
    ScanLinesFirstMarked(SplitLines(raw), k);
  }

  lemma ExtractVersionUnmarked(raw: string)
    requires forall i :: 0 <= i < |SplitLines(raw)| ==> !Marked(SplitLines(raw)[i])
    ensures ExtractVersion(raw) == Returned(NOT_FOUND)
  {
    ScanLinesUnmarked(SplitLines(raw));
  }

  /** Replacing everything after the first marked line leaves the result alone. */
  lemma {:induction false} ScanLinesIgnoresLater(before: seq<string>, line: string, after1: seq<string>, after2: seq<string>)
    requires forall i :: 0 <= i < |before| ==> !Marked(before[i])
    requires Marked(line)
    ensures ScanLines(before + [line] + after1) == ScanLines(before + [line] + after2)
    ensures ScanLines(before + [line] + after1) == SecondField(line)
  {
    var l1, l2 := before + [line] + after1, before + [line] + after2;
    assert l1[|before|] == line && l2[|before|] == line;
    assert forall i :: 0 <= i < |before| ==> l1[i] == before[i] && l2[i] == before[i];
    ScanLinesFirstMarked(l1, |before|);
    ScanLinesFirstMarked(l2, |before|);
  }

  lemma SplitSingle(s: string, sep: char)
    requires sep !in s
    ensures Split(s, sep) == [s]
  {
  }

  lemma SecondFieldFromParts(line: string, second: string)
    requires |Split(Strip(line), ';')| >= 2 && Split(Strip(line), ';')[1] == second
    ensures SecondField(line) == Returned(Strip(second))
  {
  }

  /** A line `pre;mid` yields `mid` with surrounding whitespace removed. */
  lemma SecondFieldOfTwo(pre: string, mid: string)
    requires ';' !in pre && ';' !in mid
    ensures SecondField(pre + ";" + mid) == Returned(Strip(mid))
  {
    StripOfTwo(pre, mid);
    LStripKeeps(pre, ';');
    RStripKeeps(mid, ';');
    SecondFieldOfSplit(pre + ";" + mid, LStrip(pre), RStrip(mid));
    StripRStrip(mid);
  }

  /** A line that strips to `p;m` with no other `;` yields `m` stripped. */
  lemma SecondFieldOfSplit(line: string, p: string, m: string)
    requires ';' !in p && ';' !in m
    requires Strip(line) == p + [';'] + m
    ensures SecondField(line) == Returned(Strip(m))
  {
    SplitTwo(p, m);
    SecondFieldFromParts(line, m);
  }

  lemma SplitTwo(p: string, m: string)
    requires ';' !in p && ';' !in m
    ensures Split(p + [';'] + m, ';') == [p, m]
  {
    SplitAfterFirst(p, ';', m);
    SplitSingle(m, ';');
  }

  lemma StripOfTwo(pre: string, mid: string)
    ensures Strip(pre + ";" + mid) == LStrip(pre) + [';'] + RStrip(mid)
  {
    assert pre + ";" + mid == pre + [';'] + mid;
    RStripStopsAt(pre, ';', mid);
    LStripStopsAt(pre, ';', RStrip(mid));
  }

  /** Stripping `pre;mid;post` only touches the outer ends. */
  lemma StripOfMore(pre: string, mid: string, post: string)
    ensures Strip(pre + ";" + mid + ";" + post) == LStrip(pre) + [';'] + (mid + [';'] + RStrip(post))
  {
    var line := pre + ";" + mid + ";" + post;
    var head := pre + [';'] + mid;
    var r := RStrip(post);
    assert line == head + [';'] + post;
    assert RStrip(line) == pre + [';'] + (mid + [';'] + r) by {
      RStripStopsAt(head, ';', post);
      ConsAssoc3(pre, mid, r);
    }
    LStripStopsAt(pre, ';', mid + [';'] + r);
  }

  /** A line that strips to `p;mid;r` with no `;` in `p` or `mid` yields `mid`. */
  lemma SecondFieldOfStripped(line: string, p: string, mid: string, r: string)
    requires ';' !in p && ';' !in mid
    requires Strip(line) == p + [';'] + (mid + [';'] + r)
    ensures SecondField(line) == Returned(Strip(mid))
  {
    SplitSecond(p, mid, r);
    SecondFieldFromParts(line, mid);
  }

  lemma SplitSecond(p: string, mid: string, r: string)
    requires ';' !in p && ';' !in mid
    ensures var parts := Split(p + [';'] + (mid + [';'] + r), ';');
            |parts| >= 2 && parts[1] == mid
  {
    var q := mid + [';'] + r;
    SplitAfterFirst(mid, ';', r);
    SplitAfterFirst(p, ';', q);
  }

  /** A line `pre;mid;post` yields `mid` with surrounding whitespace removed. */
  lemma SecondFieldOfMore(pre: string, mid: string, post: string)
    requires ';' !in pre && ';' !in mid
    ensures SecondField(pre + ";" + mid + ";" + post) == Returned(Strip(mid))
  {
    StripOfMore(pre, mid, post);
    LStripKeeps(pre, ';');
    SecondFieldOfStripped(pre + ";" + mid + ";" + post, LStrip(pre), mid, RStrip(post));
  }

  /** `(a;b);c` and `a;(b;c)` are the same string. */
  lemma ConsAssoc3(a: string, b: string, c: string)
    ensures a + [';'] + b + [';'] + c == a + [';'] + (b + [';'] + c)
  {
  }

  /** A one-line reply `pre;mid;post` that mentions MicroPython in `mid`. */
  lemma ExtractVersionOneLine(pre: string, mid: string, post: string)
    requires ';' !in pre && ';' !in mid
    requires NoLineBreak(pre + ";" + mid + ";" + post)
    requires Marked(mid)
    ensures ExtractVersion(pre + ";" + mid + ";" + post) == Returned(Strip(mid))
  {
    var line := pre + ";" + mid + ";" + post;
    SplitLinesSingle(line);
    var k := IndexOf(mid, MARKER).value;
    assert line[|pre| + 1 + k..|pre| + 1 + k + |MARKER|] == mid[k..k + |MARKER|];
    ContainsAt(line, MARKER, |pre| + 1 + k);
    SecondFieldOfMore(pre, mid, post);
  }

  lemma CommandIsOneLine()
    ensures NoLineBreak(VERSION_COMMAND)
  {
  }

  lemma CommandUnmarked()
    ensures !Marked(VERSION_COMMAND)
  {
    MissingChar(VERSION_COMMAND, MARKER, 0);
  }

  /** Two CRLF-terminated lines in front of `after`. */
  lemma SplitLinesTwo(first: string, line: string, after: string)
    requires NoLineBreak(first) && NoLineBreak(line)
    ensures SplitLines(first + "\r\n" + line + "\r\n" + after) == [first, line] + SplitLines(after)
  {
    var rest := line + "\r\n" + after;
    assert first + "\r\n" + line + "\r\n" + after == first + "\r\n" + rest;
    SplitLinesFirstCrLf(first, rest);
    SplitLinesFirstCrLf(line, after);
  }

  /** An unmarked first line is skipped; the result is decided by the next line when
      that one is marked. */
  lemma ExtractVersionSecondLine(first: string, line: string, after: string)
    requires NoLineBreak(first) && !Marked(first)
    requires NoLineBreak(line) && Marked(line)
    ensures ExtractVersion(first + "\r\n" + line + "\r\n" + after) == SecondField(line)
  {
    var lines := [first, line] + SplitLines(after);
    assert SplitLines(first + "\r\n" + line + "\r\n" + after) == lines by {
      SplitLinesTwo(first, line, after);
    }
    assert lines[0] == first && lines[1] == line;
    ScanLinesFirstMarked(lines, 1);
  }

  /** The board echoes the command line before printing the version line, and the echo
      never mentions MicroPython, so it cannot be mistaken for the version line; the
      prompt and anything else that follows the version line does not matter. */
  lemma ExtractVersionAfterEcho(line: string, after: string)
    requires NoLineBreak(line) && Marked(line)
    ensures ExtractVersion(VERSION_COMMAND + "\r\n" + line + "\r\n" + after) == SecondField(line)
  {
    CommandIsOneLine();
    CommandUnmarked();
    ExtractVersionSecondLine(VERSION_COMMAND, line, after);
  }

  /** What the board sends back for the version command: the echoed command, the
      version line and a fresh prompt, each line ended by CRLF as the REPL does. */
  function EchoReply(line: string): string {
    VERSION_COMMAND + "\r\n" + line + "\r\n>>> "
  }

  /** Stripping `body` followed by the trailing blank of a prompt. */
  lemma StripBeforeBlank(body: string, c: char)
    requires body != [] && !IsSpace(body[0]) && !IsSpace(c)
    ensures Strip(body + [c] + " ") == body + [c]
  {
    RStripStopsAt(body, c, " ");
    assert RStrip(" ") == [];
    var kept := body + [c];
    assert kept[0] == body[0];
  }

  lemma EchoReplyStripped(line: string)
    ensures Strip(EchoReply(line)) == VERSION_COMMAND + "\r\n" + line + "\r\n" + ">>>"
  {
    var body := VERSION_COMMAND + "\r\n" + line + "\r\n>>";
    assert body[0] == 'i';
    assert EchoReply(line) == body + ['>'] + " ";
    StripBeforeBlank(body, '>');
    assert body + ['>'] == VERSION_COMMAND + "\r\n" + line + "\r\n" + ">>>";
  }

  /** For that reply the extraction returns the version line's second field. */
  lemma ExtractVersionOfEchoReply(line: string)
    requires NoLineBreak(line) && Marked(line)
    ensures ExtractVersion(Strip(EchoReply(line))) == SecondField(line)
  {
    EchoReplyStripped(line);
    ExtractVersionAfterEcho(line, ">>>");
  }
}

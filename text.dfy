/** The Python `str` operations the serial client relies on: `isspace`, `strip`,
    `rstrip`, `in`, `split`, `rsplit`, `replace` with an empty replacement, and
    `splitlines`, as CPython defines them. */
module PyText {
  import opened Outcomes

  /** `c.isspace()`: the characters CPython treats as whitespace. */
  predicate IsSpace(c: char) {
    || '\t' <= c <= '\r'
    || '\U{1C}' <= c <= ' '
    || c == '\U{85}' || c == '\U{A0}' || c == '\U{1680}'
    || '\U{2000}' <= c <= '\U{200A}'
    || c == '\U{2028}' || c == '\U{2029}' || c == '\U{202F}' || c == '\U{205F}'
    || c == '\U{3000}'
  }

  /** The characters at which `str.splitlines()` ends a line. */
  predicate IsLineBreak(c: char) {
    || c == '\n' || c == '\r' || c == '\U{0B}' || c == '\U{0C}'
    || '\U{1C}' <= c <= '\U{1E}'
    || c == '\U{85}' || c == '\U{2028}' || c == '\U{2029}'
  }

  predicate NoLineBreak(s: string) {
    forall i :: 0 <= i < |s| ==> !IsLineBreak(s[i])
  }

  /** `s.rstrip()`: the longest prefix of `s` that does not end in whitespace. */
  function RStrip(s: string): (r: string)
    ensures |r| <= |s| && r == s[..|r|]
    ensures r == [] || !IsSpace(r[|r| - 1])
    ensures forall i :: |r| <= i < |s| ==> IsSpace(s[i])
    decreases |s|
  {
    if s != [] && IsSpace(s[|s| - 1]) then RStrip(s[..|s| - 1]) else s
  }

  /** `s.lstrip()`: the longest suffix of `s` that does not start with whitespace. */
  function LStrip(s: string): (r: string)
    ensures |r| <= |s| && r == s[|s| - |r|..]
    ensures r == [] || !IsSpace(r[0])
    ensures forall i :: 0 <= i < |s| - |r| ==> IsSpace(s[i])
    decreases |s|
  {
    if s != [] && IsSpace(s[0]) then LStrip(s[1..]) else s
  }

  /** `s.strip()`: the slice of `s` between its leading and its trailing whitespace. */
  function Strip(s: string): (r: string)
    ensures r == [] || (!IsSpace(r[0]) && !IsSpace(r[|r| - 1]))
  {
    var t := RStrip(s);
    var r := LStrip(t);
    assert r != [] ==> r[|r| - 1] == t[|t| - 1];
    r
  }

  /** What `strip()` keeps is one slice of `s`; everything before and after it is
      whitespace. */
  lemma StripSlice(s: string)
    ensures exists i, j :: 0 <= i <= j <= |s| && Strip(s) == s[i..j]
                           && (forall k :: 0 <= k < i ==> IsSpace(s[k]))
                           && (forall k :: j <= k < |s| ==> IsSpace(s[k]))
  {
    var t := RStrip(s);
    var r := LStrip(t);
    var i, j := |t| - |r|, |t|;
    assert Strip(s) == r == s[i..j];
    assert forall k :: 0 <= k < i ==> IsSpace(s[k]) by {
      forall k | 0 <= k < i ensures IsSpace(s[k]) {
        assert s[k] == t[k];
      }
    }
  }

  /** A text that neither starts nor ends with whitespace is its own strip. */
  lemma StripStripped(s: string)
    requires s == [] || (!IsSpace(s[0]) && !IsSpace(s[|s| - 1]))
    ensures Strip(s) == s && RStrip(s) == s && LStrip(s) == s
  {
  }

  lemma {:induction false} RStripKeeps(s: string, c: char)
    requires !IsSpace(c)
    ensures c in RStrip(s) <==> c in s
    decreases |s|
  {
    if s != [] && IsSpace(s[|s| - 1]) {
      var init := s[..|s| - 1];
      assert s == init + [s[|s| - 1]];
      RStripKeeps(init, c);
    }
  }

  lemma {:induction false} LStripKeeps(s: string, c: char)
    requires !IsSpace(c)
    ensures c in LStrip(s) <==> c in s
    decreases |s|
  {
    if s != [] && IsSpace(s[0]) {
      assert s == [s[0]] + s[1..];
      LStripKeeps(s[1..], c);
    }
  }

  /** Stripping only removes whitespace: any other character occurs in the stripped
      text exactly when it occurs in the original. */
  lemma StripKeeps(s: string, c: char)
    requires !IsSpace(c)
    ensures c in Strip(s) <==> c in s
  {
    RStripKeeps(s, c);
    LStripKeeps(RStrip(s), c);
  }

  /** Stripping the right end first changes nothing. */
  lemma StripRStrip(s: string)
    ensures Strip(RStrip(s)) == Strip(s)
  {
    var t := RStrip(s);
    assert RStrip(t) == t;
  }

  /** Stripping stops at a non-whitespace character: whatever follows it is kept. */
  lemma {:induction false} LStripStopsAt(a: string, c: char, b: string)
    requires !IsSpace(c)
    ensures LStrip(a + [c] + b) == LStrip(a) + [c] + b
    decreases |a|
  {
    var s := a + [c] + b;
    if a == [] {
      assert s == [c] + b;
    } else if IsSpace(a[0]) {
      var t := a[1..];
      assert s[0] == a[0] && s[1..] == t + [c] + b;
      assert LStrip(s) == LStrip(t + [c] + b);
      LStripStopsAt(t, c, b);
    } else {
      assert s[0] == a[0];
    }
  }

  lemma {:induction false} RStripStopsAt(a: string, c: char, b: string)
    requires !IsSpace(c)
    ensures RStrip(a + [c] + b) == a + [c] + RStrip(b)
    decreases |b|
  {
    var s := a + [c] + b;
    if b != [] {
      assert s[|s| - 1] == b[|b| - 1];
      if IsSpace(b[|b| - 1]) {
        assert s[..|s| - 1] == a + [c] + b[..|b| - 1];
        RStripStopsAt(a, c, b[..|b| - 1]);
      }
    } else {
      assert s == a + [c];
    }
  }

  /** `sub` occurs in `s` starting at position `i`. */
  predicate OccursAt(s: string, sub: string, i: nat) {
    i + |sub| <= |s| && s[i..i + |sub|] == sub
  }

  /** Position of the first occurrence of `sub` in `s` at or after `k`. */
  function IndexFrom(s: string, sub: string, k: nat): (r: Option<nat>)
    requires k <= |s|
    ensures r.Some? ==> k <= r.value && OccursAt(s, sub, r.value)
    ensures forall i: nat :: k <= i && (r.None? || i < r.value) ==> !OccursAt(s, sub, i)
    decreases |s| - k
  {
    if k + |sub| > |s| then None
    else if s[k..k + |sub|] == sub then Some(k)
    else IndexFrom(s, sub, k + 1)
  }

  /** `s.find(sub)` as an option: the first position where `sub` occurs. */
  function IndexOf(s: string, sub: string): (r: Option<nat>)
    ensures r.Some? ==> OccursAt(s, sub, r.value)
    ensures forall i: nat :: (r.None? || i < r.value) ==> !OccursAt(s, sub, i)
  {
    IndexFrom(s, sub, 0)
  }

  /** Python's `sub in s`. */
  predicate Contains(s: string, sub: string) {
    IndexOf(s, sub).Some?
  }

  /** `sub` cannot occur in a text that lacks one of its characters. */
  lemma MissingChar(s: string, sub: string, i: nat)
    requires i < |sub| && sub[i] !in s
    ensures !Contains(s, sub)
  {
  }

  lemma ContainsAt(s: string, sub: string, k: nat)
    requires OccursAt(s, sub, k)
    ensures Contains(s, sub) && IndexOf(s, sub).value <= k
  {
  }

  /** The first position of the character `c` in `s`. */
  function FindChar(s: string, c: char): (r: Option<nat>)
    ensures r.Some? ==> r.value < |s| && s[r.value] == c && c !in s[..r.value]
    ensures r.None? <==> c !in s
  {
    if s == [] then None
    else if s[0] == c then Some(0)
    else match FindChar(s[1..], c)
      case None => None
      case Some(i) =>
        assert s[..i + 1] == [s[0]] + s[1..][..i];
        Some(i + 1)
  }

  /** The last position of the character `c` in `s`. */
  function RFindChar(s: string, c: char): (r: Option<nat>)
    ensures r.Some? ==> r.value < |s| && s[r.value] == c && c !in s[r.value + 1..]
    ensures r.None? <==> c !in s
    decreases |s|
  {
    if s == [] then None
    else if s[|s| - 1] == c then Some(|s| - 1)
    else
      var init := s[..|s| - 1];
      assert s == init + [s[|s| - 1]];
      match RFindChar(init, c)
      case None => None
      case Some(i) =>
        assert s[i + 1..] == init[i + 1..] + [s[|s| - 1]];
        Some(i)
  }

  /** `s.split(sep)` for a one-character separator. */
  function Split(s: string, sep: char): (parts: seq<string>)
    ensures |parts| >= 1
    ensures forall p :: p in parts ==> sep !in p
    ensures |parts| == 1 <==> sep !in s
    decreases |s|
  {
    match FindChar(s, sep)
    case None => [s]
    case Some(i) => [s[..i]] + Split(s[i + 1..], sep)
  }

  lemma Pivot<T>(s: seq<T>, i: nat)
    requires i < |s|
    ensures s == s[..i] + [s[i]] + s[i + 1..]
  {
  }

  /** `sep.join(parts)`. */
  function Join(parts: seq<string>, sep: char): string
    requires |parts| >= 1
  {
    if |parts| == 1 then parts[0] else parts[0] + [sep] + Join(parts[1..], sep)
  }

  /** Splitting and joining again gives back the text. */
  lemma {:induction false} JoinSplit(s: string, sep: char)
    ensures Join(Split(s, sep), sep) == s
    decreases |s|
  {
    match FindChar(s, sep)
    case None =>
    case Some(i) =>
      var head, tail := s[..i], s[i + 1..];
      var rest := Split(tail, sep);
      var parts := [head] + rest;
      assert Split(s, sep) == parts;
      assert parts[0] == head && parts[1..] == rest;
      assert Join(parts, sep) == head + [sep] + Join(rest, sep);
      JoinSplit(tail, sep);
      Pivot(s, i);
  }

  /** Splitting text in which the separator first occurs after `a`. */
  lemma SplitAfterFirst(a: string, sep: char, b: string)
    requires sep !in a
    ensures Split(a + [sep] + b, sep) == [a] + Split(b, sep)
  {
    var s := a + [sep] + b;
    assert s[|a|] == sep;
    assert s[..|a|] == a;
    assert s[|a| + 1..] == b;
  }

  /** `s.replace(c, '')`. */
  function RemoveAll(s: string, c: char): (r: string)
    ensures c !in r
    ensures forall x :: x in r <==> x in s && x != c
    ensures c !in s ==> r == s
  {
    if s == [] then []
    else (if s[0] == c then [] else [s[0]]) + RemoveAll(s[1..], c)
  }

  /** `s.rsplit(c, 1)[0]`: the text before the last `c`, or all of `s` if there is none. */
  function BeforeLast(s: string, c: char): (r: string)
    ensures |r| <= |s| && r == s[..|r|]
    ensures c in s ==> |r| < |s| && s[|r|] == c && c !in s[|r| + 1..]
    ensures c !in s ==> r == s
  {
    match RFindChar(s, c)
    case None => s
    case Some(i) => s[..i]
  }

  /** `s.split(sub, 1)[1]`: the text after the first occurrence of `sub`. */
  function AfterFirst(s: string, sub: string): (r: string)
    requires Contains(s, sub)
    ensures |r| <= |s| - |sub| && r == s[|s| - |r|..]
    ensures OccursAt(s, sub, |s| - |r| - |sub|)
    ensures forall j: nat :: j < |s| - |r| - |sub| ==> !OccursAt(s, sub, j)
  {
    assert OccursAt(s, sub, IndexOf(s, sub).value);
    s[IndexOf(s, sub).value + |sub|..]
  }

  /** The first line-break position of `s`. */
  function FindLineBreak(s: string): (r: Option<nat>)
    ensures r.Some? ==> r.value < |s| && IsLineBreak(s[r.value]) && NoLineBreak(s[..r.value])
    ensures r.None? <==> NoLineBreak(s)
  {
    if s == [] then None
    else if IsLineBreak(s[0]) then Some(0)
    else match FindLineBreak(s[1..])
      case None => None
      case Some(i) =>
        assert s[..i + 1] == [s[0]] + s[1..][..i];
        Some(i + 1)
  }

  /** `s.splitlines()`: the lines of `s` without their terminators; `\r\n` ends one
      line, and a terminator at the very end does not start an empty last line. */
  function SplitLines(s: string): (lines: seq<string>)
    ensures forall i :: 0 <= i < |lines| ==> NoLineBreak(lines[i])
    ensures lines == [] <==> s == []
    decreases |s|
  {
    if s == [] then []
    else match FindLineBreak(s)
      case None => [s]
      case Some(i) => [s[..i]] + SplitLines(s[i + BreakWidth(s, i)..])
  }

  /** How many characters the line break at `i` takes: two for `\r\n`, else one. */
  function BreakWidth(s: string, i: nat): (w: nat)
    requires i < |s|
    ensures 1 <= w <= 2 && i + w <= |s|
  {
    if s[i] == '\r' && i + 1 < |s| && s[i + 1] == '\n' then 2 else 1
  }

  /** The terminator that `splitlines()` dropped after each of its lines: `\r\n`, a
      single line-break character, or nothing after an unterminated last line. */
  function LineEnds(s: string): (ends: seq<string>)
    decreases |s|
  {
    if s == [] then []
    else match FindLineBreak(s)
      case None => [""]
      case Some(i) => [s[i..i + BreakWidth(s, i)]] + LineEnds(s[i + BreakWidth(s, i)..])
  }

  predicate StartsWithLf(x: string) {
    x != [] && x[0] == '\n'
  }

  predicate IsLineEnd(e: string) {
    e == "\r\n" || (|e| == 1 && IsLineBreak(e[0]))
  }

  /** Each line followed by its terminator, all concatenated. */
  function Rebuild(lines: seq<string>, ends: seq<string>): string
    requires |lines| == |ends|
  {
    if lines == [] then [] else lines[0] + ends[0] + Rebuild(lines[1..], ends[1..])
  }

  /** `lines`, each followed by its terminator in `ends`, give `s` back; every
      terminator is a line break (only the last may be empty), a lone `\r` is
      never followed by the `\n` that would have paired with it, and the last line
      and its terminator are not both empty. */
  predicate RebuildsText(s: string, lines: seq<string>, ends: seq<string>) {
    && |ends| == |lines|
    && Rebuild(lines, ends) == s
    && (forall i :: 0 <= i < |ends| - 1 ==> IsLineEnd(ends[i]))
    && (ends != [] ==> ends[|ends| - 1] == "" || IsLineEnd(ends[|ends| - 1]))
    && (forall i :: 0 <= i < |ends| - 1 && ends[i] == "\r" ==> !StartsWithLf(lines[i + 1] + ends[i + 1]))
    && (lines != [] ==> lines[|lines| - 1] + ends[|ends| - 1] != "")
  }

  /** The lines of `splitlines()` and the terminators it dropped rebuild the text. */
  lemma {:induction false} SplitLinesRebuild(s: string)
    ensures RebuildsText(s, SplitLines(s), LineEnds(s))
    decreases |s|
  {
    if s != [] {
      match FindLineBreak(s)
      case None =>
        assert Rebuild([s], [""]) == s + "" + Rebuild([], []);
      case Some(i) =>
        SplitLinesAt(s);
        var w := BreakWidth(s, i);
        var rest := s[i + w..];
        SplitLinesRebuild(rest);
        if rest != [] {
          FirstLineRebuild(rest);
        }
        RebuildsCons(s[..i], s[i..i + w], rest, SplitLines(rest), LineEnds(rest));
    }
  }

  /** One step of `splitlines()`: the first line, its terminator, and the rest. */
  lemma SplitLinesAt(s: string)
    requires FindLineBreak(s).Some?
    ensures var i := FindLineBreak(s).value;
            var w := BreakWidth(s, i);
            var rest := s[i + w..];
            && SplitLines(s) == [s[..i]] + SplitLines(rest)
            && LineEnds(s) == [s[i..i + w]] + LineEnds(rest)
            && s == s[..i] + s[i..i + w] + rest
            && IsLineEnd(s[i..i + w])
            && (s[i..i + w] == "\r" && rest != [] ==> rest[0] != '\n')
  {
    var i := FindLineBreak(s).value;
    var w := BreakWidth(s, i);
    assert s == s[..i] + s[i..i + w] + s[i + w..];
  }

  /** Putting one more terminated line in front keeps the text rebuilt. */
  lemma RebuildsCons(line: string, e: string, rest: string, lines: seq<string>, ends: seq<string>)
    requires IsLineEnd(e) && RebuildsText(rest, lines, ends)
    requires e == "\r" && lines != [] ==> !StartsWithLf(lines[0] + ends[0])
    ensures RebuildsText(line + e + rest, [line] + lines, [e] + ends)
  {
    var lines', ends' := [line] + lines, [e] + ends;
    assert lines'[1..] == lines && ends'[1..] == ends;
    assert Rebuild(lines', ends') == line + e + rest;
    if lines != [] {
      assert lines'[|lines'| - 1] == lines[|lines| - 1] && ends'[|ends'| - 1] == ends[|ends| - 1];
    } else {
      assert |line + e| >= |e| > 0;
    }
    forall i | 0 <= i < |ends'| - 1
      ensures IsLineEnd(ends'[i])
    {
      if i > 0 {
        assert ends'[i] == ends[i - 1];
      }
    }
    forall i | 0 <= i < |ends'| - 1 && ends'[i] == "\r"
      ensures !StartsWithLf(lines'[i + 1] + ends'[i + 1])
    {
      assert lines'[i + 1] == lines[i] && ends'[i + 1] == ends[i];
      if i > 0 {
        assert ends'[i] == ends[i - 1] && lines'[i] == lines[i - 1];
      }
    }
  }

  /** A non-empty text starts with its first line and that line's terminator, which
      together are not empty. */
  lemma FirstLineRebuild(s: string)
    requires s != []
    ensures SplitLines(s) != [] && |LineEnds(s)| >= 1
    ensures var x := SplitLines(s)[0] + LineEnds(s)[0];
            x != [] && x[0] == s[0]
  {
    match FindLineBreak(s)
    case None =>
    case Some(i) =>
  }

  /** What a MicroPython board sends for one `print` call per line: each line
      followed by `\r\n`. */
  function Printed(lines: seq<string>): string {
    if lines == [] then [] else lines[0] + "\r\n" + Printed(lines[1..])
  }

  lemma FindLineBreakAt(s: string, k: nat)
    requires k < |s| && IsLineBreak(s[k]) && NoLineBreak(s[..k])
    ensures FindLineBreak(s) == Some(k)
  {
  }

  /** A line ended by `\r\n`, the terminator a MicroPython REPL sends. */
  lemma SplitLinesFirstCrLf(line: string, rest: string)
    requires NoLineBreak(line)
    ensures SplitLines(line + "\r\n" + rest) == [line] + SplitLines(rest)
  {
    var s := line + "\r\n" + rest;
    assert s[..|line|] == line;
    assert s[|line|] == '\r' && s[|line| + 1] == '\n';
    FindLineBreakAt(s, |line|);
    assert s[|line| + 2..] == rest;
  }

  /** Lines printed one per `print` call are recovered by `splitlines()`. */
  lemma {:induction false} SplitLinesPrinted(lines: seq<string>)
    requires forall i :: 0 <= i < |lines| ==> NoLineBreak(lines[i])
    ensures SplitLines(Printed(lines)) == lines
  {
    if lines != [] {
      SplitLinesFirstCrLf(lines[0], Printed(lines[1..]));
      SplitLinesPrinted(lines[1..]);
    }
  }

  lemma SplitLinesSingle(s: string)
    requires s != [] && NoLineBreak(s)
    ensures SplitLines(s) == [s]
  {
  }

  /** Printing one line more adds that line and its terminator at the end. */
  lemma {:induction false} PrintedSnoc(init: seq<string>, last: string)
    ensures Printed(init + [last]) == Printed(init) + last + "\r\n"
  {
    if init == [] {
      assert init + [last] == [last];
    } else {
      var l := init + [last];
      var head, tail := init[0], Printed(init[1..]);
      assert l[0] == head && l[1..] == init[1..] + [last];
      assert Printed(l) == head + "\r\n" + Printed(init[1..] + [last]);
      PrintedSnoc(init[1..], last);
      assert Printed(init) == head + "\r\n" + tail;
      Assoc3(head + "\r\n", tail, last + "\r\n");
    }
  }

  lemma Assoc3<T>(a: seq<T>, b: seq<T>, c: seq<T>)
    ensures a + (b + c) == a + b + c
  {
  }

  /** The lines printed so far followed by a last line without its terminator, as
      left once the trailing whitespace is stripped, still split into those lines. */
  lemma {:induction false} SplitLinesPrintedThen(init: seq<string>, last: string)
    requires forall i :: 0 <= i < |init| ==> NoLineBreak(init[i])
    requires last != [] && NoLineBreak(last)
    ensures SplitLines(Printed(init) + last) == init + [last]
  {
    if init == [] {
      assert Printed(init) + last == last;
      SplitLinesSingle(last);
    } else {
      var head, tail := init[0], init[1..];
      assert init == [head] + tail;
      assert forall i :: 0 <= i < |tail| ==> tail[i] == init[i + 1];
      SplitLinesPrintedThen(tail, last);
      SplitLinesPrintedStep(head, tail, last);
    }
  }

  lemma SplitLinesPrintedStep(head: string, tail: seq<string>, last: string)
    requires NoLineBreak(head)
    requires SplitLines(Printed(tail) + last) == tail + [last]
    ensures SplitLines(Printed([head] + tail) + last) == [head] + tail + [last]
  {
    PrintedFront(head, tail, last);
    SplitLinesFirstCrLf(head, Printed(tail) + last);
  }

  lemma PrintedFront(head: string, tail: seq<string>, last: string)
    ensures Printed([head] + tail) + last == head + "\r\n" + (Printed(tail) + last)
  {
    var lines := [head] + tail;
    assert lines[0] == head && lines[1..] == tail;
    assert Printed(lines) == head + "\r\n" + Printed(tail);
    Assoc3(head + "\r\n", Printed(tail), last);
  }

  /** Stripping printed lines removes the last terminator and nothing more when the
      last line ends in a visible character. */
  lemma RStripPrinted(init: seq<string>, last: string)
    requires last != [] && !IsSpace(last[|last| - 1])
    ensures RStrip(Printed(init + [last])) == Printed(init) + last
  {
    PrintedSnoc(init, last);
    var a := Printed(init) + last[..|last| - 1];
    var c := last[|last| - 1];
    assert Printed(init) + last + "\r\n" == a + [c] + "\r\n";
    RStripStopsAt(a, c, "\r\n");
    assert RStrip("\r\n") == [];
    assert a + [c] == Printed(init) + last;
  }

  /** `splitlines()` recovers printed lines once the trailing whitespace is stripped,
      provided the last line ends in a visible character. */
  lemma SplitLinesStripped(lines: seq<string>)
    requires lines != [] && forall i :: 0 <= i < |lines| ==> NoLineBreak(lines[i])
    requires lines[|lines| - 1] != [] && !IsSpace(lines[|lines| - 1][|lines[|lines| - 1]| - 1])
    ensures SplitLines(RStrip(Printed(lines))) == lines
  {
    var init, last := lines[..|lines| - 1], lines[|lines| - 1];
    assert lines == init + [last];
    RStripPrinted(init, last);
    assert forall i :: 0 <= i < |init| ==> init[i] == lines[i];
    SplitLinesPrintedThen(init, last);
  }

  /** A character other than the terminator's occurs in printed lines only where it
      occurs in one of the lines. */
  lemma {:induction false} PrintedAvoids(lines: seq<string>, c: char)
    requires c != '\r' && c != '\n'
    requires forall i :: 0 <= i < |lines| ==> c !in lines[i]
    ensures c !in Printed(lines)
  {
    if lines != [] {
      PrintedAvoids(lines[1..], c);
      assert Printed(lines) == lines[0] + "\r\n" + Printed(lines[1..]);
    }
  }

  /** Printed lines whose first line starts with a visible character have no
      leading whitespace to strip. */
  lemma LStripPrinted(lines: seq<string>)
    requires lines != [] && lines[0] != [] && !IsSpace(lines[0][0])
    ensures LStrip(Printed(lines)) == Printed(lines)
  {
    assert Printed(lines)[0] == lines[0][0];
  }

  predicate EndsWith<T(==)>(s: seq<T>, suffix: seq<T>) {
    |suffix| <= |s| && s[|s| - |suffix|..] == suffix
  }
}

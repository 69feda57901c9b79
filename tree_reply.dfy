/** The pure half of `FileStructure.get_tree` (serial_plugin/serial_get_file_structure.py):
    what the byte-by-byte read loop accumulates and why it stops, and how the raw-REPL
    envelope is peeled off the decoded reply. */
module TreeReply {
  import opened Utf8
  import opened Outcomes
  import opened PyText

  /** Ctrl-D: ends a program in the raw REPL and delimits its output in the reply. */
  const EOT: char := '\U{4}'
  const EOT_BYTE: byte := 0x04
  /** The bytes that end a raw-REPL reply: Ctrl-D and the `>` prompt. */
  const PROMPT: seq<byte> := [0x04, 0x3E]
  const TIMEOUT_SECONDS: real := 10.0
  const TIMEOUT_TEXT := "[ERROR] Timeout"
  /** `b'[ERROR] Timeout'`, the bytes that replace the output on a timeout. */
  const TIMEOUT_BYTES: seq<byte> := AsciiBytes(TIMEOUT_TEXT)
  const ACK := "OK"

  /** Read number `at` (counting from 0) raises an error with this message. */
  datatype Fault = Fault(at: nat, message: string)

  predicate FailsAt(fault: Option<Fault>, k: nat) {
    fault.Some? && fault.value.at == k
  }

  /** Why the read loop stopped. */
  datatype LoopEnd = Prompt | NoData | TimedOut | ReadFailed(message: string)

  /** The loop's `output` buffer, how many bytes it read, and how it stopped. */
  datatype LoopResult = LoopResult(output: seq<byte>, consumed: nat, end: LoopEnd)

  /** The first `j` bytes of `input` end with `\x04>`: what `output.endswith(b'\x04>')`
      tests once `j` bytes are read (see `PromptAtEndsWith`). */
  predicate PromptAt(input: seq<byte>, j: nat) {
    2 <= j <= |input| && input[j - 2] == PROMPT[0] && input[j - 1] == PROMPT[1]
  }

  lemma PromptAtEndsWith(input: seq<byte>, j: nat)
    requires j <= |input|
    ensures PromptAt(input, j) <==> EndsWith(input[..j], PROMPT)
  {
    if 2 <= j {
      assert input[..j][j - 2..] == [input[j - 2], input[j - 1]];
    }
  }

  /** The loop from its `k`-th iteration on, having read `input[..k]`. Iteration `k`
      first compares `elapsed(k)`, the seconds since the start as `time()` then
      reports them, with the deadline, and then reads byte `k` of the reply. */
  function Loop(input: seq<byte>, elapsed: nat -> real, fault: Option<Fault>, k: nat): (r: LoopResult)
    requires k <= |input|
    ensures k <= r.consumed <= |input|
    decreases |input| - k
  {
    if elapsed(k) > TIMEOUT_SECONDS then LoopResult(TIMEOUT_BYTES, k, TimedOut)
    else if FailsAt(fault, k) then LoopResult(input[..k], k, ReadFailed(fault.value.message))
    else if k == |input| then LoopResult(input, k, NoData)
    else if PromptAt(input, k + 1) then LoopResult(input[..k + 1], k + 1, Prompt)
    else Loop(input, elapsed, fault, k + 1)
  }

  /** Iteration `k` neither stops nor raises: it goes on to iteration `k + 1`. */
  predicate Continues(input: seq<byte>, elapsed: nat -> real, fault: Option<Fault>, k: nat) {
    elapsed(k) <= TIMEOUT_SECONDS && !FailsAt(fault, k) && k < |input| && !PromptAt(input, k + 1)
  }

  lemma LoopStep(input: seq<byte>, elapsed: nat -> real, fault: Option<Fault>, k: nat)
    requires Continues(input, elapsed, fault, k)
    ensures Loop(input, elapsed, fault, k) == Loop(input, elapsed, fault, k + 1)
  {
  }

  /** Iteration `k` is the last one: it stops one byte later at the latest, and
      later than `k` only at a prompt. */
  lemma LoopLast(input: seq<byte>, elapsed: nat -> real, fault: Option<Fault>, k: nat)
    requires k <= |input| && !Continues(input, elapsed, fault, k)
    ensures var r := Loop(input, elapsed, fault, k);
            && r.consumed <= k + 1
            && (r.consumed == k + 1 <==> r.end == Prompt)
            && (r.end == Prompt ==> elapsed(k) <= TIMEOUT_SECONDS && !FailsAt(fault, k) && PromptAt(input, k + 1))
  {
  }

  /** What the loop's result says about the reply, the clock and the port. */
  predicate EndsAsSaid(input: seq<byte>, elapsed: nat -> real, fault: Option<Fault>, k: nat, r: LoopResult)
    requires r.consumed <= |input|
  {
    && (r.end != TimedOut ==> r.output == input[..r.consumed])
    && (r.end == TimedOut ==> r.output == TIMEOUT_BYTES && elapsed(r.consumed) > TIMEOUT_SECONDS)
    && (r.end == NoData ==> r.consumed == |input|)
    && (r.end == Prompt ==> k < r.consumed && PromptAt(input, r.consumed))
    && (r.end.ReadFailed? ==> fault == Some(Fault(r.consumed, r.end.message)))
  }

  lemma LoopEndsHere(input: seq<byte>, elapsed: nat -> real, fault: Option<Fault>, k: nat)
    requires k <= |input| && !Continues(input, elapsed, fault, k)
    ensures EndsAsSaid(input, elapsed, fault, k, Loop(input, elapsed, fault, k))
  {
    if k == |input| {
      assert input[..k] == input;
    }
  }

  lemma {:induction false} LoopEndsAsSaid(input: seq<byte>, elapsed: nat -> real, fault: Option<Fault>, k: nat)
    requires k <= |input|
    ensures EndsAsSaid(input, elapsed, fault, k, Loop(input, elapsed, fault, k))
    decreases |input| - k
  {
    if Continues(input, elapsed, fault, k) {
      LoopStep(input, elapsed, fault, k);
      LoopEndsAsSaid(input, elapsed, fault, k + 1);
    } else {
      LoopEndsHere(input, elapsed, fault, k);
    }
  }

  /** How each way of stopping shows in the result: the buffer holds exactly the
      bytes read unless the deadline passed, in which case it holds the sentinel;
      the loop runs dry only at the end of the reply, stops at a prompt only after
      reading a byte that completes `\x04>`, and stops on an error only at the read
      that raises. */
  lemma LoopEnds(input: seq<byte>, elapsed: nat -> real, fault: Option<Fault>, k: nat)
    requires k <= |input|
    ensures var r := Loop(input, elapsed, fault, k);
            && (r.end != TimedOut ==> r.output == input[..r.consumed])
            && (r.end == TimedOut ==> r.output == TIMEOUT_BYTES && elapsed(r.consumed) > TIMEOUT_SECONDS)
            && (r.end == NoData ==> r.consumed == |input|)
            && (r.end == Prompt ==> k < r.consumed && EndsWith(r.output, PROMPT))
            && (r.end.ReadFailed? ==> fault == Some(Fault(r.consumed, r.end.message)))
  {
    var r := Loop(input, elapsed, fault, k);
    LoopEndsAsSaid(input, elapsed, fault, k);
    PromptAtEndsWith(input, r.consumed);
  }

  /** Every iteration before the last one passed the deadline check and read its
      byte without an error. */
  lemma {:induction false} LoopChecksPassed(input: seq<byte>, elapsed: nat -> real, fault: Option<Fault>, k: nat)
    requires k <= |input|
    ensures forall j :: k <= j < Loop(input, elapsed, fault, k).consumed ==>
                          elapsed(j) <= TIMEOUT_SECONDS && !FailsAt(fault, j)
    decreases |input| - k
  {
    var r := Loop(input, elapsed, fault, k);
    var go := Continues(input, elapsed, fault, k);
    if go {
      LoopStep(input, elapsed, fault, k);
      LoopChecksPassed(input, elapsed, fault, k + 1);
    } else {
      LoopLast(input, elapsed, fault, k);
    }
    forall j | k <= j < r.consumed
      ensures elapsed(j) <= TIMEOUT_SECONDS && !FailsAt(fault, j)
    {
    }
  }

  /** No byte before the last one completed `\x04>`, and only a prompt can end the
      loop right after a byte that completes it. */
  lemma {:induction false} LoopPromptFirst(input: seq<byte>, elapsed: nat -> real, fault: Option<Fault>, k: nat)
    requires k <= |input|
    ensures var r := Loop(input, elapsed, fault, k);
            && (forall j :: k < j < r.consumed ==> !PromptAt(input, j))
            && (r.end != Prompt && k < r.consumed ==> !PromptAt(input, r.consumed))
    decreases |input| - k
  {
    var r := Loop(input, elapsed, fault, k);
    var go := Continues(input, elapsed, fault, k);
    if go {
      LoopStep(input, elapsed, fault, k);
      LoopPromptFirst(input, elapsed, fault, k + 1);
    } else {
      LoopLast(input, elapsed, fault, k);
    }
    forall j | k < j < r.consumed
      ensures !PromptAt(input, j)
    {
    }
  }

  /** Every iteration before the last one passed the deadline check, read its byte
      without an error and did not see the buffer end with `\x04>`; only a prompt can
      end the loop right after a byte that completes `\x04>`. */
  lemma LoopStopsAtFirstExit(input: seq<byte>, elapsed: nat -> real, fault: Option<Fault>, k: nat)
    requires k <= |input|
    ensures var r := Loop(input, elapsed, fault, k);
            && (forall j :: k <= j < r.consumed ==> elapsed(j) <= TIMEOUT_SECONDS && !FailsAt(fault, j))
            && (forall j :: k < j < r.consumed ==> !EndsWith(input[..j], PROMPT))
            && (r.end != Prompt && k < r.consumed ==> !EndsWith(input[..r.consumed], PROMPT))
  {
    var r := Loop(input, elapsed, fault, k);
    LoopChecksPassed(input, elapsed, fault, k);
    LoopPromptFirst(input, elapsed, fault, k);
    forall j | k < j <= r.consumed
      ensures PromptAt(input, j) <==> EndsWith(input[..j], PROMPT)
    {
      PromptAtEndsWith(input, j);
    }
  }

  function ReadLoop(input: seq<byte>, elapsed: nat -> real, fault: Option<Fault>): LoopResult {
    Loop(input, elapsed, fault, 0)
  }

  /** A reply whose only `\x04>` is at its very end, read before the deadline and
      without an error, is read whole and ends the loop at the prompt. */
  lemma {:induction false} LoopReadsWholeReply(input: seq<byte>, elapsed: nat -> real, fault: Option<Fault>, k: nat)
    requires k < |input| && PromptAt(input, |input|)
    requires forall j :: k < j < |input| ==> !PromptAt(input, j)
    requires forall j :: k <= j < |input| ==> elapsed(j) <= TIMEOUT_SECONDS && !FailsAt(fault, j)
    ensures Loop(input, elapsed, fault, k) == LoopResult(input, |input|, Prompt)
    decreases |input| - k
  {
    assert elapsed(k) <= TIMEOUT_SECONDS && !FailsAt(fault, k);
    if k + 1 == |input| {
      assert input[..k + 1] == input;
    } else {
      assert !PromptAt(input, k + 1);
      LoopStep(input, elapsed, fault, k);
      LoopReadsWholeReply(input, elapsed, fault, k + 1);
    }
  }

  /** `out.split('OK', 1)[1].rsplit('\x04', 1)[0].strip()` when `OK` occurs, and `out`
      itself otherwise; then every `\x04` removed and trailing whitespace trimmed. */
  function StripEnvelope(out: string): (r: string)
    ensures EOT !in r
    ensures r == [] || !IsSpace(r[|r| - 1])
    ensures !Contains(out, ACK) ==> r == RStrip(RemoveAll(out, EOT))
  {
    var t := if Contains(out, ACK) then Strip(BeforeLast(AfterFirst(out, ACK), EOT)) else out;
    RStripKeeps(RemoveAll(t, EOT), EOT);
    RStrip(RemoveAll(t, EOT))
  }

  lemma {:induction false} RemoveAllAppend(a: string, b: string, c: char)
    ensures RemoveAll(a + b, c) == RemoveAll(a, c) + RemoveAll(b, c)
  {
    if a != [] {
      var kept := if a[0] == c then [] else [a[0]];
      assert RemoveAll(a + b, c) == kept + RemoveAll(a[1..] + b, c) by {
        assert (a + b)[0] == a[0] && (a + b)[1..] == a[1..] + b;
      }
      RemoveAllAppend(a[1..], b, c);
      assert RemoveAll(a, c) == kept + RemoveAll(a[1..], c);
      Assoc3(kept, RemoveAll(a[1..], c), RemoveAll(b, c));
    } else {
      assert a + b == b;
    }
  }

  lemma DecodeTimeoutBytes()
    ensures Decode(TIMEOUT_BYTES) == TIMEOUT_TEXT
  {
    DecodeAsciiBytes(TIMEOUT_TEXT);
  }

  /** A text without `OK`, without Ctrl-D and without surrounding whitespace passes
      through the envelope stripping unchanged. */
  lemma StripEnvelopePlain(s: string)
    requires !Contains(s, ACK) && EOT !in s
    requires s == [] || (!IsSpace(s[0]) && !IsSpace(s[|s| - 1]))
    ensures StripEnvelope(s) == s
  {
    assert RemoveAll(s, EOT) == s;
    StripStripped(s);
  }

  /** The timeout sentinel passes through the envelope stripping unchanged. */
  lemma TimeoutSurvivesStripping()
    ensures StripEnvelope(TIMEOUT_TEXT) == TIMEOUT_TEXT
  {
    TimeoutTextHasNoK();
    MissingChar(TIMEOUT_TEXT, ACK, 1);
    TimeoutTextHasNoEot();
    TimeoutTextEnds();
    StripEnvelopePlain(TIMEOUT_TEXT);
  }

  lemma TimeoutTextHasNoK()
    ensures ACK[1] !in TIMEOUT_TEXT
  {
  }

  lemma TimeoutTextHasNoEot()
    ensures EOT !in TIMEOUT_TEXT
  {
  }

  lemma TimeoutTextEnds()
    ensures TIMEOUT_TEXT != [] && !IsSpace(TIMEOUT_TEXT[0]) && !IsSpace(TIMEOUT_TEXT[|TIMEOUT_TEXT| - 1])
  {
  }

  /** The first `OK` of `junk + "OK" + rest` is the one after `junk` when `junk`
      has no `O`. */
  lemma AfterFirstAck(junk: string, rest: string)
    requires 'O' !in junk
    ensures Contains(junk + ACK + rest, ACK)
    ensures AfterFirst(junk + ACK + rest, ACK) == rest
  {
    var s := junk + ACK + rest;
    assert s[|junk|..|junk| + 2] == ACK;
    ContainsAt(s, ACK, |junk|);
    var k := IndexOf(s, ACK).value;
    assert k == |junk| by {
      assert s[k] == s[k..k + 2][0] == 'O';
      assert forall i :: 0 <= i < |junk| ==> s[i] == junk[i];
    }
    assert s[|junk| + 2..] == rest;
  }

  lemma BeforeLastEot(body: string)
    requires EOT !in body
    ensures BeforeLast(body + [EOT, EOT, '>'], EOT) == body + [EOT]
  {
    var s := body + [EOT, EOT, '>'];
    var r := BeforeLast(s, EOT);
    assert s[|body|] == EOT && s[|body| + 1] == EOT && s[|body| + 2] == '>';
    assert |r| == |body| + 1;
    assert r == s[..|body| + 1];
  }

  lemma StripBeforeEot(body: string)
    requires EOT !in body
    ensures Strip(body + [EOT]) == LStrip(body) + [EOT]
    ensures RemoveAll(LStrip(body) + [EOT], EOT) == LStrip(body)
  {
    assert body + [EOT] == body + [EOT] + [];
    RStripStopsAt(body, EOT, []);
    LStripStopsAt(body, EOT, []);
    RemoveAllAppend(LStrip(body), [EOT], EOT);
    LStripKeeps(body, EOT);
    assert RemoveAll([EOT], EOT) == [];
  }

  /** A raw-REPL reply, possibly after leftover bytes `junk` of the raw-REPL banner:
      the program's output `body`, an empty error stream and the prompt. Stripping
      keeps exactly `body` without its surrounding whitespace. */
  lemma StripEnvelopeOfReply(junk: string, body: string)
    requires 'O' !in junk && EOT !in body
    ensures StripEnvelope(junk + ACK + body + [EOT, EOT, '>']) == RStrip(LStrip(body))
  {
    var rest := body + [EOT, EOT, '>'];
    var out := junk + ACK + rest;
    assert junk + ACK + body + [EOT, EOT, '>'] == out;
    AfterFirstAck(junk, rest);
    var t := Strip(BeforeLast(AfterFirst(out, ACK), EOT));
    assert t == LStrip(body) + [EOT] by {
      BeforeLastEot(body);
      StripBeforeEot(body);
    }
    assert RemoveAll(t, EOT) == LStrip(body) by {
      StripBeforeEot(body);
    }
  }

  /** Ctrl-D's byte occurs in the reply only as the two final delimiters, so the loop
      sees `\x04>` nowhere before the very end. */
  lemma PromptOnlyAtEnd(head: seq<byte>)
    requires EOT_BYTE !in head
    ensures PromptAt(head + [EOT_BYTE] + PROMPT, |head| + 3)
    ensures forall j :: 0 < j < |head| + 3 ==> !PromptAt(head + [EOT_BYTE] + PROMPT, j)
  {
    var reply := head + [EOT_BYTE] + PROMPT;
    forall j | 0 < j < |reply| ensures !PromptAt(reply, j) {
      if 2 <= j {
        if j - 2 < |head| {
          assert reply[j - 2] == head[j - 2];
        } else {
          assert reply[j - 1] == EOT_BYTE;
        }
      }
    }
  }

  /** A reply that ends in the delimiters and holds no other Ctrl-D, read before the
      deadline and without an error, is read whole and ends at the prompt. */
  lemma ReadLoopOfReply(head: seq<byte>, elapsed: nat -> real)
    requires EOT_BYTE !in head
    requires forall j :: 0 <= j < |head| + 3 ==> elapsed(j) <= TIMEOUT_SECONDS
    ensures var reply := head + [EOT_BYTE] + PROMPT;
            ReadLoop(reply, elapsed, None) == LoopResult(reply, |reply|, Prompt)
  {
    PromptOnlyAtEnd(head);
    LoopReadsWholeReply(head + [EOT_BYTE] + PROMPT, elapsed, None, 0);
  }

  /** Once the deadline has passed, the caller gets the timeout sentinel whatever the
      board sent. */
  lemma TimeoutReply(input: seq<byte>, elapsed: nat -> real, fault: Option<Fault>)
    requires ReadLoop(input, elapsed, fault).end == TimedOut
    ensures StripEnvelope(Decode(ReadLoop(input, elapsed, fault).output)) == TIMEOUT_TEXT
  {
    LoopEnds(input, elapsed, fault, 0);
    DecodeTimeoutBytes();
    TimeoutSurvivesStripping();
  }

  /** A board that answers nothing before the read timeout gives an empty tree. */
  lemma SilentReply(elapsed: nat -> real)
    requires elapsed(0) <= TIMEOUT_SECONDS
    ensures ReadLoop([], elapsed, None) == LoopResult([], 0, NoData)
    ensures StripEnvelope(Decode([])) == []
  {
  }
}

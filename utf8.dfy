/** UTF-8 as Python's `str.encode()` and `bytes.decode(errors='ignore')` do it.
    Decoding follows CPython: at each position the longest ill-formed prefix of a
    would-be sequence (its "maximal subpart") is dropped and decoding resumes right
    after it. */
module Utf8 {
  import opened Outcomes

  type byte = b: int | 0 <= b < 256

  predicate IsContinuation(b: byte) { 0x80 <= b < 0xC0 }

  /** Allowed range of the second byte after a three-byte lead byte. */
  predicate SecondOfThree(lead: byte, b: byte) {
    if lead == 0xE0 then 0xA0 <= b < 0xC0
    else if lead == 0xED then 0x80 <= b < 0xA0
    else IsContinuation(b)
  }

  /** Allowed range of the second byte after a four-byte lead byte. */
  predicate SecondOfFour(lead: byte, b: byte) {
    if lead == 0xF0 then 0x90 <= b < 0xC0
    else if lead == 0xF4 then 0x80 <= b < 0x90
    else IsContinuation(b)
  }

  function EncodeChar(c: char): (bs: seq<byte>)
    ensures 1 <= |bs| <= 4
    ensures |bs| == 1 <==> c as int < 0x80
    ensures |bs| > 1 ==> forall i :: 0 <= i < |bs| ==> bs[i] >= 0x80
  {
    var cp := c as int;
    if cp < 0x80 then [cp]
    else if cp < 0x800 then [0xC0 + cp / 64, 0x80 + cp % 64]
    else if cp < 0x10000 then [0xE0 + cp / 4096, 0x80 + (cp / 64) % 64, 0x80 + cp % 64]
    else [0xF0 + cp / 262144, 0x80 + (cp / 4096) % 64, 0x80 + (cp / 64) % 64, 0x80 + cp % 64]
  }

  /** `s.encode()`: never fails, since a Dafny `char` is a Unicode scalar value. */
  function Encode(s: string): (bs: seq<byte>)
    ensures |bs| >= |s|
  {
    if s == [] then [] else EncodeChar(s[0]) + Encode(s[1..])
  }

  /** One decoding step at the front of `bs`: how many bytes it consumes and the
      character they stand for, if they are well formed. */
  datatype Step = Step(len: nat, ch: Option<char>)

  function DecodeStep(bs: seq<byte>): (st: Step)
    requires |bs| > 0
    ensures 1 <= st.len <= |bs| && st.len <= 4
    ensures bs[0] < 0x80 ==> st == Step(1, Some(bs[0] as char))
  {
    var b0: int := bs[0];
    if b0 < 0x80 then Step(1, Some(b0 as char))
    else if 0xC2 <= b0 <= 0xDF then
      if |bs| >= 2 && IsContinuation(bs[1])
      then Step(2, Some(((b0 - 0xC0) * 64 + (bs[1] as int - 0x80)) as char))
      else Step(1, None)
    else if 0xE0 <= b0 <= 0xEF then
      if |bs| >= 2 && SecondOfThree(b0, bs[1]) then
        if |bs| >= 3 && IsContinuation(bs[2])
        then Step(3, Some(((b0 - 0xE0) * 4096 + (bs[1] as int - 0x80) * 64 + (bs[2] as int - 0x80)) as char))
        else Step(2, None)
      else Step(1, None)
    else if 0xF0 <= b0 <= 0xF4 then
      if |bs| >= 2 && SecondOfFour(b0, bs[1]) then
        if |bs| >= 3 && IsContinuation(bs[2]) then
          if |bs| >= 4 && IsContinuation(bs[3])
          then Step(4, Some(((b0 - 0xF0) * 262144 + (bs[1] as int - 0x80) * 4096
                             + (bs[2] as int - 0x80) * 64 + (bs[3] as int - 0x80)) as char))
          else Step(3, None)
        else Step(2, None)
      else Step(1, None)
    else Step(1, None)
  }

  /** `bs.decode(errors='ignore')`. */
  function Decode(bs: seq<byte>): (s: string)
    ensures |s| <= |bs|
    decreases |bs|
  {
    if bs == [] then []
    else
      var st := DecodeStep(bs);
      (if st.ch.Some? then [st.ch.value] else []) + Decode(bs[st.len..])
  }

  /** Bytes below 0x80 decode to one character each, with the same code. */
  lemma {:induction false} DecodeAscii(bs: seq<byte>)
    requires forall i :: 0 <= i < |bs| ==> bs[i] < 0x80
    ensures |Decode(bs)| == |bs|
    ensures forall i :: 0 <= i < |bs| ==> Decode(bs)[i] == bs[i] as char
    decreases |bs|
  {
    if bs != [] {
      DecodeAscii(bs[1..]);
      assert Decode(bs) == [bs[0] as char] + Decode(bs[1..]);
    }
  }

  /** A byte that cannot start any UTF-8 sequence (a stray continuation byte, an
      overlong lead 0xC0 or 0xC1, or a byte from 0xF5 up) is dropped on its own. */
  lemma DecodeDropsStrayByte(b: byte, rest: seq<byte>)
    requires 0x80 <= b < 0xC2 || b >= 0xF5
    ensures Decode([b] + rest) == Decode(rest)
  {
    assert ([b] + rest)[1..] == rest;
  }

  /** A lead byte whose next byte cannot continue its sequence, or that ends the
      input, is dropped on its own and decoding resumes at the next byte. */
  lemma DecodeDropsTruncatedLead(b: byte, rest: seq<byte>)
    requires || (0xC2 <= b <= 0xDF && (rest == [] || !IsContinuation(rest[0])))
             || (0xE0 <= b <= 0xEF && (rest == [] || !SecondOfThree(b, rest[0])))
             || (0xF0 <= b <= 0xF4 && (rest == [] || !SecondOfFour(b, rest[0])))
    ensures Decode([b] + rest) == Decode(rest)
  {
    var bs := [b] + rest;
    assert bs[0] == b && bs[1..] == rest;
    assert rest != [] ==> bs[1] == rest[0];
    assert DecodeStep(bs) == Step(1, None);
  }

  /** A three- or four-byte lead and a fitting second byte that are not followed
      by a continuation byte are dropped together. */
  lemma DecodeDropsTruncatedPair(b: byte, c: byte, rest: seq<byte>)
    requires (0xE0 <= b <= 0xEF && SecondOfThree(b, c)) || (0xF0 <= b <= 0xF4 && SecondOfFour(b, c))
    requires rest == [] || !IsContinuation(rest[0])
    ensures Decode([b, c] + rest) == Decode(rest)
  {
    var bs := [b, c] + rest;
    assert bs[0] == b && bs[1] == c && bs[2..] == rest;
    assert rest != [] ==> bs[2] == rest[0];
    assert DecodeStep(bs) == Step(2, None);
  }

  /** A four-byte lead with fitting second and third bytes that are not followed
      by a continuation byte are dropped together. */
  lemma DecodeDropsTruncatedTriple(b: byte, c: byte, d: byte, rest: seq<byte>)
    requires 0xF0 <= b <= 0xF4 && SecondOfFour(b, c) && IsContinuation(d)
    requires rest == [] || !IsContinuation(rest[0])
    ensures Decode([b, c, d] + rest) == Decode(rest)
  {
    var bs := [b, c, d] + rest;
    assert bs[0] == b && bs[1] == c && bs[2] == d && bs[3..] == rest;
    assert rest != [] ==> bs[3] == rest[0];
    assert DecodeStep(bs) == Step(3, None);
  }

  predicate IsAscii(s: string) {
    forall i :: 0 <= i < |s| ==> s[i] as int < 0x80
  }

  /** A Python bytes literal `b'...'` of ASCII text. */
  function AsciiBytes(s: string): (bs: seq<byte>)
    requires IsAscii(s)
    ensures |bs| == |s| && forall i :: 0 <= i < |s| ==> bs[i] < 0x80
  {
    seq(|s|, i requires 0 <= i < |s| => s[i] as int)
  }

  /** ASCII text encodes to one byte per character, with the same code. */
  lemma {:induction false} EncodeAscii(s: string)
    requires IsAscii(s)
    ensures Encode(s) == AsciiBytes(s)
  {
    if s != [] {
      EncodeAscii(s[1..]);
      assert AsciiBytes(s) == [s[0] as int] + AsciiBytes(s[1..]);
    }
  }

  lemma DecodeAsciiBytes(s: string)
    requires IsAscii(s)
    ensures Decode(AsciiBytes(s)) == s
  {
    DecodeAscii(AsciiBytes(s));
  }

  lemma DecodeStepOfEncoded(c: char, rest: seq<byte>)
    ensures DecodeStep(EncodeChar(c) + rest) == Step(|EncodeChar(c)|, Some(c))
  {
    var cp := c as int;
    if cp < 0x80 {
    } else if cp < 0x800 {
      DecodeTwo(c, rest);
    } else if cp < 0x10000 {
      DecodeThree(c, rest);
    } else {
      DecodeFour(c, rest);
    }
  }

  lemma DecodeTwo(c: char, rest: seq<byte>)
    requires 0x80 <= c as int < 0x800
    ensures DecodeStep(EncodeChar(c) + rest) == Step(2, Some(c))
  {
    var cp := c as int;
    var hi, lo := cp / 64, cp % 64;
    assert cp == hi * 64 + lo;
    var bs := EncodeChar(c) + rest;
    assert bs[0] == 0xC0 + hi && bs[1] == 0x80 + lo;
    assert (bs[0] as int - 0xC0) * 64 + (bs[1] as int - 0x80) == cp;
  }

  lemma DecodeThree(c: char, rest: seq<byte>)
    requires 0x800 <= c as int < 0x10000
    ensures DecodeStep(EncodeChar(c) + rest) == Step(3, Some(c))
  {
    var cp := c as int;
    var m, b2 := cp / 64, cp % 64;
    var b0, b1 := cp / 4096, (cp / 64) % 64;
    assert cp == m * 64 + b2;
    assert m == b0 * 64 + b1;
    var bs := EncodeChar(c) + rest;
    assert bs[0] == 0xE0 + b0 && bs[1] == 0x80 + b1 && bs[2] == 0x80 + b2;
    assert SecondOfThree(bs[0], bs[1]);
    assert (bs[0] as int - 0xE0) * 4096 + (bs[1] as int - 0x80) * 64 + (bs[2] as int - 0x80) == cp;
  }

  lemma DecodeFour(c: char, rest: seq<byte>)
    requires 0x10000 <= c as int
    ensures DecodeStep(EncodeChar(c) + rest) == Step(4, Some(c))
  {
    var cp := c as int;
    var m, b3 := cp / 64, cp % 64;
    var n, b2 := cp / 4096, (cp / 64) % 64;
    var b0, b1 := cp / 262144, (cp / 4096) % 64;
    assert cp == m * 64 + b3;
    assert m == n * 64 + b2;
    assert n == b0 * 64 + b1;
    var bs := EncodeChar(c) + rest;
    assert bs[0] == 0xF0 + b0 && bs[1] == 0x80 + b1 && bs[2] == 0x80 + b2 && bs[3] == 0x80 + b3;
    assert SecondOfFour(bs[0], bs[1]);
    assert (bs[0] as int - 0xF0) * 262144 + (bs[1] as int - 0x80) * 4096
           + (bs[2] as int - 0x80) * 64 + (bs[3] as int - 0x80) == cp;
  }

  lemma DecodeEncodedChar(c: char, tail: seq<byte>)
    ensures Decode(EncodeChar(c) + tail) == [c] + Decode(tail)
  {
    var e := EncodeChar(c);
    var bs := e + tail;
    DecodeStepOfEncoded(c, tail);
    assert bs[|e|..] == tail;
  }

  lemma EncodeCons(s: string, rest: seq<byte>)
    requires s != []
    ensures Encode(s) + rest == EncodeChar(s[0]) + (Encode(s[1..]) + rest)
  {
  }

  lemma ConsAssoc<T>(c: T, t: seq<T>, d: seq<T>)
    ensures [c] + (t + d) == ([c] + t) + d
  {
  }

  /** Decoding undoes encoding, whatever bytes follow. */
  lemma {:induction false} DecodeEncodeAppend(s: string, rest: seq<byte>)
    ensures Decode(Encode(s) + rest) == s + Decode(rest)
  {
    if s == [] {
      assert Encode(s) + rest == rest;
    } else {
      var c, t := s[0], s[1..];
      assert Decode(Encode(s) + rest) == [c] + Decode(Encode(t) + rest) by {
        EncodeCons(s, rest);
        DecodeEncodedChar(c, Encode(t) + rest);
      }
      assert Decode(Encode(t) + rest) == t + Decode(rest) by {
        DecodeEncodeAppend(t, rest);
      }
      assert s == [c] + t;
      ConsAssoc(c, t, Decode(rest));
    }
  }

  lemma DecodeEncode(s: string)
    ensures Decode(Encode(s)) == s
  {
    DecodeEncodeAppend(s, []);
    assert Encode(s) + [] == Encode(s);
  }

  lemma {:induction false} EncodeAppend(a: string, b: string)
    ensures Encode(a + b) == Encode(a) + Encode(b)
  {
    if a == [] {
      assert a + b == b;
    } else {
      var first := EncodeChar(a[0]);
      EncodeFront(a, b);
      EncodeAppend(a[1..], b);
      assert first + (Encode(a[1..]) + Encode(b)) == first + Encode(a[1..]) + Encode(b);
    }
  }

  lemma EncodeFront(a: string, b: string)
    requires a != []
    ensures Encode(a + b) == EncodeChar(a[0]) + Encode(a[1..] + b)
  {
    assert (a + b)[0] == a[0] && (a + b)[1..] == a[1..] + b;
  }

  /** A byte below 0x80 in an encoding is exactly the code of an ASCII character of
      the text: in particular, a control byte such as 0x04 appears in `Encode(s)`
      only where that control character appears in `s`. */
  lemma {:induction false} EncodeAsciiByte(s: string, b: byte)
    requires b < 0x80
    requires b in Encode(s)
    ensures b as char in s
  {
    if s != [] {
      if b in EncodeChar(s[0]) {
        assert b as char == s[0];
      } else {
        EncodeAsciiByte(s[1..], b);
      }
    }
  }
}

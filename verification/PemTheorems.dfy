/** What printing and reading PEM have to do with each other, and what the reader accepts. */
module PemTheorems {
  import opened Bytes
  import opened Base64
  import opened Console
  import opened Pem
  import Strnstr

  const START := Reader([], false, false)

  ghost predicate PlainText(s: seq<byte>) {
    forall i | 0 <= i < |s| :: Plain(s[i])
  }

  /** "-----BEGIN name-----" and "-----END name-----". */
  function HeaderLine(name: seq<byte>): seq<byte> {
    PEM_BEGIN + name + SUFFIX
  }

  function FooterLine(name: seq<byte>): seq<byte> {
    PEM_END + name + SUFFIX
  }

  /** Everything vPrintDer puts out for a header and footer line ended by CR LF. */
  function PemText(name: seq<byte>, der: seq<byte>): seq<byte> {
    HeaderLine(name) + CRLF + Body(der) + (FooterLine(name) + CRLF)
  }

  // ---------------------------------------------------------------- the printed text

  /** The octets are the characters of an ASCII string. */
  predicate Reads(b: seq<byte>, text: string) {
    |b| == |text| && forall i | 0 <= i < |b| :: b[i] == text[i] as int
  }

  /** The text of section 2 of RFC 7468 around the data lines. */
  lemma PemFrame(name: seq<byte>, der: seq<byte>)
    ensures exists begin, end, dashes, eol ::
              && Reads(begin, "-----BEGIN ") && Reads(end, "-----END ") && Reads(dashes, "-----") && Reads(eol, "\r\n")
              && PemText(name, der) == begin + name + dashes + eol + Body(der) + end + name + dashes + eol
  {
    var begin, end, dashes, eol := PEM_BEGIN, PEM_END, SUFFIX, CRLF;
    assert Reads(begin, "-----BEGIN ") && Reads(end, "-----END ") && Reads(dashes, "-----") && Reads(eol, "\r\n");
    assert PemText(name, der) == begin + name + dashes + eol + Body(der) + end + name + dashes + eol;
  }

  function FirstGroup(s: seq<byte>): seq<byte>
    requires |s| >= 3
  {
    var g := Split(s[0], s[1], s[2]);
    [Digit(g.a), Digit(g.b), Digit(g.c), Digit(g.d)]
  }

  lemma EncodeStep(s: seq<byte>)
    ensures s == [] ==> Encode(s) == []
    ensures |s| >= 3 ==> Encode(s) == FirstGroup(s) + Encode(s[3..])
  {
  }

  /** Encoding whole groups first and the rest after them is encoding everything. */
  lemma {:induction false} EncodeAppend(s: seq<byte>, t: seq<byte>)
    requires |s| % 3 == 0
    ensures Encode(s + t) == Encode(s) + Encode(t)
  {
    hide Encode;
    EncodeStep(s);
    EncodeStep(s + t);
    if s == [] {
      assert s + t == t;
    } else {
      EncodeAppend(s[3..], t);
      assert (s + t)[3..] == s[3..] + t;
    }
  }

  /** Where line k of n characters ends, line ends before it included. */
  function LineEnd(n: nat, k: nat): nat {
    2 * k + if 64 * (k + 1) <= n then 64 * (k + 1) else n
  }

  /** b is e with a carriage return and a line feed after every 64 characters and at its end. */
  predicate Wrapped(e: seq<byte>, b: seq<byte>) {
    && |b| == |e| + 2 * ((|e| + 63) / 64)
    && (forall i | 0 <= i < |e| :: b[i + 2 * (i / 64)] == e[i])
    && (forall k | 0 <= k < (|e| + 63) / 64 :: b[LineEnd(|e|, k)] == 0x0D && b[LineEnd(|e|, k) + 1] == 0x0A)
  }

  lemma LastLineWraps(line: seq<byte>)
    requires 0 < |line| <= 64
    ensures Wrapped(line, line + CRLF)
  {
  }

  lemma LineWraps(line: seq<byte>, e: seq<byte>, b: seq<byte>)
    requires |line| == 64 && Wrapped(e, b)
    ensures Wrapped(line + e, line + CRLF + b)
  {
    hide Wrapped;
    var e', b' := line + e, line + CRLF + b;
    assert |b'| == |e'| + 2 * ((|e'| + 63) / 64) by { WrappedAt(e, b, 0, 0); }
    forall i | 0 <= i < |e'| ensures i + 2 * (i / 64) < |b'| && b'[i + 2 * (i / 64)] == e'[i] {
      if i >= 64 {
        WrappedAt(e, b, i - 64, 0);
        assert i / 64 == (i - 64) / 64 + 1;
      }
    }
    forall k | 0 <= k < (|e'| + 63) / 64
      ensures var end := LineEnd(|e'|, k); end + 1 < |b'| && b'[end] == 0x0D && b'[end + 1] == 0x0A
    {
      if k > 0 {
        assert LineEnd(|e'|, k) == LineEnd(|e|, k - 1) + 66;
        WrappedAt(e, b, 0, k - 1);
      }
    }
    IsWrapped(e', b');
  }

  lemma WrappedAt(e: seq<byte>, b: seq<byte>, i: nat, k: nat)
    requires Wrapped(e, b)
    ensures |b| == |e| + 2 * ((|e| + 63) / 64)
    ensures i < |e| ==> i + 2 * (i / 64) < |b| && b[i + 2 * (i / 64)] == e[i]
    ensures k < (|e| + 63) / 64 ==> var end := LineEnd(|e|, k); end + 1 < |b| && b[end] == 0x0D && b[end + 1] == 0x0A
  {
  }

  lemma IsWrapped(e: seq<byte>, b: seq<byte>)
    requires |b| == |e| + 2 * ((|e| + 63) / 64)
    requires forall i | 0 <= i < |e| :: b[i + 2 * (i / 64)] == e[i]
    requires forall k | 0 <= k < (|e| + 63) / 64 :: b[LineEnd(|e|, k)] == 0x0D && b[LineEnd(|e|, k) + 1] == 0x0A
    ensures Wrapped(e, b)
  {
  }

  /**
   The data lines are the base 64 encoding of the whole value, broken into lines of 64
   characters.
   */
  lemma {:induction false} BodyWrapsEncoding(der: seq<byte>)
    ensures Wrapped(Encode(der), Body(der))
    decreases |der|
  {
    hide Encode, Wrapped;
    if der == [] {
      NothingWraps();
    } else {
      var n := ChunkLen(der);
      var line, rest := Encode(der[..n]), der[n..];
      EncodedLenAtMost(n, 16);
      EncodedLenAtLeast(n);
      DigitsArePlain(der[..n]);
      if rest == [] {
        assert der[..n] == der && Body(der) == line + CRLF + Body([]) == line + CRLF;
        LastLineWraps(line);
      } else {
        BodyWrapsEncoding(rest);
        EncodeAppend(der[..n], rest);
        assert der == der[..n] + rest;
        LineWraps(line, Encode(rest), Body(rest));
      }
    }
  }

  lemma NothingWraps()
    ensures Wrapped(Encode([]), Body([]))
  {
  }

  // ---------------------------------------------------------------- single lines

  lemma MarkedLine(prefix: seq<byte>, name: seq<byte>)
    requires PlainText(name)
    ensures Marked(prefix + name + SUFFIX, prefix)
  {
    var after := name + SUFFIX;
    assert (prefix + name + SUFFIX)[|prefix|..] == after;
    assert after[|name|..|name| + |SUFFIX|] == SUFFIX && after[..|name|] == name;
    assert Strnstr.OccursAt(after, SUFFIX, |after|, |name|);
  }

  lemma LinePlain(prefix: seq<byte>, name: seq<byte>)
    requires PlainText(name) && PlainText(prefix)
    ensures PlainText(prefix + name + SUFFIX)
  {
  }

  lemma DigitsArePlain(s: seq<byte>)
    ensures PlainText(Encode(s))
    ensures s != [] ==> Encode(s) != [] && Encode(s)[0] != 0x2D
  {
    forall i | 0 <= i < |Encode(s)| ensures Plain(Encode(s)[i]) { EncodeAlphabet(s, i); }
    if s != [] { EncodeAlphabet(s, 0); }
  }

  lemma SkipLf(st: Reader, input: seq<byte>)
    requires Live(st)
    ensures ReadPem(st, [LF] + input) == ReadPem(st, input)
  {
  }

  /** One printed line, up to its carriage return, then the line feed the editor ignores. */
  lemma ReadOne(st: Reader, text: seq<byte>, tail: seq<byte>)
    requires Live(st) && text != [] && PlainText(text)
    ensures |text| < LINE_LEN_MAX - 1 ==>
            ReadPem(st, text + CRLF + tail) == match StepLine(st, text)
                                               case Fail => Rejected
                                               case Halt => Halted
                                               case Continue(st') =>
                                                 if st'.ended then Accepted(st'.der) else ReadPem(st', tail)
    ensures |text| > 64 && (!st.begun || text[0] == 0x2D) ==> ReadPem(st, text + CRLF + tail) == Rejected
  {
    hide Encode, Decode, Marked;
    var input := text + CRLF + tail;
    assert input == text + [CR] + ([LF] + tail);
    EditPlain([], text, [LF] + tail);
    assert [] + text == text;
    if |text| < LINE_LEN_MAX - 1 {
      var step := StepLine(st, text);
      if step.Continue? && !step.reader.ended { SkipLf(step.reader, tail); }
    }
    if |text| > 64 && text[0] == 0x2D {
      var cut := EditLine([], input).text;
      assert |cut| > 64 && cut[0] == 0x2D;
      NotADigit(cut);
    }
  }

  lemma NotADigit(line: seq<byte>)
    requires line != [] && line[0] == 0x2D
    ensures Decode(line) == None
  {
  }

  // ---------------------------------------------------------------- the round trip

  /** What the reader makes of the data lines and footer of an n-octet value. */
  function BodyOutcome(der: seq<byte>, footerLen: nat): Outcome {
    if |der| == PEM_CERT_MAX_LEN then Halted
    else if footerLen <= 64 && |der| + footerLen + 1 < PEM_CERT_MAX_LEN then Accepted(der)
    else Rejected
  }

  lemma ReadFooter(st: Reader, name: seq<byte>, tail: seq<byte>)
    requires Live(st) && st.begun && PlainText(name)
    ensures ReadPem(st, FooterLine(name) + CRLF + tail) == BodyOutcome(st.der, |FooterLine(name)|)
  {
    hide Marked, Decode;
    var footer := FooterLine(name);
    LinePlain(PEM_END, name);
    MarkedLine(PEM_END, name);
    NotADigit(footer);
    ReadOne(st, footer, tail);
  }

  /** A data line, decoded unless there is no room for it as text. */
  lemma StepData(st: Reader, chunk: seq<byte>)
    requires Live(st) && st.begun && 0 < |chunk| <= DER_BYTES_PER_PEM_LINE
    ensures var room := |st.der| + |Encode(chunk)| + 1 < PEM_CERT_MAX_LEN;
            StepLine(st, Encode(chunk)) == if |st.der| + |chunk| == PEM_CERT_MAX_LEN then Halt
                                           else if room then Continue(st.(der := st.der + chunk)) else Fail
  {
    hide Encode, Decode;
    DigitsArePlain(chunk);
    DecodeOfEncode(chunk);
    EncodedLenAtMost(|chunk|, 16);
    EncodedLenAtLeast(|chunk|);
  }

  lemma {:induction false} EncodedLenAtLeast(n: nat)
    ensures 4 * n <= 3 * EncodedLen(n) <= 4 * n + 8
  {
    if n > 3 { EncodedLenAtLeast(n - 3); }
  }

  /**
   The arithmetic of the last lines: `have` octets are read, a line of `l` characters for n
   more is next, `more` octets come after it, then a footer of f characters.
   */
  lemma WhenThereIsNoRoom(have: nat, n: nat, more: nat, l: nat, f: nat)
    requires have % DER_BYTES_PER_PEM_LINE == 0 && have < PEM_CERT_MAX_LEN && 0 < n <= DER_BYTES_PER_PEM_LINE
    requires (n == DER_BYTES_PER_PEM_LINE || more == 0) && 3 * l <= 4 * n + 8 && n <= l <= 64 && f >= 14
    ensures have + n == PEM_CERT_MAX_LEN ==> more == 0
    ensures have + n != PEM_CERT_MAX_LEN && have + l + 1 >= PEM_CERT_MAX_LEN ==>
            have + n + more != PEM_CERT_MAX_LEN && have + n + more + f + 1 >= PEM_CERT_MAX_LEN
    ensures have + l + 1 < PEM_CERT_MAX_LEN && more > 0 ==> (have + n) % DER_BYTES_PER_PEM_LINE == 0
  {
  }

  lemma {:induction false} ReadBody(st: Reader, der: seq<byte>, name: seq<byte>, tail: seq<byte>)
    requires Live(st) && st.begun && PlainText(name)
    requires der != [] ==> |st.der| % DER_BYTES_PER_PEM_LINE == 0
    ensures ReadPem(st, Body(der) + (FooterLine(name) + CRLF) + tail)
            == BodyOutcome(st.der + der, |FooterLine(name)|)
    decreases |der|
  {
    hide Encode, Decode, Marked, ReadPem, StepLine;
    var footer := FooterLine(name) + CRLF;
    if der == [] {
      assert Body(der) + footer + tail == FooterLine(name) + CRLF + tail;
      assert st.der + der == st.der;
      ReadFooter(st, name, tail);
    } else {
      var n := ChunkLen(der);
      var chunk, rest := der[..n], der[n..];
      var line, after := Encode(chunk), Body(rest) + footer + tail;
      assert Body(der) + footer + tail == line + CRLF + after;
      assert st.der + der == st.der + chunk + rest;
      DigitsArePlain(chunk);
      EncodedLenAtMost(n, 16);
      EncodedLenAtLeast(n);
      WhenThereIsNoRoom(|st.der|, n, |rest|, |line|, |FooterLine(name)|);
      ReadOne(st, line, after);
      StepData(st, chunk);
      if |st.der| + |chunk| != PEM_CERT_MAX_LEN && |st.der| + |line| + 1 < PEM_CERT_MAX_LEN {
        ReadBody(st.(der := st.der + chunk), rest, name, tail);
      }
    }
  }

  /**
   Typing back what vPrintDer printed: the identical DER comes back exactly when header and
   footer are at most 64 characters long and the DER with its footer stays below 2047
   octets. A DER of exactly 2048 octets runs into the assertion; everything else is refused.
   */
  lemma PrintedPemReadsBack(name: seq<byte>, der: seq<byte>, tail: seq<byte>)
    requires PlainText(name)
    ensures ReadPem(START, PemText(name, der) + tail)
            == if |HeaderLine(name)| > 64 then Rejected
               else if |der| == PEM_CERT_MAX_LEN then Halted
               else if |der| + |FooterLine(name)| + 1 < PEM_CERT_MAX_LEN then Accepted(der)
               else Rejected
  {
    hide Body, Marked, Decode, ReadPem;
    var header, after := HeaderLine(name), Body(der) + (FooterLine(name) + CRLF) + tail;
    assert PemText(name, der) + tail == header + CRLF + after;
    LinePlain(PEM_BEGIN, name);
    MarkedLine(PEM_BEGIN, name);
    ReadOne(START, header, after);
    if |header| <= 64 {
      ReadBody(Reader([], true, false), der, name, tail);
      assert [] + der == der;
    }
  }

  /** vPrintDer at one terminal, xReadPemFromCliAsDer at another that is fed what the first printed. */
  method PrintAndTypeBack(name: seq<byte>, der: seq<byte>) returns (outcome: Outcome)
    requires PlainText(name)
    ensures outcome == Accepted(der) <==> |name| <= 48 && |der| + |name| < 2033
    ensures outcome.Accepted? ==> outcome.der == der
    ensures outcome == Halted <==> |name| <= 48 && |der| == 2048
    ensures outcome != Waiting
  {
    hide Body, ReadPem;
    var printer := new Terminal([]);
    PrintDer(printer, HeaderLine(name) + CRLF, FooterLine(name) + CRLF, der);
    assert printer.output == PemText(name, der) + [];
    var reader := new Terminal(printer.output);
    outcome := ReadPemFromCli(reader);
    PrintedPemReadsBack(name, der, []);
  }

  /** Hence every DER of at most 1984 octets survives, whatever the name, if the header fits a line. */
  lemma RoundTripUpTo1984(name: seq<byte>, der: seq<byte>, tail: seq<byte>)
    requires PlainText(name) && |HeaderLine(name)| <= 64 && |der| <= 1984
    ensures ReadPem(START, PemText(name, der) + tail) == Accepted(der)
  {
    PrintedPemReadsBack(name, der, tail);
  }

  // ---------------------------------------------------------------- what is accepted

  /** The first lines the editor hands over, each of which is one call of readline. */
  ghost predicate LinesOf(input: seq<byte>, lines: seq<seq<byte>>)
    decreases |lines|
  {
    lines == [] || match EditLine([], input)
                   case Starved => false
                   case Line(text, rest) => text == lines[0] && LinesOf(rest, lines[1..])
  }

  /**
   Data lines, then one footer line: each at most 64 characters, each with room left for
   its characters as text, and der what the data lines decode to after `before`.
   */
  ghost predicate DataAndFooter(before: seq<byte>, lines: seq<seq<byte>>, der: seq<byte>)
    decreases |lines|
  {
    && lines != [] && |lines[0]| <= 64 && |before| + |lines[0]| + 1 < PEM_CERT_MAX_LEN
    && if |lines| == 1 then Marked(lines[0], PEM_END) && der == before
       else Decode(lines[0]).Some? && DataAndFooter(before + Decode(lines[0]).value, lines[1..], der)
  }

  /** A header line, data lines and a footer line. */
  ghost predicate PemLines(lines: seq<seq<byte>>, der: seq<byte>) {
    lines != [] && |lines[0]| <= 64 && Marked(lines[0], PEM_BEGIN) && DataAndFooter([], lines[1..], der)
  }

  /** The octets of the data lines, one line after the other. */
  function Decoded(lines: seq<seq<byte>>): seq<byte> {
    if lines == [] then []
    else
      var d := Decode(lines[0]);
      (if d.Some? then d.value else []) + Decoded(lines[1..])
  }

  lemma {:induction false} AcceptedBody(st: Reader, input: seq<byte>, der: seq<byte>) returns (lines: seq<seq<byte>>)
    requires Live(st) && st.begun && ReadPem(st, input) == Accepted(der)
    ensures LinesOf(input, lines) && DataAndFooter(st.der, lines, der)
    decreases |input|
  {
    hide Decode, Marked;
    var Line(text, rest) := EditLine([], input);
    var st' := StepLine(st, text).reader;
    if st'.ended {
      lines := [text];
      assert lines[1..] == [];
    } else {
      var more := AcceptedBody(st', rest, der);
      lines := [text] + more;
      assert lines[1..] == more;
    }
  }

  lemma {:induction false} BodyAccepted(st: Reader, input: seq<byte>, lines: seq<seq<byte>>, der: seq<byte>)
    requires Live(st) && st.begun && LinesOf(input, lines) && DataAndFooter(st.der, lines, der)
    ensures ReadPem(st, input) == Accepted(der)
    decreases |lines|
  {
    hide Decode, Marked;
    var Line(text, rest) := EditLine([], input);
    if |lines| > 1 {
      var d := Decode(text).value;
      DecodableIsNoMark(text);
      BodyAccepted(st.(der := st.der + d), rest, lines[1..], der);
    }
  }

  lemma DecodableIsNoMark(line: seq<byte>)
    requires Decode(line).Some?
    ensures !(PEM_END <= line) && !Marked(line, PEM_END)
    ensures |Decode(line).value| <= |line|
  {
  }

  /**
   The reader accepts exactly the inputs whose lines are a header line, data lines and a
   footer line, and what it accepts is what those lines say.
   */
  lemma AcceptsExactlyPem(input: seq<byte>, der: seq<byte>)
    ensures ReadPem(START, input) == Accepted(der)
            <==> exists lines :: LinesOf(input, lines) && PemLines(lines, der)
  {
    hide Decode, Marked;
    if ReadPem(START, input) == Accepted(der) {
      var Line(text, rest) := EditLine([], input);
      var more := AcceptedBody(Reader([], true, false), rest, der);
      var lines := [text] + more;
      assert lines[1..] == more;
      assert LinesOf(input, lines) && PemLines(lines, der);
    }
    if lines :| LinesOf(input, lines) && PemLines(lines, der) {
      var Line(text, rest) := EditLine([], input);
      BodyAccepted(Reader([], true, false), rest, lines[1..], der);
    }
  }

  /** What an accepted text yields: the lines' decodings end to end, shorter than the buffer. */
  lemma {:induction false} AcceptedIsConcatenation(before: seq<byte>, lines: seq<seq<byte>>, der: seq<byte>)
    requires DataAndFooter(before, lines, der)
    ensures der == before + Decoded(lines[..|lines| - 1]) && |der| < PEM_CERT_MAX_LEN
    ensures forall i | 0 <= i < |lines| :: |lines[i]| <= 64
    decreases |lines|
  {
    hide Decode, Marked;
    if |lines| > 1 {
      var data := lines[..|lines| - 1];
      var d := Decode(lines[0]).value;
      AcceptedIsConcatenation(before + d, lines[1..], der);
      assert data[1..] == lines[1..][..|lines| - 2];
      assert Decoded(data) == d + Decoded(data[1..]);
      assert forall i | 0 < i < |lines| :: lines[i] == lines[1..][i - 1];
    }
  }

  // ---------------------------------------------------------------- where the assertion fires

  /**
   The assertion on the length fires on exactly one kind of line: seen after the header, it
   decodes to precisely the octets that are left. Such a line is always one already refused,
   for its own length or because its characters would not fit as text.
   */
  lemma AssertionFiresExactly(st: Reader, line: seq<byte>)
    requires Live(st)
    ensures StepLine(st, line) == Halt
            <==> st.begun && Decode(line).Some? && |Decode(line).value| == PEM_CERT_MAX_LEN - |st.der|
    ensures StepLine(st, line) == Halt ==> |line| > 64 || |st.der| + |line| + 1 >= PEM_CERT_MAX_LEN
  {
  }
}

/**
 cli_pki.c: printing a DER value as PEM (section 2 of RFC 7468), and reading PEM text typed
 at the console back into DER, one edited line at a time.
 */
module Pem {
  import opened Bytes
  import opened Base64
  import opened Console
  import Strnstr

  /** "-----BEGIN ", "-----END " and "-----". */
  const PEM_BEGIN: seq<byte> := [0x2D, 0x2D, 0x2D, 0x2D, 0x2D, 0x42, 0x45, 0x47, 0x49, 0x4E, 0x20]
  const PEM_END: seq<byte> := [0x2D, 0x2D, 0x2D, 0x2D, 0x2D, 0x45, 0x4E, 0x44, 0x20]
  const SUFFIX: seq<byte> := [0x2D, 0x2D, 0x2D, 0x2D, 0x2D]
  const CRLF: seq<byte> := [CR, LF]

  const PEM_CERT_MAX_LEN: nat := 2048
  const PEM_LINE_BUFF_LEN: nat := 64
  const DER_BYTES_PER_PEM_LINE: nat := 48

  // ---------------------------------------------------------------- printing

  function ChunkLen(der: seq<byte>): (n: nat)
    ensures n <= |der| && n <= DER_BYTES_PER_PEM_LINE && (n == 0 <==> der == [])
    ensures n == DER_BYTES_PER_PEM_LINE || n == |der|
  {
    if |der| < DER_BYTES_PER_PEM_LINE then |der| else DER_BYTES_PER_PEM_LINE
  }

  /** The data lines of a DER value. */
  function Body(der: seq<byte>): seq<byte>
    decreases |der|
  {
    if der == [] then []
    else
      var n := ChunkLen(der);
      Encode(der[..n]) + CRLF + Body(der[n..])
  }

  /** mbedtls_base64_encode: refuses a destination without room for the terminating NUL. */
  method Base64Encode(dst: array<byte>, dlen: nat, src: seq<byte>) returns (ret: int, written: nat)
    requires dlen <= dst.Length
    modifies dst
    ensures ret == 0 <==> |Encode(src)| + 1 <= dlen
    ensures ret == 0 ==> written == |Encode(src)| && dst[..written] == Encode(src)
  {
    var t := Encode(src);
    if |t| + 1 > dlen { return -0x2A, |t| + 1; }
    forall i | 0 <= i < |t| { dst[i] := t[i]; }
    dst[|t|] := 0;
    ret, written := 0, |t|;
  }

  /**
   One data line of vPrintDer. The 64 + 3 octets of the line buffer are just enough for
   the encoding, the line ending and a NUL, so the error branch is never taken.
   */
  method PrintLine(t: Terminal, lineBuffer: array<byte>, chunk: seq<byte>)
    requires lineBuffer.Length == PEM_LINE_BUFF_LEN + 3 && |chunk| <= DER_BYTES_PER_PEM_LINE
    modifies t`output, lineBuffer
    ensures t.output == old(t.output) + (Encode(chunk) + CRLF)
  {
    hide Encode;
    EncodedLenAtMost(|chunk|, 16);
    var result, written := Base64Encode(lineBuffer, PEM_LINE_BUFF_LEN + 1, chunk);
    assert result == 0;
    lineBuffer[written], lineBuffer[written + 1], lineBuffer[written + 2] := CR, LF, 0;
    written := written + 2;
    assert lineBuffer[..written] == Encode(chunk) + CRLF;
    t.Print(lineBuffer[..written]);
  }

  lemma BodyStep(before: seq<byte>, der: seq<byte>, n: nat)
    requires der != [] && n == ChunkLen(der)
    ensures before + Body(der) == before + (Encode(der[..n]) + CRLF) + Body(der[n..])
  {
  }

  /** vPrintDer. */
  method PrintDer(t: Terminal, header: seq<byte>, footer: seq<byte>, der: seq<byte>)
    modifies t`output
    ensures t.output == old(t.output) + header + Body(der) + footer
  {
    hide Encode, Body;
    var lineBuffer := new byte[PEM_LINE_BUFF_LEN + 3](_ => 0xFF);
    var idx := 0;
    t.Print(header);
    ghost var left := der;
    while idx < |der|
      invariant left == if idx <= |der| then der[idx..] else []
      invariant t.output + Body(left) == old(t.output) + header + Body(der)
    {
      var toConsume := DER_BYTES_PER_PEM_LINE;
      if |der| - idx < DER_BYTES_PER_PEM_LINE { toConsume := |der| - idx; }
      BodyStep(t.output, left, toConsume);
      assert left[..toConsume] == der[idx..idx + toConsume];
      PrintLine(t, lineBuffer, der[idx..idx + toConsume]);
      left := left[toConsume..];
      idx := idx + DER_BYTES_PER_PEM_LINE;
    }
    EmptyBody();
    t.Print(footer);
  }

  lemma EmptyBody()
    ensures forall s: seq<byte> :: s + Body([]) == s
  {
  }

  // ---------------------------------------------------------------- reading

  /** The line starts with `prefix`, and the closing dashes follow before any NUL. */
  ghost predicate Marked(line: seq<byte>, prefix: seq<byte>) {
    prefix <= line && Strnstr.Occurs(line[|prefix|..], SUFFIX, |line| - |prefix|)
  }

  datatype Reader = Reader(der: seq<byte>, begun: bool, ended: bool)

  /** What one line does: carry on, give up, or run into the assertion on the length. */
  datatype Step = Continue(reader: Reader) | Fail | Halt

  /** What reading comes to; Waiting is a reader whose input has not ended yet. */
  datatype Outcome = Accepted(der: seq<byte>) | Rejected | Halted | Waiting

  predicate Live(st: Reader) {
    |st.der| < PEM_CERT_MAX_LEN && !st.ended
  }

  /** A line already found at fault is still decoded once the header has been seen. */
  ghost function DecodeLine(st: Reader, line: seq<byte>, atFault: bool): Step
    requires Live(st)
  {
    match Decode(line)
    case None => Fail
    case Some(d) =>
      if |d| > PEM_CERT_MAX_LEN - |st.der| then Fail
      else if |st.der| + |d| == PEM_CERT_MAX_LEN then Halt
      else if atFault then Fail
      else Continue(st.(der := st.der + d))
  }

  ghost function StepLine(st: Reader, line: seq<byte>): (step: Step)
    requires Live(st)
    ensures step.Continue? ==> |step.reader.der| < PEM_CERT_MAX_LEN
  {
    var fits := |line| <= 64 && |st.der| + |line| + 1 < PEM_CERT_MAX_LEN;
    if !st.begun then
      if fits && Marked(line, PEM_BEGIN) then Continue(st.(begun := true)) else Fail
    else if fits && Marked(line, PEM_END) then Continue(st.(ended := true))
    else DecodeLine(st, line, !fits || PEM_END <= line)
  }

  ghost function ReadPem(st: Reader, input: seq<byte>): Outcome
    requires Live(st)
    decreases |input|
  {
    match EditLine([], input)
    case Starved => Waiting
    case Line(text, rest) =>
      match StepLine(st, text)
      case Fail => Rejected
      case Halt => Halted
      case Continue(st') => if st'.ended then Accepted(st'.der) else ReadPem(st', rest)
  }

  /** mbedtls_base64_decode: nothing is written when the input is malformed or does not fit. */
  method Base64Decode(dst: array<byte>, off: nat, dlen: nat, src: seq<byte>) returns (ret: int, written: nat)
    requires off + dlen <= dst.Length
    modifies dst
    ensures ret == 0 <==> Decode(src).Some? && |Decode(src).value| <= dlen
    ensures ret == 0 ==> written == |Decode(src).value| && dst[..off + written] == old(dst[..off]) + Decode(src).value
  {
    match Decode(src) {
      case None => return -0x2C, 0;
      case Some(d) =>
        if |d| > dlen { return -0x2A, |d|; }
        CopyInto(dst, off, d);
        assert dst[..off + |d|] == dst[..off] + dst[off..off + |d|];
        ret, written := 0, |d|;
    }
  }

  /** The header or footer test: a prefix, then the closing dashes, looked for in the line buffer. */
  method FindMark(buffer: array<byte>, cnt: nat, prefix: seq<byte>) returns (starts: bool, marked: bool)
    requires cnt < buffer.Length && buffer[cnt] == 0 && 0 !in prefix
    ensures starts <==> prefix <= buffer[..cnt]
    ensures marked <==> Marked(buffer[..cnt], prefix)
    ensures marked ==> starts
  {
    starts := |prefix| <= buffer.Length && buffer[..|prefix|] == prefix;
    marked := false;
    ghost var line := buffer[..cnt];
    if starts {
      PrefixBeforeNul(buffer[..], prefix, cnt);
      assert prefix == line[..|prefix|];
      var after, slen := buffer[|prefix|..], cnt - |prefix|;
      var r := Strnstr.Search(after, SUFFIX, slen);
      Strnstr.OccursInPrefix(after, line[|prefix|..], SUFFIX, slen);
      marked := r.Some?;
    }
  }

  /** xReadPemFromCliAsDer. */
  method ReadPemFromCli(t: Terminal) returns (outcome: Outcome)
    requires t.Valid()
    modifies t`input, t.buffer
    ensures outcome == ReadPem(Reader([], false, false), old(t.input))
  {
    hide Marked, Decode, Encode;
    var derBuffer := new byte[PEM_CERT_MAX_LEN](_ => 0);
    var derLen, begun, ended := 0, false, false;
    assert derBuffer[..0] == [];
    while derLen < PEM_CERT_MAX_LEN && !ended
      invariant 0 <= derLen < PEM_CERT_MAX_LEN
      invariant !ended ==> ReadPem(Reader(derBuffer[..derLen], begun, false), t.input)
                           == ReadPem(Reader([], false, false), old(t.input))
      invariant ended ==> Accepted(derBuffer[..derLen]) == ReadPem(Reader([], false, false), old(t.input))
      decreases |t.input|, !ended
    {
      ghost var st := Reader(derBuffer[..derLen], begun, false);
      var cnt, blocked := t.ReadLine();
      if blocked { return Waiting; }
      assert derBuffer[..derLen] == st.der;
      ghost var line := t.buffer[..cnt];
      var error := false;
      if cnt > 64 {
        error := true;
      } else if derLen + cnt + 1 >= PEM_CERT_MAX_LEN {
        error := true;
      } else if !begun {
        var starts, marked := FindMark(t.buffer, cnt, PEM_BEGIN);
        if marked {
          begun := true;
          continue;
        }
        error := true;
      } else {
        var starts, marked := FindMark(t.buffer, cnt, PEM_END);
        if starts {
          if marked { ended := true; } else { error := true; }
        }
      }
      assert t.buffer[..cnt] == line;
      ghost var step := StepLine(st, line);
      if begun && !ended {
        var ret, written := Base64Decode(derBuffer, derLen, PEM_CERT_MAX_LEN - derLen, t.buffer[..cnt]);
        if ret == 0 {
          derLen := derLen + written;
          if derLen >= PEM_CERT_MAX_LEN {
            assert step == Halt;
            return Halted;
          }
        } else {
          error := true;
        }
      }
      if error {
        assert step == Fail;
        return Rejected;
      }
      assert step == Continue(Reader(derBuffer[..derLen], begun, ended));
    }
    outcome := Accepted(derBuffer[..derLen]);
  }
}

/** cli_io_drv.c: the command line's console, with the line editor that feeds every reader. */
module Console {
  import opened Bytes

  const CNTLC: byte := 0x03
  const BACKSPACE: byte := 0x08
  const LF: byte := 0x0A
  const CR: byte := 0x0D
  const DEL: byte := 0x7F

  /** CLI_INPUT_LINE_LEN_MAX, the terminating NUL included. */
  const LINE_LEN_MAX: nat := 128

  /** A finished line and the characters not yet read, or a reader still waiting for more. */
  datatype Edited = Line(text: seq<byte>, rest: seq<byte>) | Starved

  /** What editing comes to when `line` is already typed and `input` is still to come. */
  function EditLine(line: seq<byte>, input: seq<byte>): (e: Edited)
    requires |line| < LINE_LEN_MAX - 1
    ensures e.Line? ==> 0 < |e.text| < LINE_LEN_MAX && |e.rest| < |input|
    decreases |input|
  {
    if input == [] then Starved
    else
      var c, rest := input[0], input[1..];
      if c == CNTLC then EditLine(line, rest)
      else if c == BACKSPACE || c == DEL then EditLine(if line == [] then line else line[..|line| - 1], rest)
      else if c == LF || c == CR then if line == [] then EditLine(line, rest) else Line(line, rest)
      else
        var line' := line + [c];
        if |line'| < LINE_LEN_MAX - 1 then EditLine(line', rest) else Line(line', rest)
  }

  /** A character the editor stores as it is, and that a C string can hold. */
  predicate Plain(c: byte) {
    c !in {0x00, 0x03, 0x08, 0x0A, 0x0D, 0x7F}
  }

  /** Plain characters followed by a carriage return arrive as one line, cut off at 127. */
  lemma {:induction false} EditPlain(line: seq<byte>, text: seq<byte>, rest: seq<byte>)
    requires |line| < LINE_LEN_MAX - 1 && (line != [] || text != [])
    requires forall i | 0 <= i < |text| :: Plain(text[i])
    ensures var e := EditLine(line, text + [CR] + rest);
            if |line| + |text| < LINE_LEN_MAX - 1 then e == Line(line + text, rest)
            else e.Line? && e.text == (line + text)[..LINE_LEN_MAX - 1]
    decreases |text|
  {
    var input := text + [CR] + rest;
    if text == [] {
      assert input[0] == CR && input[1..] == rest && line + text == line;
    } else {
      var line' := line + [text[0]];
      assert input[0] == text[0] && input[1..] == text[1..] + [CR] + rest;
      assert line' + text[1..] == line + text;
      if |line'| < LINE_LEN_MAX - 1 {
        EditPlain(line', text[1..], rest);
      } else {
        assert (line + text)[..LINE_LEN_MAX - 1] == line';
      }
    }
  }

  // ---------------------------------------------------------------- the editor, key by key

  /** Typing a character and erasing it, by either key, is typing nothing, as long as it does not fill the line. */
  lemma EraseUndoes(line: seq<byte>, c: byte, key: byte, rest: seq<byte>)
    requires |line| < 126 && c !in {0x03, 0x08, 0x0A, 0x0D, 0x7F} && key in {0x08, 0x7F}
    ensures EditLine(line, [c, key] + rest) == EditLine(line, rest)
  {
    var input := [c, key] + rest;
    assert input[0] == c && input[1..] == [key] + rest && input[1..][1..] == rest;
    assert (line + [c])[..|line|] == line;
    TypeOne(line, c, input[1..]);
    EraseOne(line + [c], key, rest);
  }

  /** Any other character is appended, a NUL too; the 127th ends the line. */
  lemma TypeOne(line: seq<byte>, c: byte, rest: seq<byte>)
    requires |line| < 127 && c !in {0x03, 0x08, 0x0A, 0x0D, 0x7F}
    ensures EditLine(line, [c] + rest) == if |line| < 126 then EditLine(line + [c], rest) else Line(line + [c], rest)
  {
    assert ([c] + rest)[1..] == rest;
  }

  /** Either erasing key takes the last character away, and on an empty line nothing. */
  lemma EraseOne(line: seq<byte>, key: byte, rest: seq<byte>)
    requires |line| < 127 && key in {0x08, 0x7F}
    ensures EditLine(line, [key] + rest) == EditLine(if line == [] then [] else line[..|line| - 1], rest)
  {
    assert ([key] + rest)[1..] == rest;
  }

  /** Control-C changes nothing. */
  lemma CancelIsIgnored(line: seq<byte>, rest: seq<byte>)
    requires |line| < 127
    ensures EditLine(line, [0x03] + rest) == EditLine(line, rest)
  {
    assert ([0x03 as byte] + rest)[1..] == rest;
  }

  /** Carriage return and line feed alike end a line that is not empty, and are ignored on an empty one. */
  lemma EitherEndEnds(line: seq<byte>, key: byte, rest: seq<byte>)
    requires |line| < 127 && key in {0x0A, 0x0D}
    ensures EditLine(line, [key] + rest) == if line == [] then EditLine([], rest) else Line(line, rest)
  {
    assert ([key] + rest)[1..] == rest;
  }

  /** Nothing is decided while no line has ended. */
  lemma NoInputNoLine(line: seq<byte>)
    requires |line| < 127
    ensures EditLine(line, []) == Starved
  {
  }

  /** Text that fills the line ends it by itself, and what is typed after it is left over whole. */
  lemma {:induction false} FullLineLeavesRest(line: seq<byte>, text: seq<byte>, rest: seq<byte>)
    requires |line| < 127 && |line| + |text| == 127
    requires forall i | 0 <= i < |text| :: text[i] !in {0x03, 0x08, 0x0A, 0x0D, 0x7F}
    ensures EditLine(line, text + rest) == Line(line + text, rest)
    decreases |text|
  {
    assert text + rest == [text[0]] + (text[1..] + rest);
    TypeOne(line, text[0], text[1..] + rest);
    assert line + text == line + [text[0]] + text[1..];
    if |text| > 1 {
      FullLineLeavesRest(line + [text[0]], text[1..], rest);
    } else {
      assert text[1..] + rest == rest;
    }
  }

  class Terminal {
    var input: seq<byte>
    var output: seq<byte>
    const buffer: array<byte>

    ghost predicate Valid()
      reads this
    {
      buffer.Length == LINE_LEN_MAX
    }

    constructor (typed: seq<byte>)
      ensures Valid() && fresh(buffer) && input == typed && output == []
    {
      input, output := typed, [];
      buffer := new byte[LINE_LEN_MAX](_ => 0);
    }

    method Print(s: seq<byte>)
      modifies this`output
      ensures output == old(output) + s
    {
      output := output + s;
    }

    /** io_readline. `blocked` stands for a getchar() that has not returned. */
    method ReadLine() returns (cnt: nat, blocked: bool)
      requires Valid()
      modifies this`input, buffer
      ensures match EditLine([], old(input))
              case Starved => blocked && input == []
              case Line(text, rest) =>
                !blocked && input == rest && cnt == |text| < buffer.Length && buffer[..cnt] == text && buffer[cnt] == 0
    {
      var eol := false;
      cnt, blocked := 0, false;
      assert buffer[..0] == [];
      while !eol && cnt < LINE_LEN_MAX - 1
        invariant cnt < LINE_LEN_MAX
        invariant !eol && cnt < LINE_LEN_MAX - 1 ==> EditLine(buffer[..cnt], input) == EditLine([], old(input))
        invariant eol || cnt == LINE_LEN_MAX - 1 ==> EditLine([], old(input)) == Line(buffer[..cnt], input)
        decreases |input|, !eol
      {
        if input == [] {
          blocked := true;
          return;
        }
        var c := input[0];
        input := input[1..];
        if c == CNTLC {
        } else if c == BACKSPACE || c == DEL {
          if cnt > 0 {
            assert buffer[..cnt][..cnt - 1] == buffer[..cnt - 1];
            cnt := cnt - 1;
          }
        } else if c == LF || c == CR {
          if cnt > 0 { eol := true; }
        } else {
          ghost var before := buffer[..cnt];
          buffer[cnt] := c;
          cnt := cnt + 1;
          assert buffer[..cnt] == before + [c];
        }
      }
      ghost var text := buffer[..cnt];
      buffer[cnt] := 0;
      assert buffer[..cnt] == text;
    }
  }
}

/**
 cli_main.c: the list of registered commands, and a command line cut into words: counted
 first, then tokenized in place, with a second way to reach a single parameter.
 */
module CliCommands {
  import opened Bytes

  const SPACE: byte := 0x20

  // ---------------------------------------------------------------- the list of commands

  class Node {
    const command: seq<byte>
    var next: Node?

    constructor (command: seq<byte>)
      ensures this.command == command && next == null
    {
      this.command := command;
      next := null;
    }
  }

  /** strncmp over the name's length, then a space or the line's end: the line's first word is the name. */
  predicate Matches(line: seq<byte>, name: seq<byte>) {
    name <= line && (|line| == |name| || line[|name|] == SPACE)
  }

  function NamesOf(nodes: seq<Node>): (names: seq<seq<byte>>)
    ensures |names| == |nodes| && forall i | 0 <= i < |nodes| :: names[i] == nodes[i].command
  {
    seq(|nodes|, i requires 0 <= i < |nodes| => nodes[i].command)
  }

  class Registry {
    const head: Node
    var last: Node
    ghost var nodes: seq<Node>

    ghost predicate Valid()
      reads this, nodes
    {
      && nodes != [] && nodes[0] == head && nodes[|nodes| - 1] == last && last.next == null
      && (forall i | 0 <= i < |nodes| - 1 :: nodes[i].next == nodes[i + 1])
      && (forall i, j | 0 <= i < j < |nodes| :: nodes[i] != nodes[j])
      && (forall i | 0 <= i < |nodes| :: 0 !in nodes[i].command)
    }

    /** The registered names, in order of registration. */
    ghost function Names(): (names: seq<seq<byte>>)
      reads this
      ensures |names| == |nodes|
    {
      NamesOf(nodes)
    }

    constructor (first: seq<byte>)
      requires 0 !in first
      ensures Valid() && fresh(nodes) && Names() == [first]
    {
      var node := new Node(first);
      head, last, nodes := node, node, [node];
    }

    /** FreeRTOS_CLIRegisterCommand: appended at the tail. */
    method RegisterCommand(command: seq<byte>)
      requires Valid() && 0 !in command
      modifies this, nodes
      ensures Valid() && fresh(set n | n in nodes && n !in old(nodes))
      ensures Names() == old(Names()) + [command]
    {
      var node := new Node(command);
      last.next := node;
      last := node;
      nodes := nodes + [node];
    }

    /** prvFindMatchingCommand: the earliest registered command the line names. */
    method FindMatchingCommand(buf: array<byte>, ghost line: seq<byte>) returns (found: Node?)
      requires Valid() && HoldsLine(buf, line)
      ensures found == null ==> forall i | 0 <= i < |Names()| :: !Matches(line, Names()[i])
      ensures found != null ==> exists i :: IsFirstMatch(line, Names(), i) && found == nodes[i]
    {
      hide Matches;
      ghost var i := 0;
      found := head;
      while found != null
        invariant 0 <= i <= |nodes|
        invariant if i < |nodes| then found == nodes[i] else found == null
        invariant forall j | 0 <= j < i :: !Matches(line, Names()[j])
        decreases |nodes| - i
      {
        var name := found.command;
        MatchInBuffer(buf[..], line, name);
        if |name| < buf.Length && buf[..|name|] == name && (buf[|name|] == SPACE || buf[|name|] == 0) {
          assert IsFirstMatch(line, Names(), i);
          return;
        }
        found := found.next;
        i := i + 1;
      }
    }
  }

  predicate IsFirstMatch(line: seq<byte>, names: seq<seq<byte>>, i: int) {
    0 <= i < |names| && Matches(line, names[i]) && forall j | 0 <= j < i :: !Matches(line, names[j])
  }

  /** Comparing in the buffer, where a name longer than the line meets the line's NUL first. */
  lemma MatchInBuffer(mem: seq<byte>, line: seq<byte>, name: seq<byte>)
    requires |line| < |mem| && mem[..|line|] == line && 0 !in line && mem[|line|] == 0 && 0 !in name
    ensures Matches(line, name)
            <==> |name| < |mem| && mem[..|name|] == name && (mem[|name|] == SPACE || mem[|name|] == 0)
  {
  }

  /** The lines a name matches: the name itself, and it and a space and anything. */
  lemma MatchedLines(line: seq<byte>, name: seq<byte>)
    ensures Matches(line, name) <==> line == name || name + [0x20] <= line
  {
    if name <= line && |line| > |name| { assert line[..|name| + 1] == name + [line[|name|]]; }
  }

  // ---------------------------------------------------------------- words

  /** A word of the line: positions b up to e. */
  datatype Word = Word(b: nat, e: nat)

  function SkipSpaces(s: seq<byte>, i: nat): (j: nat)
    requires i <= |s|
    ensures i <= j <= |s| && (forall k | i <= k < j :: s[k] == SPACE) && (j < |s| ==> s[j] != SPACE)
    decreases |s| - i
  {
    if i < |s| && s[i] == SPACE then SkipSpaces(s, i + 1) else i
  }

  function SkipWord(s: seq<byte>, i: nat): (j: nat)
    requires i <= |s|
    ensures i <= j <= |s| && (forall k | i <= k < j :: s[k] != SPACE) && (j < |s| ==> s[j] == SPACE)
    ensures i < |s| && s[i] != SPACE ==> i < j
    decreases |s| - i
  {
    if i < |s| && s[i] != SPACE then SkipWord(s, i + 1) else i
  }

  /** The words from position i on, a word that i lies in counting from there. */
  function Words(s: seq<byte>, i: nat): seq<Word>
    requires i <= |s|
    decreases |s| - i
  {
    var b := SkipSpaces(s, i);
    if b == |s| then [] else [Word(b, SkipWord(s, b))] + Words(s, SkipWord(s, b))
  }

  /** A maximal run of characters that are not spaces. */
  predicate IsWord(s: seq<byte>, w: Word) {
    && w.b < w.e <= |s| && (forall k | w.b <= k < w.e :: s[k] != 0x20)
    && (w.b > 0 ==> s[w.b - 1] == 0x20) && (w.e < |s| ==> s[w.e] == 0x20)
  }

  /** A word that starts at i or later starts no earlier than the first non-space there. */
  lemma WordStart(s: seq<byte>, i: nat, w: Word)
    requires i <= |s| && IsWord(s, w) && i <= w.b
    ensures SkipSpaces(s, i) <= w.b < |s|
  {
    assert s[w.b] != SPACE;
  }

  /** A word that starts inside the first run is that run. */
  lemma FirstWord(s: seq<byte>, b: nat, w: Word)
    requires b < |s| && s[b] != SPACE && IsWord(s, w) && b <= w.b < SkipWord(s, b)
    ensures w == Word(b, SkipWord(s, b))
  {
  }

  /** Words are the maximal runs, all of them, from left to right. */
  lemma {:induction false} WordsAreTheRuns(s: seq<byte>, i: nat)
    requires i <= |s| && (i == 0 || i == |s| || s[i] == SPACE || s[i - 1] == SPACE)
    ensures forall w :: w in Words(s, i) <==> IsWord(s, w) && i <= w.b
    ensures forall m, n | 0 <= m < n < |Words(s, i)| :: Words(s, i)[m].e < Words(s, i)[n].b
    decreases |s| - i
  {
    hide IsWord;
    var b := SkipSpaces(s, i);
    forall w | IsWord(s, w) && i <= w.b ensures b <= w.b < |s| { WordStart(s, i, w); }
    if b < |s| {
      var e := SkipWord(s, b);
      WordsAreTheRuns(s, e);
      var rest := Words(s, e);
      assert Words(s, i) == [Word(b, e)] + rest;
      assert IsWord(s, Word(b, e)) by { RunIsWord(s, i); }
      forall w | IsWord(s, w) && i <= w.b < e ensures w == Word(b, e) { FirstWord(s, b, w); }
      forall n | 0 <= n < |rest| ensures e < rest[n].b {
        assert rest[n] in rest;
        WordStart(s, e, rest[n]);
        if e < |s| { assert SkipSpaces(s, e) > e; }
      }
    }
  }

  lemma RunIsWord(s: seq<byte>, i: nat)
    requires i <= |s| && (i == 0 || i == |s| || s[i] == SPACE || s[i - 1] == SPACE) && SkipSpaces(s, i) < |s|
    ensures var b := SkipSpaces(s, i); IsWord(s, Word(b, SkipWord(s, b)))
  {
  }

  /** Starting at a space, or one character later, finds the same words. */
  lemma WordsAfterSpace(s: seq<byte>, i: nat)
    requires i < |s| && s[i] == SPACE
    ensures Words(s, i) == Words(s, i + 1)
  {
  }

  // ---------------------------------------------------------------- counting

  /** The last character of a word. */
  predicate EndsWord(s: seq<byte>, i: nat)
    requires i < |s|
  {
    s[i] != SPACE && (i + 1 == |s| || s[i + 1] == SPACE)
  }

  function CountEnds(s: seq<byte>, i: nat): nat
    requires i <= |s|
    decreases |s| - i
  {
    if i == |s| then 0 else (if EndsWord(s, i) then 1 else 0) + CountEnds(s, i + 1)
  }

  lemma {:induction false} EndsAreWords(s: seq<byte>, i: nat)
    requires i <= |s|
    ensures CountEnds(s, i) == |Words(s, i)|
    decreases |s| - i
  {
    if i < |s| {
      EndsAreWords(s, i + 1);
      if s[i] == SPACE {
        WordsAfterSpace(s, i);
      } else if i + 1 < |s| && s[i + 1] != SPACE {
        assert SkipSpaces(s, i) == i && SkipSpaces(s, i + 1) == i + 1;
        assert SkipWord(s, i) == SkipWord(s, i + 1);
      } else {
        assert SkipSpaces(s, i) == i && SkipWord(s, i) == i + 1;
      }
    }
  }

  /** A C string in a buffer: `line` with its NUL at position |line|. */
  ghost predicate HoldsLine(buf: array<byte>, line: seq<byte>)
    reads buf
  {
    |line| < buf.Length && buf[..|line|] == line && 0 !in line && buf[|line|] == 0
  }

  /** prvGetNumberOfArgs. */
  method GetNumberOfArgs(buf: array<byte>, ghost line: seq<byte>) returns (count: nat)
    requires HoldsLine(buf, line)
    ensures count == |Words(line, 0)|
  {
    var i := 0;
    count := 0;
    EndsAreWords(line, 0);
    while buf[i] != 0
      invariant 0 <= i <= |line| && count + CountEnds(line, i) == CountEnds(line, 0)
      decreases |line| - i
    {
      assert i < |line| && buf[i] == line[i];
      assert i + 1 < |line| ==> buf[i + 1] == line[i + 1] && line[i + 1] in line;
      if buf[i] != SPACE && (buf[i + 1] == SPACE || buf[i + 1] == 0) {
        count := count + 1;
      }
      i := i + 1;
    }
  }

  // ---------------------------------------------------------------- cutting the line up

  /** The buffer from position pos on is still the line, up to its NUL. */
  ghost predicate Uncut(buf: array<byte>, line: seq<byte>, pos: nat)
    reads buf
  {
    pos <= |line| < buf.Length && buf[|line|] == 0 && forall k | pos <= k < |line| :: buf[k] == line[k] != 0
  }

  /** Step over spaces. */
  method PastSpaces(buf: array<byte>, pos: nat, ghost line: seq<byte>) returns (i: nat)
    requires Uncut(buf, line, pos)
    ensures i == SkipSpaces(line, pos)
  {
    i := pos;
    while buf[i] != 0 && buf[i] == SPACE
      invariant pos <= i <= |line| && SkipSpaces(line, i) == SkipSpaces(line, pos)
      decreases |line| - i
    {
      i := i + 1;
    }
  }

  /** Step over the rest of a word. */
  method PastWord(buf: array<byte>, pos: nat, ghost line: seq<byte>) returns (i: nat)
    requires Uncut(buf, line, pos)
    ensures i == SkipWord(line, pos)
  {
    i := pos;
    while buf[i] != 0 && buf[i] != SPACE
      invariant pos <= i <= |line| && SkipWord(line, i) == SkipWord(line, pos)
      decreases |line| - i
    {
      i := i + 1;
    }
  }

  /**
   strtok_r with " ": the next word, its end overwritten with NUL, and where to go on. The
   scan starts at pos; nothing but that one position changes.
   */
  method NextToken(buf: array<byte>, pos: nat, ghost line: seq<byte>) returns (token: Option<nat>, next: nat)
    requires Uncut(buf, line, pos)
    modifies buf
    ensures Uncut(buf, line, next) && pos <= next
    ensures var ws := Words(line, pos);
            if ws == [] then token == None && Words(line, next) == [] && buf[..] == old(buf[..])
            else token == Some(ws[0].b) && Words(line, next) == ws[1..] && pos <= ws[0].b < ws[0].e <= next
                 && buf[..] == old(buf[..])[ws[0].e := 0]
  {
    hide Words, SkipSpaces, SkipWord;
    var b := PastSpaces(buf, pos, line);
    var e := PastWord(buf, b, line);
    WordsUnfold(line, pos);
    WordsUnfold(line, b);
    if buf[b] == 0 {
      return None, b;
    }
    token, next := Some(b), e;
    if buf[e] != 0 {
      WordsAfterSpace(line, e);
      next := e + 1;
    }
    buf[e] := 0;
    assert buf[..] == old(buf[..])[e := 0];
  }

  /** Word w as a C string in memory: its characters, then a NUL. */
  ghost predicate CutOut(mem: seq<byte>, line: seq<byte>, w: Word)
    requires w.b <= w.e <= |line| < |mem|
  {
    mem[w.e] == 0 && mem[w.b..w.e] == line[w.b..w.e]
  }

  /** The first n words are cut out, and all of them end at limit or before. */
  ghost predicate CutTo(mem: seq<byte>, line: seq<byte>, ws: seq<Word>, n: nat, limit: nat)
    requires |line| < |mem|
  {
    n <= |ws| && forall m | 0 <= m < n :: ws[m].b <= ws[m].e <= limit && ws[m].e <= |line| && CutOut(mem, line, ws[m])
  }

  lemma CutOneMore(mem: seq<byte>, line: seq<byte>, ws: seq<Word>, n: nat, from: nat, to: nat)
    requires |line| < |mem| && CutTo(mem, line, ws, n, from) && n < |ws|
    requires from <= ws[n].b < ws[n].e <= to && ws[n].e <= |line| && mem[ws[n].b..ws[n].e] == line[ws[n].b..ws[n].e]
    requires forall m | 0 <= m < n :: ws[m].e < ws[n].b
    ensures CutTo(mem[ws[n].e := 0], line, ws, n + 1, to)
  {
  }

  /**
   The tokenizing half of FreeRTOS_CLIProcessCommand: as many tokens as were counted, each
   one of the words, so that neither of its assertions on the tokenizer can fail.
   */
  method Tokenize(buf: array<byte>, ghost line: seq<byte>) returns (argv: array<nat>)
    requires HoldsLine(buf, line) && Words(line, 0) != []
    modifies buf
    ensures fresh(argv) && argv.Length == |Words(line, 0)|
    ensures |line| < buf.Length && CutTo(buf[..], line, Words(line, 0), argv.Length, |line|)
    ensures forall m | 0 <= m < argv.Length :: argv[m] == Words(line, 0)[m].b
  {
    hide Words, CountEnds, CutTo;
    ghost var ws := Words(line, 0);
    LineIsUncut(buf, line);
    WordsAreTheRuns(line, 0);
    var argc := GetNumberOfArgs(buf, line);
    argv := new nat[argc](_ => 0);
    var token, pos := None, 0;
    NoneCut(buf[..], line, ws);
    for i := 0 to argc
      invariant Uncut(buf, line, pos) && Words(line, pos) == ws[i..]
      invariant CutTo(buf[..], line, ws, i, pos)
      invariant forall m | 0 <= m < i :: argv[m] == ws[m].b
    {
      assert ws[i] in ws && ws[i..][0] == ws[i] && ws[i..][1..] == ws[i + 1..];
      ghost var was, from := buf[..], pos;
      assert IsWord(line, ws[i]);
      token, pos := NextToken(buf, pos, line);
      assert token != None;
      assert was[ws[i].b..ws[i].e] == line[ws[i].b..ws[i].e];
      CutOneMore(was, line, ws, i, from, pos);
      argv[i] := token.value;
    }
    ghost var limit := pos;
    token, pos := NextToken(buf, pos, line);
    assert token == None;
    CutWithin(buf[..], line, ws, argc, limit);
  }

  lemma NoneCut(mem: seq<byte>, line: seq<byte>, ws: seq<Word>)
    requires |line| < |mem|
    ensures CutTo(mem, line, ws, 0, 0)
  {
  }

  lemma CutWithin(mem: seq<byte>, line: seq<byte>, ws: seq<Word>, n: nat, limit: nat)
    requires |line| < |mem| && CutTo(mem, line, ws, n, limit) && limit <= |line|
    ensures CutTo(mem, line, ws, n, |line|)
  {
  }

  lemma LineIsUncut(buf: array<byte>, line: seq<byte>)
    requires HoldsLine(buf, line)
    ensures Uncut(buf, line, 0)
  {
  }

  // ---------------------------------------------------------------- a single parameter

  /** How many words come before parameter 1: the command's name, unless the line starts with a space. */
  function Lead(line: seq<byte>): nat {
    if line != [] && line[0] != SPACE then 1 else 0
  }

  /** Parameter n: the n-th word after the lead; there is none for n = 0 or past the last word. */
  function Parameter(line: seq<byte>, n: nat): Option<Word> {
    var ws, i := Words(line, 0), n + Lead(line) - 1;
    if n > 0 && i < |ws| then Some(ws[i]) else None
  }

  /** The scan stands at the start of the line, or at the parameter found last. */
  ghost predicate AtParameter(line: seq<byte>, pos: nat, found: nat) {
    if found == 0 then pos == 0
    else
      var ws, i := Words(line, 0), found + Lead(line) - 1;
      pos < |line| && line[pos] != SPACE && i < |ws| && Words(line, pos) == ws[i..]
  }

  /** Leaving the word here, if there is one, drops that word. */
  lemma LeaveWord(line: seq<byte>, pos: nat)
    requires pos <= |line|
    ensures var ws, e := Words(line, pos), SkipWord(line, pos);
            Words(line, e) == if e == pos then ws else if ws == [] then [] else ws[1..]
  {
    hide Words;
    WordsUnfold(line, pos);
    assert SkipWord(line, pos) > pos ==> SkipSpaces(line, pos) == pos;
  }

  /** The spaces here lead to the first of the words still to come. */
  lemma ReachWord(line: seq<byte>, e: nat, ws: seq<Word>, i: nat)
    requires e <= |line| && i <= |ws| && Words(line, e) == ws[i..]
    ensures var b := SkipSpaces(line, e);
            if b == |line| then |ws| == i
            else i < |ws| && ws[i] == Word(b, SkipWord(line, b)) && Words(line, b) == ws[i..]
  {
    hide Words, SkipSpaces, SkipWord;
    WordsUnfold(line, e);
    assert i < |ws| ==> ws[i..][0] == ws[i];
  }

  /** Past the word here and the spaces after it lies the next parameter, or the line's end. */
  lemma NextParameter(line: seq<byte>, pos: nat, found: nat)
    requires AtParameter(line, pos, found) && pos <= |line|
    ensures var ws, i := Words(line, 0), found + Lead(line);
            var b := SkipSpaces(line, SkipWord(line, pos));
            if b == |line| then |ws| <= i
            else i < |ws| && ws[i] == Word(b, SkipWord(line, b)) && AtParameter(line, b, found + 1)
  {
    hide Words, SkipSpaces, SkipWord;
    var ws, i, e := Words(line, 0), found + Lead(line), SkipWord(line, pos);
    LeaveWord(line, pos);
    if found == 0 {
      WordsUnfold(line, 0);
    }
    assert i <= |ws| && Words(line, e) == ws[i..];
    ReachWord(line, e, ws, i);
  }

  /** FreeRTOS_CLIGetParameter on an uncut line. */
  method GetParameter(buf: array<byte>, wanted: nat, ghost line: seq<byte>) returns (start: Option<nat>, length: nat)
    requires HoldsLine(buf, line)
    ensures match Parameter(line, wanted)
            case Some(w) => start == Some(w.b) && length == w.e - w.b
            case None => start == None && length == 0
  {
    hide Words, SkipSpaces, SkipWord, AtParameter;
    LineIsUncut(buf, line);
    start, length := None, 0;
    var pos, found := 0, 0;
    assert AtParameter(line, 0, 0) by { ScanStart(line); }
    while found < wanted
      invariant 0 <= found <= wanted && 0 <= pos <= |line| && AtParameter(line, pos, found)
      invariant found == wanted ==> wanted == 0
      decreases wanted - found
    {
      NextParameter(line, pos, found);
      pos := PastWord(buf, pos, line);
      pos := PastSpaces(buf, pos, line);
      if buf[pos] == 0 {
        break;
      }
      found := found + 1;
      if found == wanted {
        start := Some(pos);
        var end := PastWord(buf, pos, line);
        length := end - pos;
        return;
      }
    }
  }

  lemma ScanStart(line: seq<byte>)
    ensures AtParameter(line, 0, 0)
  {
  }

  lemma WordsUnfold(s: seq<byte>, i: nat)
    requires i <= |s|
    ensures var b := SkipSpaces(s, i);
            Words(s, i) == if b == |s| then [] else [Word(b, SkipWord(s, b))] + Words(s, SkipWord(s, b))
    ensures Words(s, i) == Words(s, SkipSpaces(s, i))
  {
  }

  // ---------------------------------------------------------------- a whole command

  /** What makes a name one word: at least one character, and no space. */
  predicate OneWord(name: seq<byte>) {
    name != [] && SPACE !in name
  }

  predicate HasWord(name: seq<byte>) {
    exists k :: 0 <= k < |name| && name[k] != SPACE
  }

  /** And it matches no other line: a one-word name is matched by the lines of which it is the first word. */
  lemma MatchedByFirstWord(line: seq<byte>, name: seq<byte>)
    requires OneWord(name)
    ensures Matches(line, name) <==> Words(line, 0) != [] && Words(line, 0)[0] == Word(0, |name|) && name <= line
  {
    if Matches(line, name) { NameIsFirstWord(line, name); }
  }

  /**
   Exactly the names with a character other than a space are safe to register: any other
   name is matched by a line without words, and its first token would have no place to go.
   */
  lemma SafeNames(name: seq<byte>)
    ensures HasWord(name) <==> forall line | Matches(line, name) :: Words(line, 0) != []
  {
    if HasWord(name) {
      var k :| 0 <= k < |name| && name[k] != SPACE;
      forall line | Matches(line, name) ensures Words(line, 0) != [] {
        assert line[k] == name[k];
      }
    } else {
      assert Matches(name, name) && Words(name, 0) == [];
    }
  }

  /** A name that is one word is the first word of every line it matches, so parameter n is word n. */
  lemma NameIsFirstWord(line: seq<byte>, name: seq<byte>)
    requires Matches(line, name) && OneWord(name)
    ensures Words(line, 0) != [] && Words(line, 0)[0] == Word(0, |name|) && Lead(line) == 1
    ensures forall n: nat :: Parameter(line, n) == if 0 < n < |Words(line, 0)| then Some(Words(line, 0)[n]) else None
  {
  }

  /** argv[n] is where parameter n starts, and the two end at the same n. */
  predicate ArgvAreParameters(argv: array<nat>, line: seq<byte>)
    reads argv
  {
    forall n | 0 < n <= argv.Length ::
      if n < argv.Length then Parameter(line, n).Some? && Parameter(line, n).value.b == argv[n] else Parameter(line, n) == None
  }

  /**
   FreeRTOS_CLIProcessCommand up to the call of the interpreter: the earliest registered
   command that the line names, and the line's words, each cut out in place.
   */
  method ProcessCommand(reg: Registry, buf: array<byte>, ghost line: seq<byte>) returns (command: Node?, argv: array?<nat>)
    requires reg.Valid() && HoldsLine(buf, line) && forall i | 0 <= i < |reg.Names()| :: HasWord(reg.Names()[i])
    modifies buf
    ensures command == null ==>
            (forall i | 0 <= i < |reg.Names()| :: !Matches(line, reg.Names()[i])) && buf[..] == old(buf[..]) && argv == null
    ensures command != null ==>
            && (exists i :: IsFirstMatch(line, reg.Names(), i) && command == reg.nodes[i])
            && argv != null && argv.Length == |Words(line, 0)| > 0
            && |line| < buf.Length && CutTo(buf[..], line, Words(line, 0), argv.Length, |line|)
            && (forall m | 0 <= m < argv.Length :: argv[m] == Words(line, 0)[m].b)
            && (OneWord(command.command) ==> Words(line, 0)[0] == Word(0, |command.command|) && ArgvAreParameters(argv, line))
  {
    hide Words, Matches, CutTo, OneWord, Parameter;
    argv := null;
    command := reg.FindMatchingCommand(buf, line);
    if command != null {
      ghost var i :| IsFirstMatch(line, reg.Names(), i) && command == reg.nodes[i];
      SafeNames(reg.Names()[i]);
      if OneWord(reg.Names()[i]) { NameIsFirstWord(line, reg.Names()[i]); }
      argv := Tokenize(buf, line);
    }
  }
}

/** The assembly-to-C/C++ line translator: the instruction table, the dialect
    detector, the per-line rendering and the conversion loop that wraps the
    rendered lines in a fixed header and footer. */
module Translator {
  import opened Strings

  datatype Option<T> = None | Some(value: T)

  /** The one condition that stops a conversion: the tuple unpack
      `dst, src = operands.split(', ')` of a two-operand instruction got
      `count` pieces instead of two (Python raises ValueError). */
  datatype Error = UnpackError(line: string, count: nat)

  datatype Result<T> = Ok(value: T) | Err(error: Error)

  /** The output language. */
  datatype Dialect = C | Cpp

  /** Mnemonic to C/C++ text. Lookups are exact and case-sensitive. */
  const InstructionMap: map<string, string> := map[
    "mov" := " = ",
    "add" := " += ",
    "sub" := " -= ",
    "push" := "// push ",
    "pop" := "// pop ",
    "call" := "// call ",
    "ret" := "return",
    "cmp" := "// compare ",
    "jnz" := "// jump if not zero "
  ]

  const WhileOpen := "    while (counter <= 10) {"
  const WhileClose := "    }"

  // ---------------------------------------------------------------------
  // Dialect detection

  /** The dialect is C++ exactly when some line of the input, comments
      included, contains `malloc`; since `malloc` holds no newline, that is
      the same as the whole text containing it. */
  method DetectLanguage(code: string) returns (d: Dialect)
    ensures d == Cpp <==> Contains(code, "malloc")
  {
    var lines := Split(code, "\n");
    ContainsSomePiece(code, '\n', "malloc");
    for i := 0 to |lines|
      invariant forall k :: 0 <= k < i ==> !Contains(lines[k], "malloc")
    {
      if Contains(lines[i], "malloc") {
        return Cpp;
      }
    }
    return C;
  }

  // ---------------------------------------------------------------------
  // One line

  /** `line.split(';')[0].strip()`: the text before the first `;`, without
      the whitespace around it. */
  function StripComment(line: string): (r: string)
    ensures r == Strip(line[..Find(line, ";")])
    ensures ';' !in r
  {
    var i := Find(line, ";");
    assert Split(line, ";")[0] == line[..i];
    var pre := line[..i];
    var r := Strip(pre);
    var a := LeadingRun(pre, IsSpace);
    forall k | 0 <= k < |r| ensures r[k] != ';' {
      assert r[k] == pre[a + k] == line[a + k];
      assert line[a + k..a + k + 1] == [line[a + k]];
      assert !OccursAt(line, ";", a + k);
    }
    Strip(Split(line, ";")[0])
  }

  /** A `jmp` that appears only after the first `;` of a line (inside its
      comment) is invisible after comment stripping. */
  lemma CommentedJmpIgnored(line: string)
    requires !Contains(line[..Find(line, ";")], "jmp")
    ensures !Contains(StripComment(line), "jmp")
  {
    var pre := line[..Find(line, ";")];
    var r := StripComment(line);
    var a := LeadingRun(pre, IsSpace);
    if Contains(r, "jmp") {
      assert r == pre[a..a + |r|];
      ContainsSlice(pre, a, a + |r|, "jmp");
    }
  }

  /** A line with no `;` and no whitespace at either end is its own
      stripped form. */
  lemma StripCommentPlain(line: string)
    requires ';' !in line
    requires line != [] ==> !IsSpace(line[0]) && !IsSpace(line[|line| - 1])
    ensures StripComment(line) == line
  {
    MissingChar(line, ";", 0);
    FindAbsent(line, ";");
    assert line[..|line|] == line;
    StripUnique(line, line, 0);
  }

  /** The instruction word and the operand text of a parsed line. */
  datatype Parsed = Parsed(instr: string, operands: string)

  /** `re.match(r"(\w+)\s+(.*)", line)`: the maximal leading run of word
      characters, which must be followed by at least one whitespace
      character; the operands are what follows the whitespace run, up to
      the first newline (where `.` stops). */
  function ParseLine(line: string): (p: Option<Parsed>)
    ensures p.Some? ==>
      var n := |p.value.instr|;
      && 0 < n < |line|
      && line[..n] == p.value.instr
      && AllWord(p.value.instr)
      && IsSpace(line[n])
    ensures p.Some? && '\n' !in line ==>
      var n := |p.value.instr|;
      var m := |line| - |p.value.operands|;
      && n < m <= |line|
      && line[m..] == p.value.operands
      && AllSpace(line[n..m])
      && (p.value.operands == [] || !IsSpace(p.value.operands[0]))
  {
    var w := LeadingRun(line, IsWordChar);
    var g := LeadingRun(line[w..], IsSpace);
    if w == 0 || g == 0 then None
    else
      var tail := line[w + g..];
      var ops := tail[..Find(tail, "\n")];
      ParsedShape(line, w, g, line[..w], ops);
      Some(Parsed(line[..w], ops))
  }

  /** The parts of a match, as the contract of `ParseLine` states them. */
  lemma ParsedShape(line: string, w: nat, g: nat, instr: string, ops: string)
    requires w == LeadingRun(line, IsWordChar) && 0 < w
    requires g == LeadingRun(line[w..], IsSpace) && 0 < g
    requires w + g <= |line| && instr == line[..w]
    requires ops == line[w + g..][..Find(line[w + g..], "\n")]
    ensures 0 < |instr| < |line| && line[..|instr|] == instr
    ensures AllWord(instr) && IsSpace(line[|instr|])
    ensures '\n' !in line ==>
      var n := |instr|;
      var m := |line| - |ops|;
      && n < m <= |line|
      && line[m..] == ops
      && AllSpace(line[n..m])
      && (ops == [] || !IsSpace(ops[0]))
  {
    ParsedHead(line, w, g);
    if '\n' !in line {
      ParsedTail(line, w, g, ops);
      assert |instr| == w && |line| - |ops| == w + g;
    }
  }

  /** On a line without a newline, the operands of a match are everything
      after the whitespace run, and that run is all whitespace. */
  lemma ParsedTail(line: string, w: nat, g: nat, ops: string)
    requires w <= |line| && g == LeadingRun(line[w..], IsSpace)
    requires w + g <= |line| && ops == line[w + g..][..Find(line[w + g..], "\n")]
    requires '\n' !in line
    ensures ops == line[w + g..]
    ensures AllSpace(line[w..w + g]) && (ops == [] || !IsSpace(ops[0]))
  {
    ParsedGap(line, w, g);
    FindMissing(line[w + g..], '\n');
  }

  /** The word of a match is followed by whitespace. */
  lemma ParsedHead(line: string, w: nat, g: nat)
    requires w == LeadingRun(line, IsWordChar) && 0 < w
    requires g == LeadingRun(line[w..], IsSpace) && 0 < g
    ensures w < |line| && AllWord(line[..w]) && IsSpace(line[w])
  {
    PrefixAll(line, IsWordChar, w);
    assert line[w..][0] == line[w];
  }

  /** The whitespace run after the word is all whitespace, and what follows
      it does not start with whitespace. */
  lemma ParsedGap(line: string, w: nat, g: nat)
    requires w <= |line|
    requires g == LeadingRun(line[w..], IsSpace)
    ensures w + g <= |line|
    ensures AllSpace(line[w..w + g])
    ensures line[w + g..] == [] || !IsSpace(line[w + g..][0])
  {
    var rest := line[w..];
    PrefixAll(rest, IsSpace, g);
    assert line[w..w + g] == rest[..g];
    assert w + g < |line| ==> line[w + g..][0] == rest[g];
  }

  /** The pattern matches exactly when some non-empty prefix of word
      characters is immediately followed by a whitespace character. */
  lemma ParseLineMatches(line: string)
    ensures ParseLine(line).Some? <==>
      exists n :: 0 < n < |line| && AllWord(line[..n]) && IsSpace(line[n])
  {
    if exists n :: 0 < n < |line| && AllWord(line[..n]) && IsSpace(line[n]) {
      var n :| 0 < n < |line| && AllWord(line[..n]) && IsSpace(line[n]);
      WordThenSpace(line, n);
    }
    if ParseLine(line).Some? {
      var n := |ParseLine(line).value.instr|;
      assert 0 < n < |line| && AllWord(line[..n]) && IsSpace(line[n]);
    }
  }

  /** A non-empty run of word characters followed by whitespace is a match. */
  lemma WordThenSpace(line: string, n: nat)
    requires 0 < n < |line| && AllWord(line[..n]) && IsSpace(line[n])
    ensures ParseLine(line).Some?
  {
    var w := LeadingRun(line, IsWordChar);
    assert forall k :: 0 <= k < n ==> IsWordChar(line[..n][k]);
    SpaceIsNotWord(line[n]);
    assert w == n;
    assert line[w..][0] == line[n];
  }

  /** Parsing a word, a whitespace run and operands that neither start with
      whitespace nor hold a newline gives back the word and the operands. */
  lemma ParseLineOf(instr: string, gap: string, ops: string)
    requires instr != [] && AllWord(instr)
    requires gap != [] && AllSpace(gap)
    requires Operands(ops)
    ensures ParseLine(instr + gap + ops) == Some(Parsed(instr, ops))
  {
    var line := instr + gap + ops;
    var w := |instr|;
    SpaceIsNotWord(gap[0]);
    assert (gap + ops)[0] == gap[0];
    assert line == instr + (gap + ops);
    LeadingRunConcat(instr, gap + ops, IsWordChar);
    assert line[w..] == gap + ops;
    LeadingRunConcat(gap, ops, IsSpace);
    assert line[w + |gap|..] == ops;
    FindMissing(ops, '\n');
    assert line[..w] == instr;
  }

  /** The C/C++ line for a two-operand instruction, or the unpack error. */
  function Assignment(line: string, c: string, ops: string): Result<string> {
    var parts := Split(ops, ", ");
    if |parts| != 2 then Err(UnpackError(line, |parts|))
    else Ok("    " + parts[0] + " " + c + " " + parts[1] + ";")
  }

  /** The one output line for a non-empty stripped line. */
  function RenderLine(line: string): Result<string> {
    match ParseLine(line)
    case None => Ok("    // Cannot parse: " + line)
    case Some(Parsed(instr, ops)) => RenderParsed(line, instr, ops)
  }

  /** The output line for a parsed line with word `instr` and operands `ops`. */
  function RenderParsed(line: string, instr: string, ops: string): Result<string> {
    if instr !in InstructionMap then Ok("    // Unknown instruction: " + line)
    else
      var c := InstructionMap[instr];
      if instr == "mov" then Assignment(line, c, ops)
      else if instr in {"add", "sub"} then Assignment(line, c, ops)
      else if instr == "cmp" then Ok("    if (" + ops + ") // compare")
      else if instr == "jnz" then Ok("    if (" + ops + " != 0) // jump if not zero")
      else if instr == "push" || instr == "call" then Ok("    " + c + " " + ops + ";")
      else Ok("    " + c + ops + ";")
  }

  /** `mov`, `add` and `sub` with two operands separated by one `", "`
      become `dst c src;` for the instruction's table text `c`. */
  lemma RenderAssignment(instr: string, dst: string, src: string)
    requires instr in {"mov", "add", "sub"}
    requires !Contains(dst, ", ") && !Contains(src, ", ")
    requires Operands(dst) && '\n' !in src
    ensures RenderLine(instr + " " + dst + ", " + src)
         == Ok("    " + dst + (" " + InstructionMap[instr] + " ") + src + ";")
  {
    var ops := dst + ", " + src;
    var line := instr + " " + ops;
    assert line == instr + " " + dst + ", " + src;
    OperandPairParses(instr, dst, src);
    AssignmentPair(line, InstructionMap[instr], dst, src);
  }

  /** The operands `dst, src` of a two-operand line are parsed back out. */
  lemma OperandPairParses(instr: string, dst: string, src: string)
    requires instr in {"mov", "add", "sub"}
    requires Operands(dst) && '\n' !in src
    ensures ParseLine(instr + " " + (dst + ", " + src)) == Some(Parsed(instr, dst + ", " + src))
  {
    var ops := dst + ", " + src;
    assert ops[0] == if dst == [] then ',' else dst[0];
    assert '\n' !in ops;
    ParseLineOf(instr, " ", ops);
  }

  /** Two operands joined by one `", "` unpack into `dst c src;`. */
  lemma AssignmentPair(line: string, c: string, dst: string, src: string)
    requires !Contains(dst, ", ") && !Contains(src, ", ")
    ensures Assignment(line, c, dst + ", " + src) == Ok("    " + dst + (" " + c + " ") + src + ";")
  {
    SplitPair(dst, src, ", ");
    assert "    " + dst + " " + c + " " + src + ";" == "    " + dst + (" " + c + " ") + src + ";";
  }

  /** The table's own spaces give two spaces on each side of `=`. */
  lemma RenderMov(dst: string, src: string)
    requires !Contains(dst, ", ") && !Contains(src, ", ")
    requires Operands(dst) && '\n' !in src
    ensures RenderLine("mov " + dst + ", " + src) == Ok("    " + dst + "  =  " + src + ";")
  {
    RenderAssignment("mov", dst, src);
    assert " " + InstructionMap["mov"] + " " == "  =  ";
    assert "mov" + " " == "mov ";
  }

  /** `add` gives `+=` with two spaces on each side. */
  lemma RenderAdd(dst: string, src: string)
    requires !Contains(dst, ", ") && !Contains(src, ", ")
    requires Operands(dst) && '\n' !in src
    ensures RenderLine("add " + dst + ", " + src) == Ok("    " + dst + "  +=  " + src + ";")
  {
    RenderAssignment("add", dst, src);
    assert " " + InstructionMap["add"] + " " == "  +=  ";
    assert "add" + " " == "add ";
  }

  /** `sub` gives `-=` with two spaces on each side. */
  lemma RenderSub(dst: string, src: string)
    requires !Contains(dst, ", ") && !Contains(src, ", ")
    requires Operands(dst) && '\n' !in src
    ensures RenderLine("sub " + dst + ", " + src) == Ok("    " + dst + "  -=  " + src + ";")
  {
    RenderAssignment("sub", dst, src);
    assert " " + InstructionMap["sub"] + " " == "  -=  ";
    assert "sub" + " " == "sub ";
  }

  /** A two-operand instruction whose operands hold no `", "` stops the
      conversion: the unpack finds one piece. */
  lemma RenderMissingOperand(instr: string, ops: string)
    requires instr in {"mov", "add", "sub"}
    requires !Contains(ops, ", ")
    requires Operands(ops)
    ensures RenderLine(instr + " " + ops) == Err(UnpackError(instr + " " + ops, 1))
  {
    ParseLineOf(instr, " ", ops);
    SplitNone(ops, ", ");
  }

  /** Text that can follow the whitespace after the instruction word: it
      does not start with whitespace and holds no newline. */
  predicate Operands(ops: string) {
    (ops == [] || !IsSpace(ops[0])) && '\n' !in ops
  }

  /** A word, a whitespace run and operands render as the parsed word and
      operands dictate. */
  lemma RenderOfParsed(instr: string, gap: string, ops: string)
    requires instr != [] && AllWord(instr)
    requires gap != [] && AllSpace(gap)
    requires Operands(ops)
    ensures RenderLine(instr + gap + ops) == RenderParsed(instr + gap + ops, instr, ops)
  {
    ParseLineOf(instr, gap, ops);
  }

  /** `cmp` becomes an `if` header with a trailing comment and no semicolon. */
  lemma RenderCmp(ops: string)
    requires Operands(ops)
    ensures RenderLine("cmp " + ops) == Ok("    if (" + ops + ") // compare")
  {
    RenderOfParsed("cmp", " ", ops);
    assert "cmp" + " " == "cmp ";
  }

  /** `jnz` becomes an `if` header comparing the operands with zero. */
  lemma RenderJnz(ops: string)
    requires Operands(ops)
    ensures RenderLine("jnz " + ops) == Ok("    if (" + ops + " != 0) // jump if not zero")
  {
    RenderOfParsed("jnz", " ", ops);
    assert "jnz" + " " == "jnz ";
  }

  /** `push` and `call` put one space between their table text and the
      operands. */
  lemma ParsedSpaced(line: string, instr: string, ops: string)
    requires instr == "push" || instr == "call"
    ensures RenderParsed(line, instr, ops) == Ok("    " + InstructionMap[instr] + " " + ops + ";")
  {
  }

  /** `pop` and `ret` glue the operands to their table text. */
  lemma ParsedGlued(line: string, instr: string, ops: string)
    requires instr == "pop" || instr == "ret"
    ensures RenderParsed(line, instr, ops) == Ok("    " + InstructionMap[instr] + ops + ";")
  {
  }

  /** `push` becomes a comment; the table text ends in a space and the
      rendering adds another before the operands. */
  lemma RenderPush(ops: string)
    requires Operands(ops)
    ensures RenderLine("push " + ops) == Ok("    // push  " + ops + ";")
  {
    RenderOfParsed("push", " ", ops);
    assert "push" + " " == "push ";
    ParsedSpaced("push " + ops, "push", ops);
    assert "    " + InstructionMap["push"] + " " == "    // push  ";
  }

  /** `call` becomes a comment, with two spaces before the operands. */
  lemma RenderCall(ops: string)
    requires Operands(ops)
    ensures RenderLine("call " + ops) == Ok("    // call  " + ops + ";")
  {
    RenderOfParsed("call", " ", ops);
    assert "call" + " " == "call ";
    ParsedSpaced("call " + ops, "call", ops);
    assert "    " + InstructionMap["call"] + " " == "    // call  ";
  }

  /** `pop` glues the operands to the table text, after its one space. */
  lemma RenderPop(ops: string)
    requires Operands(ops)
    ensures RenderLine("pop " + ops) == Ok("    // pop " + ops + ";")
  {
    RenderOfParsed("pop", " ", ops);
    assert "pop" + " " == "pop ";
    ParsedGlued("pop " + ops, "pop", ops);
    assert "    " + InstructionMap["pop"] == "    // pop ";
  }

  /** `ret` glues the operands to `return` with no space: `ret 0` gives
      `return0;`. */
  lemma RenderRet(ops: string)
    requires Operands(ops)
    ensures RenderLine("ret " + ops) == Ok("    return" + ops + ";")
  {
    RenderOfParsed("ret", " ", ops);
    assert "ret" + " " == "ret ";
    ParsedGlued("ret " + ops, "ret", ops);
    assert "    " + InstructionMap["ret"] == "    return";
  }

  /** Every key of the table starts with a lower-case letter. */
  lemma KeysLowerCase()
    ensures forall k :: k in InstructionMap ==> |k| > 0 && 'a' <= k[0] <= 'z'
  {
  }

  /** A word that starts with an upper-case letter is not a key. */
  lemma UpperCaseNotKey(w: string)
    requires w != [] && 'A' <= w[0] <= 'Z'
    ensures w !in InstructionMap
  {
    KeysLowerCase();
  }

  /** A word that is not a key of the table, spelled with any case
      difference included, is reported as unknown. */
  lemma RenderUnknown(instr: string, gap: string, ops: string)
    requires instr != [] && AllWord(instr) && instr !in InstructionMap
    requires gap != [] && AllSpace(gap)
    requires Operands(ops)
    ensures var line := instr + gap + ops;
      RenderLine(line) == Ok("    // Unknown instruction: " + line)
  {
    ParseLineOf(instr, gap, ops);
  }

  /** A line that is not a word followed by whitespace cannot be parsed. */
  lemma RenderUnparsable(line: string)
    requires forall n :: 0 < n < |line| && AllWord(line[..n]) ==> !IsSpace(line[n])
    ensures RenderLine(line) == Ok("    // Cannot parse: " + line)
  {
    ParseLineMatches(line);
  }

  /** A bare `ret` has no whitespace after the word, so it is not parsed
      and renders as a comment rather than a `return`. */
  lemma BareRetCannotParse()
    ensures RenderLine("ret") == Ok("    // Cannot parse: ret")
  {
    RenderUnparsable("ret");
    assert "    // Cannot parse: " + "ret" == "    // Cannot parse: ret";
  }

  /** The table is case-sensitive: `MOV` is an unknown instruction. */
  lemma UpperCaseMovUnknown()
    ensures RenderLine("MOV a, b") == Ok("    // Unknown instruction: " + "MOV a, b")
  {
    UpperCaseNotKey("MOV");
    RenderUnknown("MOV", " ", "a, b");
    assert "MOV" + " " + "a, b" == "MOV a, b";
  }

  /** `jmp` is not a key of the table, so a jump line is reported as an
      unknown instruction. */
  lemma UnknownJmp()
    ensures RenderLine("jmp loop") == Ok("    // Unknown instruction: " + "jmp loop")
  {
    assert "jmp" !in InstructionMap;
    assert AllWord("jmp");
    RenderUnknown("jmp", " ", "loop");
    assert "jmp" + " " + "loop" == "jmp loop";
  }

  /** A dot is not a word character, so `a.b c` cannot be parsed. */
  lemma DottedWordCannotParse()
    ensures RenderLine("a.b c") == Ok("    // Cannot parse: a.b c")
  {
    var line := "a.b c";
    forall n | 0 < n < |line| ensures AllWord(line[..n]) ==> !IsSpace(line[n]) {
      if n > 1 {
        assert line[..n][1] == '.';
      }
    }
    RenderUnparsable(line);
    assert "    // Cannot parse: " + line == "    // Cannot parse: a.b c";
  }

  /** Rendering fails only on `mov`, `add` and `sub`, and only when the
      operands do not split on `", "` into exactly two pieces; the error
      carries the stripped line and the piece count. */
  lemma RenderErrorOnlyUnpack(line: string)
    ensures RenderLine(line).Err? <==>
      && ParseLine(line).Some?
      && ParseLine(line).value.instr in {"mov", "add", "sub"}
      && |Split(ParseLine(line).value.operands, ", ")| != 2
    ensures RenderLine(line).Err? ==>
      RenderLine(line).error == UnpackError(line, |Split(ParseLine(line).value.operands, ", ")|)
  {
    match ParseLine(line)
    case None =>
    case Some(Parsed(instr, ops)) => RenderParsedError(line, instr, ops);
  }

  /** The parsed-line rendering fails exactly on a two-operand mnemonic
      whose operands do not split into two pieces. */
  lemma RenderParsedError(line: string, instr: string, ops: string)
    ensures RenderParsed(line, instr, ops).Err? <==>
      instr in {"mov", "add", "sub"} && |Split(ops, ", ")| != 2
    ensures RenderParsed(line, instr, ops).Err? ==>
      RenderParsed(line, instr, ops).error == UnpackError(line, |Split(ops, ", ")|)
  {
    if instr in {"mov", "add", "sub"} {
      assert instr in InstructionMap;
    }
  }

  /** A rendered line is never one of the two loop-wrapper lines. */
  lemma RenderedNotWrapper(line: string)
    requires RenderLine(line).Ok?
    ensures RenderLine(line).value != WhileOpen && RenderLine(line).value != WhileClose
  {
    match ParseLine(line)
    case None =>
      var o := RenderLine(line).value;
      assert o[4] == '/';
    case Some(Parsed(instr, ops)) =>
      ParsedNotWrapper(line, instr, ops);
  }

  /** The rendering of a parsed line is neither wrapper line: comments have
      `/` where the wrapper has `w` or nothing, and code lines end in `;`,
      `e` or `o`. */
  lemma ParsedNotWrapper(line: string, instr: string, ops: string)
    requires RenderParsed(line, instr, ops).Ok?
    ensures RenderParsed(line, instr, ops).value != WhileOpen
    ensures RenderParsed(line, instr, ops).value != WhileClose
  {
    var o := RenderParsed(line, instr, ops).value;
    if instr !in InstructionMap {
      assert o[4] == '/';
    } else {
      assert o[|o| - 1] in {';', 'e', 'o'};
    }
  }


  // ---------------------------------------------------------------------
  // The conversion

  /** The lines before the translated body. */
  function Header(d: Dialect): seq<string> {
    (if d == Cpp then ["#include <iostream>", "#include <cstdlib>", "using namespace std;"]
     else ["#include <stdio.h>", "#include <stdlib.h>"])
    + ["\nint main() {", "    int* head = nullptr; // var_8", "    int counter = 1; // var_C"]
  }

  /** The lines after the translated body: a fixed cleanup loop, the return
      and the closing brace. */
  function Footer(): seq<string> {
    [ "    // Free allocated memory",
      "    int* currentNode = head;",
      "    while (currentNode != nullptr) {",
      "        int* nextNode = reinterpret_cast<int*>(*(currentNode + 1));",
      "        free(currentNode);",
      "        currentNode = nextNode;",
      "    }",
      "    return 0;",
      "}\n" ]
  }

  /** What the conversion loop has built so far: the body lines and whether
      the loop wrapper has been opened. */
  datatype Acc = Acc(body: seq<string>, started: bool)

  /** One iteration of the conversion loop on a raw input line: a line
      that is empty once its comment is stripped changes nothing. */
  function Step(acc: Acc, raw: string): Result<Acc> {
    var line := StripComment(raw);
    if line == [] then Ok(acc) else Advance(acc, line)
  }

  /** One iteration on a non-empty stripped line: append its rendering,
      then open the loop wrapper if the line contains `jmp` and the
      wrapper is not open yet. */
  function Advance(acc: Acc, line: string): Result<Acc> {
    match RenderLine(line)
    case Err(e) => Err(e)
    case Ok(out) =>
      var opens := Contains(line, "jmp") && !acc.started;
      Ok(Acc(acc.body + [out] + (if opens then [WhileOpen] else []), acc.started || opens))
  }

  /** The conversion loop run over `lines`, from the first to the last. */
  function Scan(lines: seq<string>): Result<Acc>
    decreases |lines|
  {
    if lines == [] then Ok(Acc([], false))
    else
      match Scan(lines[..|lines| - 1])
      case Err(e) => Err(e)
      case Ok(acc) => Step(acc, lines[|lines| - 1])
  }

  /** The translated body: the loop's lines, then the wrapper's closing
      brace if it was opened. */
  function Body(lines: seq<string>): Result<seq<string>> {
    match Scan(lines)
    case Err(e) => Err(e)
    case Ok(acc) => Ok(acc.body + (if acc.started then [WhileClose] else []))
  }

  /** The whole output text: header, body and footer joined by newlines. */
  function Translate(code: string, d: Dialect): Result<string> {
    match Body(Split(code, "\n"))
    case Err(e) => Err(e)
    case Ok(body) => Ok(Join(Header(d) + body + Footer(), "\n"))
  }

  /** The output text is the dialect's header lines joined by newlines, a
      newline, the body lines each followed by a newline, and the footer
      lines joined by newlines. */
  lemma TranslateLayout(code: string, d: Dialect, body: seq<string>)
    requires Body(Split(code, "\n")) == Ok(body)
    ensures Translate(code, d) == Ok(Join(Header(d), "\n") + "\n"
      + ((if body == [] then [] else Join(body, "\n") + "\n") + Join(Footer(), "\n")))
  {
    JoinAround(Header(d), body, Footer(), "\n");
  }

  /** Scanning one more line is one more `Step`. */
  lemma ScanAppend(lines: seq<string>, i: nat)
    requires i < |lines|
    ensures Scan(lines[..i + 1]) ==
      match Scan(lines[..i])
      case Err(e) => Err(e)
      case Ok(acc) => Step(acc, lines[i])
  {
    assert lines[..i + 1][..i] == lines[..i];
  }

  /** Once a prefix of the lines fails, the whole scan fails the same way. */
  lemma {:induction false} ScanErrorPersists(lines: seq<string>, n: nat)
    requires n <= |lines|
    requires Scan(lines[..n]).Err?
    ensures Scan(lines) == Scan(lines[..n])
    decreases |lines| - n
  {
    if n < |lines| {
      assert lines[..n + 1][..n] == lines[..n];
      ScanErrorPersists(lines, n + 1);
    } else {
      assert lines[..n] == lines;
    }
  }

  /** The text facts behind the first line of the worked example. */
  lemma ExampleMovText(line: string, dst: string, src: string, out: string)
    requires line == "mov a, b" && dst == "a" && src == "b" && out == "    a  =  b;"
    ensures "mov " + dst + ", " + src == line
    ensures "    " + dst + "  =  " + src + ";" == out
    ensures !Contains(dst, ", ") && !Contains(src, ", ") && Operands(dst) && '\n' !in src
    ensures ';' !in line && !Contains(line, "jmp")
    ensures !IsSpace(line[0]) && !IsSpace(line[|line| - 1])
  {
    MissingChar(dst, ", ", 0);
    MissingChar(src, ", ", 0);
    MissingChar(line, "jmp", 0);
  }

  /** The text facts behind the second line of the worked example. */
  lemma ExampleAddText(line: string, dst: string, src: string, out: string)
    requires line == "add a, 1" && dst == "a" && src == "1" && out == "    a  +=  1;"
    ensures "add " + dst + ", " + src == line
    ensures "    " + dst + "  +=  " + src + ";" == out
    ensures !Contains(dst, ", ") && !Contains(src, ", ") && Operands(dst) && '\n' !in src
    ensures ';' !in line && !Contains(line, "jmp")
    ensures !IsSpace(line[0]) && !IsSpace(line[|line| - 1])
  {
    MissingChar(dst, ", ", 0);
    MissingChar(src, ", ", 0);
    MissingChar(line, "jmp", 0);
  }

  /** The text facts behind the third line of the worked example. */
  lemma ExampleJmpText(line: string, instr: string, gap: string, ops: string, out: string)
    requires line == "jmp loop" && instr == "jmp" && gap == " " && ops == "loop"
    requires out == "    // Unknown instruction: jmp loop"
    ensures instr + gap + ops == line && "    // Unknown instruction: " + line == out
    ensures instr != [] && AllWord(instr) && instr !in InstructionMap
    ensures gap != [] && AllSpace(gap) && Operands(ops)
    ensures ';' !in line && Contains(line, "jmp")
    ensures !IsSpace(line[0]) && !IsSpace(line[|line| - 1])
  {
    assert OccursAt(line, "jmp", 0);
  }

  /** Worked example, first line: `mov a, b` renders as an assignment. */
  lemma ExampleMovLine(line: string, out: string)
    requires line == "mov a, b" && out == "    a  =  b;"
    ensures StripComment(line) == line && RenderLine(line) == Ok(out) && !Contains(line, "jmp")
  {
    var dst, src := "a", "b";
    ExampleMovText(line, dst, src, out);
    StripCommentPlain(line);
    RenderMov(dst, src);
  }

  /** Worked example, second line: `add a, 1` renders as an assignment. */
  lemma ExampleAddLine(line: string, out: string)
    requires line == "add a, 1" && out == "    a  +=  1;"
    ensures StripComment(line) == line && RenderLine(line) == Ok(out) && !Contains(line, "jmp")
  {
    var dst, src := "a", "1";
    ExampleAddText(line, dst, src, out);
    StripCommentPlain(line);
    RenderAdd(dst, src);
  }

  /** Worked example, third line: `jmp loop` is an unknown instruction that
      contains `jmp`. */
  lemma ExampleJmpLine(line: string, out: string)
    requires line == "jmp loop" && out == "    // Unknown instruction: jmp loop"
    ensures StripComment(line) == line && RenderLine(line) == Ok(out) && Contains(line, "jmp")
  {
    var instr, gap, ops := "jmp", " ", "loop";
    ExampleJmpText(line, instr, gap, ops, out);
    StripCommentPlain(line);
    RenderUnknown(instr, gap, ops);
  }

  /** The loop of convert_assembly_to_c_cpp over the input lines: strip
      each line's comment, skip it when nothing is left, append its one
      rendered line, open the loop wrapper after the first line containing
      `jmp`, and close the wrapper at the end if it was opened. Computes
      exactly `Body`. */
  method ConvertLines(lines: seq<string>) returns (res: Result<seq<string>>)
    ensures res == Body(lines)
  {
    var body: seq<string> := [];
    var started := false;
    assert lines[..0] == [];
    for i := 0 to |lines|
      invariant Scan(lines[..i]) == Ok(Acc(body, started))
    {
      ScanAppend(lines, i);
      var line := StripComment(lines[i]);
      if line == [] {
        continue;
      }
      var rendered := RenderLine(line);
      if rendered.Err? {
        ScanErrorPersists(lines, i + 1);
        return Err(rendered.error);
      }
      var opens := Contains(line, "jmp") && !started;
      assert Scan(lines[..i + 1]) ==
        Ok(Acc(body + [rendered.value] + (if opens then [WhileOpen] else []), started || opens));
      body := body + [rendered.value];
      if opens {
        body := body + [WhileOpen];
        started := true;
      } else {
        assert body + [] == body;
      }
    }
    assert lines[..|lines|] == lines;
    if started {
      body := body + [WhileClose];
    } else {
      assert body + [] == body;
    }
    return Ok(body);
  }

  /** convert_assembly_to_c_cpp: the dialect's header, the translated body
      and the fixed footer, joined by newlines; an error when a two-operand
      instruction does not split into two operands. */
  method ConvertAssembly(code: string, d: Dialect) returns (r: Result<string>)
    ensures r == Translate(code, d)
  {
    var out: seq<string> := [];
    if d == Cpp {
      out := out + ["#include <iostream>"];
      out := out + ["#include <cstdlib>"];
      out := out + ["using namespace std;"];
    } else {
      out := out + ["#include <stdio.h>"];
      out := out + ["#include <stdlib.h>"];
    }
    out := out + ["\nint main() {"];
    out := out + ["    int* head = nullptr; // var_8"];
    out := out + ["    int counter = 1; // var_C"];
    assert out == Header(d);
    var body := ConvertLines(Split(code, "\n"));
    if body.Err? {
      return Err(body.error);
    }
    out := out + body.value + Footer();
    r := Ok(Join(out, "\n"));
  }
}

# SecPyConv2 translator in Dafny

SecPyConv2 turns assembly-like text into C or C++ source text. This project models the
translator's core: the instruction table, the dialect detector and the
line-by-line converter. The converter strips comments, parses each line as a word and its
operands, renders one C/C++ line per instruction, and wraps the body in a
`while (counter <= 10)` loop after the first `jmp`. Header and footer lines surround the
body, and everything is joined with newlines.

Modules:

- `Strings` (`strings.dfy`): the Python string operations the translator relies on.
  - These are `in`, `split`, `join`, `strip` and the `\s`/`\w` character classes.
  - Each is written as a function over `seq<char>`.
  - Lemmas cover round trips (`join(split(s)) == s`), first-occurrence search and unique stripping.
- `Translator` (`translator.dfy`): the instruction table, `detect_language`, per-line comment stripping, parsing and rendering, and the conversion.
  - `DetectLanguage` and `ConvertLines` are imperative methods with loops. `ConvertAssembly` is a method without a loop: it puts the header lines around what `ConvertLines` returns.
  - `DetectLanguage` is proved to answer C++ exactly when the text contains `malloc` (`Contains`).
  - `ConvertLines` is proved equal to `Body`, a left fold (`Scan`/`Step`) over the input lines.
  - `ConvertAssembly` is proved equal to `Translate`, which joins the header, `Body` and the footer with newlines.
- `Properties` (`properties.dfy`): an independent, declarative reference definition of the translated body.
  - It takes the non-empty stripped lines (`Kept`), renders every one of them (`RenderAll`, which stops at the first failure) and places the wrapper after the first line containing `jmp` (`FirstJmp`, `Wrap`).
  - It proves that the loop computes exactly this (`BodyIsReference`).
  - Body length, wrapper placement, error behaviour and blank-line invariance are read off the reference definition.

A failed `dst, src = operands.split(', ')` (Python raises `ValueError`) is modelled as the
result `Err(UnpackError(line, count))`. It aborts the whole conversion, as the uncaught
exception does.

A bare `ret` does not match `(\w+)\s+(.*)` once the line is stripped, because no whitespace
follows the word. It therefore renders as `    // Cannot parse: ret`, not as a `return` line
(`Translator.BareRetCannotParse`).

## Model

| member | source | states |
|---|---|---|
| Strings.Find | SecPyConv2.py:43 | the index of the first occurrence of the pattern, or the length when there is none; no earlier index holds an occurrence |
| Strings.FindContains | SecPyConv2.py:21 | `pat in s` holds exactly when the search finds an occurrence |
| Strings.Split | SecPyConv2.py:41 | `str.split(sep)` always yields at least one piece |
| Strings.SplitPiecesFree | SecPyConv2.py:41 | no piece of a split contains the separator |
| Strings.SplitNone | SecPyConv2.py:54 | a string without the separator splits into itself alone |
| Strings.SplitPair | SecPyConv2.py:54 | `a + ", " + b` splits into exactly `[a, b]` when neither part contains `", "` |
| Strings.JoinSplit | SecPyConv2.py:41 | joining the pieces of a split with the same separator gives the original text back |
| Strings.SplitJoin | SecPyConv2.py:91 | splitting a one-character join gives back the pieces when none contains the character |
| Strings.Contains | SecPyConv2.py:21 | no contract; Python's `pat in s`, pinned by `FindContains` and `ContainsSomePiece` |
| Strings.Join | SecPyConv2.py:91 | no contract; `sep.join(parts)`, pinned by `JoinSplit`, `SplitJoin`, `JoinConcat`, `JoinPrefix` and `JoinAround` |
| Strings.JoinConcat | SecPyConv2.py:91 | joining two non-empty lists is joining each, with one separator between them |
| Strings.JoinPrefix | SecPyConv2.py:91 | a list in front of a non-empty list adds its joined text and one separator, or nothing when it is empty |
| Strings.JoinAround | SecPyConv2.py:91 | a list between non-empty head and tail lists adds its joined text and one more separator, or nothing when it is empty |
| Strings.Strip | SecPyConv2.py:43 | `strip()` removes exactly the leading and trailing whitespace runs: the result is the middle slice, starts and ends with non-whitespace, and is empty exactly when the input is all whitespace |
| Strings.StripUnique | SecPyConv2.py:43 | any slice that is framed by whitespace and neither starts nor ends with whitespace is the stripped text |
| Strings.ContainsSomePiece | SecPyConv2.py:20-21 | a pattern without the separator occurs in the text exactly when it occurs in some piece of the split |
| Translator.InstructionMap | SecPyConv2.py:5-16 | no contract; the nine-entry table, pinned by `KeysLowerCase` and the per-instruction render lemmas |
| Translator.Assignment | SecPyConv2.py:53-58 | no contract; the operand unpack and the assignment line, pinned by `AssignmentPair` and `RenderMissingOperand` |
| Translator.RenderParsed | SecPyConv2.py:51-69 | no contract; the dispatch on the parsed word, pinned by `RenderOfParsed`, `RenderUnknown` and the `RenderMov` … `RenderRet` lemmas |
| Translator.RenderLine | SecPyConv2.py:48-71 | no contract; one output line or the unpack error, pinned by `RenderOfParsed`, `RenderUnknown`, `RenderUnparsable` and `RenderErrorOnlyUnpack` |
| Translator.Header | SecPyConv2.py:26-37 | no contract; the include lines by dialect and the three opening lines, pinned by `ConvertAssembly` and `TranslateLayout` |
| Translator.Footer | SecPyConv2.py:80-90 | no contract; the nine fixed closing lines, pinned by `ConvertAssembly` and `TranslateLayout` |
| Translator.Step | SecPyConv2.py:43-75 | no contract; one loop iteration (strip, skip empty, render, open the wrapper after the first `jmp`), pinned by `StateAppend` |
| Translator.Advance | SecPyConv2.py:47-75 | no contract; one iteration on a non-empty stripped line, pinned by `StateAppend` |
| Translator.Scan | SecPyConv2.py:41-75 | no contract; the loop as a left fold, pinned by `ScanReference`, `ScanErrorPersists` and `ConvertLines` |
| Translator.Body | SecPyConv2.py:41-78 | no contract; the fold plus the closing line when the wrapper was opened, pinned by `BodyIsReference`, `BodyLength`, `BodyWithJmp`, `BodyWithoutJmp` and `WrapperLinesOnce` |
| Translator.Translate | SecPyConv2.py:25-91 | no contract; header, body and footer joined by newlines, pinned by `ConvertAssembly` and `TranslateLayout` |
| Translator.DetectLanguage | SecPyConv2.py:18-23 | the dialect is C++ exactly when some line (equivalently, the whole text) contains `malloc`, and C otherwise |
| Translator.StripComment | SecPyConv2.py:43 | the text before the first `;`, stripped; the result holds no `;` |
| Translator.CommentedJmpIgnored | SecPyConv2.py:43 | a `jmp` only after the first `;` is gone after stripping |
| Translator.StripCommentPlain | SecPyConv2.py:43 | a line with no `;` and no surrounding whitespace strips to itself |
| Translator.ParseLine | SecPyConv2.py:48-50 | a match splits the line into a non-empty word, a non-empty whitespace run and operands that do not start with whitespace |
| Translator.ParseLineMatches | SecPyConv2.py:48-49 | the pattern matches exactly when some non-empty run of word characters is immediately followed by whitespace |
| Translator.ParseLineOf | SecPyConv2.py:48-50 | word + whitespace + operands parses back to the same word and operands |
| Translator.KeysLowerCase | SecPyConv2.py:5-16 | every table key starts with a lower-case letter |
| Translator.UpperCaseNotKey | SecPyConv2.py:51 | a word starting with an upper-case letter is never a key (lookups are case-sensitive) |
| Translator.AssignmentPair | SecPyConv2.py:54-55 | two operands joined by one `", "` unpack into `    dst c src;` |
| Translator.RenderAssignment | SecPyConv2.py:53-58 | `mov`/`add`/`sub dst, src` renders as `"    " + dst + " " + map[instr] + " " + src + ";"` |
| Translator.RenderMov | SecPyConv2.py:53-55 | `mov a, b` gives `    a  =  b;`, with two spaces around `=` |
| Translator.RenderAdd | SecPyConv2.py:56-58 | `add a, b` gives `    a  +=  b;` |
| Translator.RenderSub | SecPyConv2.py:56-58 | `sub a, b` gives `    a  -=  b;` |
| Translator.RenderMissingOperand | SecPyConv2.py:53-57 | a two-operand instruction whose operands hold no `", "` fails with an unpack error counting one piece |
| Translator.RenderErrorOnlyUnpack | SecPyConv2.py:53-58 | rendering fails exactly for `mov`/`add`/`sub` whose operands do not split into two pieces; the error carries the line and the piece count |
| Translator.RenderOfParsed | SecPyConv2.py:48-50 | a word, a whitespace run and operands render exactly as the parsed word and operands dictate |
| Translator.RenderCmp | SecPyConv2.py:59-60 | `cmp x` gives `    if (x) // compare` |
| Translator.RenderJnz | SecPyConv2.py:61-62 | `jnz x` gives `    if (x != 0) // jump if not zero` |
| Translator.RenderPush | SecPyConv2.py:63-64 | `push x` gives `    // push  x;`: the table text's own space and the rendering's give two spaces |
| Translator.RenderCall | SecPyConv2.py:63-64 | `call x` gives `    // call  x;` |
| Translator.RenderPop | SecPyConv2.py:65-66 | `pop x` gives `    // pop x;`: the operands follow the table text directly |
| Translator.RenderRet | SecPyConv2.py:65-66 | `ret x` gives `    returnx;` with no space, so `ret 0` gives `    return0;` |
| Translator.RenderUnknown | SecPyConv2.py:68-69 | a word that is not a key renders as `    // Unknown instruction: ` followed by the whole line |
| Translator.UpperCaseMovUnknown | SecPyConv2.py:51-69 | `MOV a, b` is an unknown instruction |
| Translator.UnknownJmp | SecPyConv2.py:68-69 | `jmp loop` is an unknown instruction (`jmp` has no table entry) |
| Translator.RenderUnparsable | SecPyConv2.py:70-71 | a line that is not a word followed by whitespace renders as `    // Cannot parse: ` followed by the line |
| Translator.BareRetCannotParse | SecPyConv2.py:48-71 | a bare `ret` renders as `    // Cannot parse: ret` |
| Translator.DottedWordCannotParse | SecPyConv2.py:70-71 | `a.b c` cannot be parsed (a dot is not a word character) |
| Translator.RenderedNotWrapper | SecPyConv2.py:53-74 | a rendered line is never the wrapper's opening or closing line |
| Translator.ScanErrorPersists | SecPyConv2.py:54 | once a prefix of the lines fails, the whole conversion fails with the same error |
| Translator.ConvertLines | SecPyConv2.py:41-78 | the loop (strip, skip empty, render, open the wrapper once after the first `jmp`, close it if opened) computes exactly the fold `Body` |
| Translator.ConvertAssembly | SecPyConv2.py:25-91 | the result is the dialect's header, the body and the footer joined by `"\n"`, or the unpack error |
| Translator.TranslateLayout | SecPyConv2.py:26-91 | the output is the dialect's header lines joined, a newline, each body line followed by a newline, then the fixed footer lines joined; an empty body adds nothing |
| Properties.Traverse | SecPyConv2.py:41-71 | the rendering succeeds exactly when every line renders, and then holds one rendering per line in order |
| Properties.TraverseFirstError | SecPyConv2.py:54 | a failure is the failure of the first line that fails, all earlier lines rendering |
| Properties.NonEmpty | SecPyConv2.py:44-45 | the skipped-line filter keeps only non-empty lines taken from its input |
| Properties.FirstJmp | SecPyConv2.py:73-75 | the index of the first kept line containing `jmp`, no earlier one containing it, or none at all |
| Properties.KeptMembers | SecPyConv2.py:43-45 | a line is kept exactly when it is non-empty and is the stripped form of some input line |
| Properties.KeptConcat | SecPyConv2.py:41-45 | the kept lines of concatenated inputs are the concatenation of their kept lines |
| Properties.StateAppend | SecPyConv2.py:47-75 | one more kept line changes the predicted state exactly as one loop iteration does |
| Properties.ScanReference | SecPyConv2.py:41-75 | after every prefix, the loop state is the rendered kept lines with the wrapper opened after the first `jmp`, and the flag says whether there was one |
| Properties.BodyIsReference | SecPyConv2.py:41-78 | the loop's body equals the declarative reference definition |
| Properties.BlankLineIgnored | SecPyConv2.py:43-45 | inserting a line that is empty after comment stripping changes nothing |
| Properties.HasJmp | SecPyConv2.py:43-73 | some kept line contains `jmp` exactly when some stripped input line does |
| Properties.BodyLength | SecPyConv2.py:41-78 | body length = number of non-empty stripped lines, plus 2 if a stripped line contains `jmp` |
| Properties.BodyError | SecPyConv2.py:53-58 | the conversion fails exactly when some kept line fails to render, with the first such line's error |
| Properties.KeptSnoc | SecPyConv2.py:43-45 | one more input line adds its stripped form to the kept lines when that is not empty, and nothing otherwise |
| Properties.WrapShape | SecPyConv2.py:73-78 | the wrapped body is the lines up to the first `jmp`, the opening line, the rest, the closing line |
| Properties.WrapOnce | SecPyConv2.py:73-78 | when no rendered line is a wrapper line, the opening line occurs only after line `j` and the closing line only at the end |
| Properties.BodyWithoutJmp | SecPyConv2.py:67-78 | without `jmp` the body is the renderings one for one, with no wrapper line |
| Properties.BodyWithJmp | SecPyConv2.py:67-78 | with `jmp` the body has two more lines than there are kept lines; the renderings up to the first kept line containing `jmp` come first, and the later renderings are shifted by one |
| Properties.WrapperLinesOnce | SecPyConv2.py:67-78 | with `jmp` the opening line is exactly the line after the rendering of the first kept line containing it, parsed or not, and the closing line is exactly the last line |
| Properties.NonEmptyAll | SecPyConv2.py:44-45 | a list of non-empty lines passes the skipped-line filter whole |
| Properties.RenderAllOf | SecPyConv2.py:50-71 | kept lines that render one by one render as the list of those renderings, in order |
| Properties.FirstJmpAt | SecPyConv2.py:73-75 | a kept line containing `jmp` with no earlier one containing it is where the wrapper opens |
| Properties.WrapLast | SecPyConv2.py:73-78 | when the first `jmp` line is the last kept line, the opening and the closing line both come at the end |
| Properties.ThreeFixed | SecPyConv2.py:43-45 | three non-empty lines that stripping leaves unchanged are all kept |
| Properties.ThreeRendered | SecPyConv2.py:50-71 | three lines rendered one by one give the three renderings in order |
| Properties.ThreeJmp | SecPyConv2.py:73-75 | of three lines, when only the third contains `jmp`, the wrapper opens after it |
| Properties.ReferenceIs | SecPyConv2.py:41-78 | lines that are all kept, with known renderings and first `jmp` line, give the wrapped renderings |
| Properties.WrapThree | SecPyConv2.py:73-78 | three renderings wrapped after the third are followed by the opening and the closing line |
| Properties.BodyOfThree | SecPyConv2.py:41-78 | three lines that strip to themselves, the third alone containing `jmp`, give their renderings, then the opening and the closing line |
| Translator.ExampleMovLine | SecPyConv2.py:43-55 | `mov a, b` strips to itself, has no `jmp`, and renders as `    a  =  b;` |
| Translator.ExampleAddLine | SecPyConv2.py:43-58 | `add a, 1` strips to itself, has no `jmp`, and renders as `    a  +=  1;` |
| Translator.ExampleJmpLine | SecPyConv2.py:43-73 | `jmp loop` strips to itself, contains `jmp`, and renders as `    // Unknown instruction: jmp loop` |
| Properties.ExampleBody | SecPyConv2.py:41-78 | the lines `mov a, b`, `add a, 1`, `jmp loop` give `    a  =  b;`, `    a  +=  1;`, `    // Unknown instruction: jmp loop`, `    while (counter <= 10) {`, `    }` |

## Left out

- `main` (SecPyConv2.py:93-118): argument count check, reading the file, `FileNotFoundError`, printing, `sys.exit` and writing `converted_code.<lang>`. It is I/O plumbing; the text is a parameter of the model.
- `\w` is modelled as ASCII letters, digits and `_`. Python's `\w` on `str` also matches non-ASCII letters and digits, which Unicode tables would be needed to describe.
- Translator.ConvertAssembly: takes a `Dialect` (C or C++) rather than the language string. The source's `else` branch treats every string other than `"C++"` as C, and `detect_language` only ever produces those two.
- The uncaught `ValueError` of the operand unpack is the `Err` result. Its message text and traceback are not modelled.
- `Translator.ConvertLines` is the `for` loop of `convert_assembly_to_c_cpp` factored into a method of its own; `ConvertAssembly` adds the header and footer around it.
- Translator.ParseLine: `.` in `(.*)` stops at a newline. This is modelled, but input lines come from `split('\n')` and never hold one.

# regex-railroad in Dafny

regex-railroad turns a regular expression into a Python script for the
`railroad` library. It parses the pattern with `regex-syntax` and walks the
resulting high-level intermediate representation (the `Hir` tree) once, in
preorder (`descent`). As it goes, it prints one diagram expression per node:

- a `Choice` for an alternation;
- a `Sequence` for a concatenation;
- a `Group` for a capture group;
- a rail for a repetition: `OneOrMore`, `ZeroOrMore`, `Optional`, or `OneOrMore` with a `Comment` naming the count;
- a quoted literal for a character.

A Unicode class is drawn in one of three ways:

- by its shorthand (`\d \w \s \S \W \D .`, found by `char_class`);
- by the list of what it leaves out, `[^…]`, when that list is short (`is_everything_except`);
- otherwise as a choice among its first twenty ranges.

`main` prints a fixed preamble before the walk and a fixed trailer after it.

The model has these modules:

| module | file | models |
|---|---|---|
| `RangeSets` | `ranges.dfy` | `ClassUnicode` as ascending, disjoint `(char, char)` ranges; its members, `negate`, the symmetric-difference test, and the listing of a class's characters in ascending order |
| `Text` | `text.dfy` | decimal and hexadecimal numerals (`to_string`, `{:X}`) with their round trip; the UTF-8 byte length that `String::len` counts |
| `Literals` | `literals.dfy` | `py_char_str` and `py_str` (an imperative loop proved against the value `Quoted`); a reader with Python's rules for single-quoted literals; the corrected character literal and range quoting |
| `Classes` | `classes.dfy` | `char_class`; `is_everything_except` (its two loops as methods proved against the value `EverythingExcept`); the twenty-range fallback |
| `Syntax`, `Diagrams` | `syntax.dfy`, `diagrams.dfy` | the `Hir` tree as `descent` sees it, and the diagram primitives with their printed form |
| `Translate` | `translate.dfy` | `descent` as a trace (the text printed and the panic that stopped it); the diagram the walk describes; the properties of the walk |
| `Emitter` | `descent.dfy` | `descent` and `main` as they run: methods that append to an output buffer, each proved to write exactly the trace |
| `Scenarios` | `scenarios.dfy` | what is printed for `a`, `a*`, `a{3}`, `a{2,4}`, `a\|b` and `\d` |

The central result is `Translate.DescendIsPrinted`. Printing as the walk goes
gives the same text as first building the whole diagram (`Translate.Build`)
and then printing it. A tree that cannot be drawn panics with the same panic
in both. `Translate.ScriptSpec` lifts this to the whole script, and
`Translate.SupportedIffBuilt` says exactly which trees can be drawn.

The walk that these results describe is the corrected one (see "## Findings").
It makes four corrections:

1. It lists a complement without stepping onto surrogates.
2. It writes a line feed, a carriage return or NUL as an escape.
3. It doubles a backslash in a listed range.
4. It doubles a backslash in a complement.

The code as written is modelled beside each correction, with the input that
shows the difference. Where the code does not panic, the corrected listing of
a complement gives the same result as the code (`Classes.AsWrittenAgrees`).
A corrected range entry is the one the code writes except for corrections 2
and 3 (`Classes.RangeEntry`).

## Model

| member | source | states |
|---|---|---|
| `Literals.PyCharStr` | src/main.rs:64-72 | as written: a character literal is three characters, or four for an escaped quote or backslash, between single quotes; Python reads it back as the character, except a line feed, a carriage return or NUL, for which the literal is invalid |
| `Literals.PyStr` | src/main.rs:74-88 | the loop builds exactly `Quoted(s)`: the input's characters escaped one by one, in order, between single quotes |
| `Literals.EscapeCharIsClean` | src/main.rs:78-84 | one character's escape is never empty; it holds no control character and nothing from U+FFFF up; a quote in it comes right after a backslash |
| `Literals.EscapedIsClean` | src/main.rs:77-85 | the escaped text holds no control character and no code point from U+FFFF up, and every quote in it follows a backslash |
| `Literals.QuotedRoundTrip` | src/main.rs:74-88 | a string without backslashes, control characters or code points from U+FFFF up is read back by Python from its `py_str` literal unchanged |
| `Literals.QuotedPlain` | src/main.rs:74-88 | text without quotes or hexed characters is quoted as it is |
| `Literals.EscapeChar` | src/main.rs:78-84 | one character as `py_str` writes it: `\'` for a quote, `<HEX>` (upper-case `{:X}`) for a control character or a code point from U+FFFF up, the character itself otherwise |
| `Literals.Escaped` | src/main.rs:77-85 | the escapes of the characters of a string, in order |
| `Literals.Quoted` | src/main.rs:74-88 | the literal starts and ends with a single quote, and what lies between is the escaped text |
| `Literals.PyRead` | src/main.rs:64-88 | how Python reads one single-quoted literal: it must end at its closing quote and hold no raw line break or NUL; the one-character escapes are decoded, `\0` is NUL, a `\x`, `\u`, `\U` or `\N` escape cut short makes the literal invalid, a backslash before any other character is kept |
| `Literals.CharLiteral` | src/main.rs:64-72 | the corrected character literal: Python reads it back as the character for every character; it is `py_char_str`'s literal for every character other than a line feed, a carriage return and NUL |
| `Literals.NewlineLiteral` | src/main.rs:64-72 | for a line feed, `py_char_str` writes the raw line break, which Python rejects; the corrected literal is `'\n'` and reads back |
| `Literals.DataQuoted` | src/main.rs:186-189 | the corrected quoting of a range's text, which doubles backslashes; it is `py_str`'s literal for text without backslashes |
| `Literals.DataRoundTrip` | src/main.rs:186-189 | Python reads back any text without control characters or code points from U+FFFF up from its corrected literal unchanged |
| `Text.NumeralRoundTrip` | src/main.rs:108 | the decimal (and hexadecimal) numeral of `n` reads back as `n` |
| `Text.NumeralDigits` | src/main.rs:81 | every character of a numeral is a digit below the base, and a leading `0` only for zero |
| `Text.Numeral` | src/main.rs:81 | `{:X}` and `to_string` of an unsigned number: its digits in base 16 or 10, most significant first, without leading zeros |
| `Text.ByteLen` | src/main.rs:53 | `String::len`: the UTF-8 byte length of a string, one to four bytes per character |
| `Text.IsControl` | src/main.rs:80 | `char::is_control`: U+0000 to U+001F and U+007F to U+009F |
| `RangeSets.Negate` | src/main.rs:44-45 | the negated class holds exactly the scalar values the class does not |
| `RangeSets.SymmetricDifference` | src/main.rs:24-26 | the symmetric difference is empty exactly when both classes have the same members |
| `RangeSets.CharsSpec` | src/main.rs:48-57 | the listing of a class's ranges is ascending and holds exactly its members |
| `Classes.FirstShorthand` | src/main.rs:18-29 | the first candidate with the same members as the class, with no earlier candidate matching; None exactly when none matches |
| `Classes.CharClass` | src/main.rs:8-40 | `\d \w \s \S \W \D .` are tried in that order; the first whose canonical class has the class's members is returned; None exactly when none does |
| `Classes.EverythingExcept` | src/main.rs:42-62 | a result exactly when `[^` plus the complement fits in 48 bytes; it is `[^`, the complement in ascending order, then `]`; at most 49 bytes; it lists exactly the characters outside the class |
| `Classes.IsEverythingExcept` | src/main.rs:42-62 | the method computes `EverythingExcept` |
| `Classes.ListRanges` | src/main.rs:47-57 | with no early stop, the text is `[^` followed by every listed character, within 48 bytes; with an early stop, the full listing exceeds 48 bytes |
| `Classes.PushRange` | src/main.rs:50-56 | one range's characters are pushed in ascending order; it stops at the first character that takes the text past 48 bytes |
| `Classes.EnumerateAsWritten` | src/main.rs:47-61 | `is_everything_except` as written: every integer from a complement range's start to its end is unwrapped as a character, so a surrogate panics |
| `Classes.AsWrittenAgrees` | src/main.rs:47-61 | the walk as written panics only when a complement range spans the surrogate block; when it does not panic, it gives up exactly when the corrected listing does not fit, and otherwise lists the same text |
| `Classes.SurrogateGapPanics` | src/main.rs:49-51 | for the class of `[^\x{D7FF}-\x{E000}]`, the walk as written panics, while the corrected one lists the two characters |
| `Classes.RangeEntryAsWritten` | src/main.rs:183-190 | one listed range as written; for a range ending in a backslash whose start is not written in hexadecimal, the literal is not one Python can read |
| `Classes.EndSlashBreaks` | src/main.rs:186-189 | `py_str` of `a-\` ends in `\'`, so the backslash escapes the closing quote and the literal never ends |
| `Classes.BackslashEndBreaks` | src/main.rs:186-189 | the range `A` to `\`: its entry as written is invalid, its corrected entry reads back as `A-\` |
| `Classes.RangeEntry` | src/main.rs:183-190 | one listed range as intended: the corrected character literal for a single character, the corrected quoting of `start-end` otherwise; it is the entry as written for every single character other than a line feed, a carriage return and NUL, and for every wider range with no backslash end |
| `Classes.Entries` | src/main.rs:178-191 | the corrected entries of the listed ranges in order, each followed by `, ` |
| `Classes.RangeChoice` | src/main.rs:177-193 | `Choice(0, `, the corrected entries of the first twenty ranges, the ellipsis `"..."` when more remain, and `)` |
| `Classes.ComplementLiteral` | src/main.rs:174-175 | the corrected literal of a complement: Python reads it back as the bracketed text when no character in it is written in hexadecimal; it is `py_str`'s literal for text without backslashes |
| `Classes.ComplementEscapeBreaks` | src/main.rs:174-175 | the class of every character but `\` and `x` is drawn by its complement `[^\x]`; `py_str`'s literal of it is invalid, the corrected one reads back |
| `Classes.RangeEntryReadsBack` | src/main.rs:183-190 | with the corrected quoting, a one-character range is listed as a literal that Python reads back as that character, whatever it is; a wider range whose ends are not written in hexadecimal reads back as its two ends around a dash |
| `Translate.Label` | src/main.rs:106-110 | a capture group's label: its name, or its index in decimal |
| `Translate.CountNote` | src/main.rs:127-136 | the note of a counted repetition: `= n times` for `{n}` with n ≥ 2, `≥ n times` for `{n,}` with n ≥ 2, `m ~ n times` for `{m,n}` with m ≥ 1 and n ≥ 2, none otherwise |
| `Translate.RepetitionDrawing` | src/main.rs:122-157 | the drawing the nested matches pick for a repetition kind: skipped, the bare child, a commented loop, a rail, or unreachable |
| `Translate.ClassPolicy` | src/main.rs:172-176 | the first of the shorthand, the corrected complement and the range list that applies to a class |
| `Translate.Descend` | src/main.rs:90-202 | what the corrected `descent` prints for a tree, and the panic that stops it, node by node in preorder |
| `Translate.Build` | src/main.rs:90-202 | the diagram the corrected `descent` describes, as a tree, or the first panic in preorder |
| `Translate.Script` | src/main.rs:211-215 | the preamble, the corrected walk and, unless the walk panicked, the trailer |
| `Diagrams.Print` | src/main.rs:90-202 | the Python expression of a diagram: each call's name, its arguments each followed by `, `, and the closing parenthesis |
| `Translate.ClassPolicySpec` | src/main.rs:171-176 | the shorthand is used exactly when `char_class` finds one; otherwise the corrected complement is used exactly when it fits in 48 bytes; otherwise the ranges are listed |
| `Translate.ShorthandIsUsed` | src/main.rs:32-38 | each of the seven canonical classes is drawn by a shorthand |
| `Translate.ShorthandIsDrawn` | src/main.rs:171-173 | the class of the i-th shorthand prints as the quoted name of that shorthand or of one tried before it |
| `Translate.FallbackSpec` | src/main.rs:177-193 | the fallback is a choice of `min(n, 20)` entries, the ranges in order, with the ellipsis exactly when there are more than 20 ranges |
| `Translate.FallbackPrinted` | src/main.rs:177-193 | the fallback diagram prints as the text the loop writes |
| `Translate.DrawingSpec` | src/main.rs:122-157 | `{0}` is skipped and `{1}` is the bare child; a commented loop is used exactly when there is a count note; `+`, `{1,}` and the other forms each get their rail; exactly the bounds no rail fits are unreachable |
| `Translate.RepetitionShapes` | src/main.rs:116-159 | the diagram of each kind of repetition: `Skip()` for `{0}` whatever the child; the child itself for `{1}`; the panic for bad bounds; a commented `OneOrMore`; the three rails |
| `Translate.NoteNamesBounds` | src/main.rs:127-136 | there is a note exactly for `{n}` with n ≥ 2, `{n,}` with n ≥ 2, and `{m,n}` with m ≥ 1 and n ≥ 2; its numerals read back as the bounds |
| `Translate.NoteReadsBack` | src/main.rs:141 | a note is quoted as it is, and Python reads it back from the script unchanged |
| `Translate.SequenceKeepsOrder` | src/main.rs:160-167 | a concatenation can be drawn exactly when every child can; its diagram is a sequence of the children's diagrams, as many and in order |
| `Translate.ChoiceKeepsOrder` | src/main.rs:92-99 | an alternation can be drawn exactly when every branch can; its diagram is a choice defaulting to the first branch, with the branches' diagrams in order |
| `Translate.BuildAllSpec` | src/main.rs:94-97 | the children's diagrams are built in order; when one fails, it is the first child that fails |
| `Translate.SupportedIffBuilt` | src/main.rs:90-202 | a tree can be drawn exactly when it has no byte literal, no byte class and no unreachable bounds, outside the children of `{0}` |
| `Translate.DescendIsPrinted` | src/main.rs:90-202 | printing during the walk writes the printed form of the tree's diagram; for a tree that cannot be drawn, the walk panics with the tree's panic |
| `Translate.ScriptSpec` | src/main.rs:204-216 | a drawable tree prints as the preamble, its diagram and the trailer; any other tree panics after the preamble with its panic |
| `Emitter.Output.Write` | src/main.rs:93 | `print!` appends its text to what has been printed |
| `Emitter.EmitScript` | src/main.rs:211-215 | `main` writes the corrected script's trace and panics as it does |
| `Emitter.Descent` | src/main.rs:90-202 | each node writes exactly `Descend`'s text for it and panics as it does |
| `Emitter.DescentList` | src/main.rs:92-99 | an alternation or concatenation writes its opening, its children and, without a panic, `)` |
| `Emitter.DescentEach` | src/main.rs:94-97 | the loop writes each child followed by `, ` up to the first panic; that panic is the list's panic |
| `Emitter.PanicSticks` | src/main.rs:94-97 | after a child panics, the later children change nothing |
| `Emitter.DescentGroup` | src/main.rs:104-113 | a capture group writes `Group(`, the child and the quoted name or index |
| `Emitter.DescentRepetition` | src/main.rs:116-159 | a repetition writes what its drawing prescribes around the child |
| `Emitter.DescentCounted` | src/main.rs:123-151 | counted bounds write `Skip()` for `{0}` and the child for `{1}`, and otherwise what the drawing prescribes |
| `Emitter.DescentNoted` | src/main.rs:126-150 | other counted bounds write a commented loop when there is a note, a rail when one fits, and otherwise stop at the unreachable bounds |
| `Emitter.StdRepeat` | src/main.rs:117-121 | the rail's name, the child and `)` |
| `Emitter.Wrap` | src/main.rs:139-141 | an opening, the child and, unless the child panicked, a closing |
| `Emitter.EmitClass` | src/main.rs:171-194 | a Unicode class writes its shorthand, its complement or its range choice, whichever the policy picks |
| `Emitter.EmitRangeChoice` | src/main.rs:177-192 | the loop writes the fallback's exact text: at most 20 corrected entries, then the ellipsis if ranges remain |
| `Scenarios.PrintsLetter` | src/main.rs:115 | `a` prints `'a'` |
| `Scenarios.PrintsStar` | src/main.rs:152-157 | `a*` prints `ZeroOrMore('a')`, greedy or lazy |
| `Scenarios.PrintsExactCount` | src/main.rs:128-141 | `a{3}` prints `OneOrMore('a', Comment('= 3 times'))` |
| `Scenarios.PrintsBoundedCount` | src/main.rs:132-141 | `a{2,4}` prints `OneOrMore('a', Comment('2 ~ 4 times'))` |
| `Scenarios.PrintsAlternation` | src/main.rs:92-99 | `a\|b` prints `Choice(0, 'a', 'b', )` |
| `Scenarios.PrintsDigitShorthand` | src/main.rs:171-173 | `\d` prints `'\d'` and not its ranges |

## Left out

- Reading the command-line argument and its argument-count check are left out. So is parsing the pattern with `regex-syntax`: the model starts from the parsed tree.
- The canonical classes of the seven shorthands come from `regex-syntax`'s Unicode tables. They are a parameter (`Classes.Shorthands`) rather than built here.
- `regex-syntax` internals are modelled only as far as `descent` relies on them: `negate`, the symmetric difference and the range iterator.
- `char::is_control` is modelled as the general category Cc: U+0000 to U+001F and U+007F to U+009F.
- The greedy flag of a repetition is carried in the tree and ignored, as `descent` ignores it.
- Integer widths: `u32` repetition bounds and group indices are unbounded naturals.
- The `≥` in the at-least comment appears in the source file as a mis-decoded byte sequence. It is modelled as the single character U+2265.
- Output is a buffer (`Emitter.Output`). `println!`'s newlines are part of the preamble and trailer constants. Standard-output errors are not modelled.
- A panic is a value (`Syntax.Panic`): the two byte cases that reach `todo!` and the bounds that reach `unreachable!`. The message texts are not modelled. The `unreachable!` for non-capturing groups at line 109 cannot be reached, and none is modelled for it.
- `Emitter.DescentGroup`: `py_str` of the name is computed before the child is walked rather than after. It is pure, so what is written is the same.
- `Emitter.DescentNoted`: `py_str` of the count note is computed before the child is walked, not inside the closing `print!` after it. It is pure, so what is written is the same.
- `RangeSets.Valid` also accepts two ranges that touch, such as `a-b` followed by `c-d`. `regex-syntax` always merges these, so such a class never reaches `descent`. The model's results hold for these classes too, but their range count and twenty-range cut-off describe inputs the program never sees.
- The complement bound is counted in UTF-8 bytes of `[^` plus the listed characters, before the closing `]`, as the code counts it. So a result can be 49 bytes long, brackets included.
- Control characters become `<HEX>` only in `py_str`. `py_char_str` writes every character between quotes as it is, and the model follows it (`Literals.PyCharStr`), apart from the line breaks and NUL corrected under "## Findings".
- `py_str` does not escape a backslash. The model keeps `py_str` as written where its text is meant as regex-style source: the shorthand names (`'\d'`) and `\\b`. A complement is quoted by the corrected `Classes.ComplementLiteral`, and a range entry by the corrected `Literals.DataQuoted` (see "## Findings"). `Literals.QuotedRoundTrip` is stated only for text without backslashes for that reason.
- `Literals.PyRead`: some escapes are reported as `Undecoded` rather than decoded. These are `\0` followed by an octal digit, `\1` to `\7`, a complete `\x`, `\u`, `\U` or `\N{…}` escape, and a backslash before a line break. No literal the model proves anything about contains them. A `\x`, `\u`, `\U` or `\N` escape cut short is `Invalid`, as Python refuses it.
- Classes.Entries: lists the corrected entries (`Classes.RangeEntry`). It differs from the code for a lone line feed, carriage return or NUL, and for a range with a backslash end.
- Classes.RangeChoice: built from `Classes.Entries`, so it differs from the code in the same entries.
- Translate.ClassPolicy: decides the complement by the corrected listing `Classes.EverythingExcept`. Where the code panics on a complement range that spans the surrogate block, it picks the complement or the range list instead. Elsewhere the two agree (`Classes.AsWrittenAgrees`).
- Translate.ClassPolicySpec: states the policy of `Translate.ClassPolicy`, so it has the same difference at the surrogate block.
- Translate.Descend: describes the corrected walk, with all four corrections. It does not produce the panic the code reaches on a complement range that spans the surrogate block (`Classes.SurrogateGapPanics` exhibits it), because that panic is not one of the `Syntax.Panic` cases.
- Translate.Build: builds the diagram of the corrected walk, so it has the same differences as `Translate.Descend`.
- Translate.Script: wraps `Translate.Descend`, so it has the same differences.
- Translate.SupportedIffBuilt: states which trees the corrected walk can draw. A tree whose class complement spans the surrogate block counts as drawable.
- Translate.DescendIsPrinted: relates the corrected walk to the corrected diagram.
- Translate.ScriptSpec: states the corrected script.
- Emitter.EmitScript: writes the corrected script (`Translate.Script`).
- Emitter.Descent: writes the corrected walk (`Translate.Descend`).
- Emitter.EmitClass: writes the corrected class text: corrected complement listing and literal, corrected range entries.
- Emitter.EmitRangeChoice: writes the corrected entries, as `Classes.RangeChoice` does.

## Findings

| source | as written | input that shows it | evidently intended | confidence | as-written member | corrected member |
|---|---|---|---|---|---|---|
| src/main.rs:49-51 | each complement range is walked as integers from its start to its end, and `char::from_u32(c).unwrap()` is applied to each | the pattern `[^\x{D7FF}-\x{E000}]`: its complement is the one range U+D7FF–U+E000, which spans the surrogate block, so the walk reaches U+D800 and panics | list only the scalar values of the range, skipping surrogates, giving `[^\u{D7FF}\u{E000}]` | not executed | `Classes.EnumerateAsWritten` (exhibited by `Classes.SurrogateGapPanics`) | `Classes.IsEverythingExcept` (proved equal to `Classes.EverythingExcept`) |
| src/main.rs:64-72 | `py_char_str` writes any character other than a quote or a backslash raw between single quotes; `descent` prints it for a literal (line 115) and for a one-character range (line 184) | a pattern that is a single line-feed character: the script holds `'`, a line break and `'`, an unterminated string, and the same holds for a carriage return and NUL | write a line feed, a carriage return and NUL as `'\n'`, `'\r'` and `'\0'` | not executed | `Literals.PyCharStr` (exhibited by `Literals.NewlineLiteral`) | `Literals.CharLiteral` (proved to read back as its character for every character) |
| src/main.rs:186-189 | a wider range is written as `py_str` of `start-end`, and `py_str` copies a backslash | the pattern `[A-\\]`: its complement is far past 48 bytes, so its one range is listed as `'A-\'`, where the backslash escapes the closing quote | double the backslash, giving `'A-\\'` | not executed | `Classes.RangeEntryAsWritten` (exhibited by `Classes.BackslashEndBreaks`) | `Classes.RangeEntry` (proved to read back in `Classes.RangeEntryReadsBack`) |
| src/main.rs:174-175 | the complement text is written with `py_str`, which copies a backslash | the pattern `[^\\x]`: the class leaves out only `\` and `x`, so it is drawn by its complement `[^\x]`, printed as `'[^\x]'`, which Python refuses as a truncated `\x` escape; the same holds for `\u`. The listing is ascending, so `U` and `N`, which sort below the backslash, never follow it. A backslash before `a b f n r t v` does not break the script but changes the text: the class of everything except `\` and `n` prints `'[^\n]'`, which Python reads as `[^`, a line feed and `]` | double the backslash, giving `'[^\\x]'` | not executed | `Literals.Quoted` (exhibited by `Classes.ComplementEscapeBreaks`) | `Classes.ComplementLiteral` (proved to read back as the complement text) |

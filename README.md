# LineCount1 in Dafny

A model of the counting core of `LineCount1`, a Java console program that
counts the characters and lines of plain text files. The program reads each
file one UTF-16 code unit at a time and keeps four pieces of state:

- `fileChars` counts every code unit.
- `fileLines` counts line terminators.
- `lineChars` is the length of the current, unterminated line.
- `foundCr` remembers whether the previous code unit was a carriage return.

A line ends with CR, with LF, or with CR followed by LF, and that pair ends
one line, not two. After the last code unit, a non-empty unterminated last
line counts as one more line.

The project has three modules:

- `CodeUnits` (`CodeUnits.dfy`): the code unit type (0 to 0xFFFF), the CR, LF
  and space constants, and how a character above U+FFFF becomes two code units
  (a surrogate pair). This explains why such characters are counted twice.
- `LineSpec` (`LineSpec.dfy`): the counts as functions of the whole input.
  - `Terminators` counts terminators as the input is read.
  - `TailLength` is the length of the unterminated tail.
  - `LineTotal` is the final line count.
  - `CountCr` and `CountBareLf` give the closed form.
  - `ReadLines` is an independent reference. It cuts the text into its lines
    the way a line reader does. The lemmas prove that `LineTotal` is exactly
    the number of lines `ReadLines` delivers, and that those lines hold every
    code unit of the text other than CR and LF, in order.
- `LineCount1` (`LineCount1.dfy`): the program's own operations.
  - `CountFile` is the `while` loop of `processFile` and its trailing-line
    rule. It keeps the same four variables and is proved equal to the
    specification functions.
  - `PadLeft` is `padLeft`.
  - `CheckOutputStyle` is the range check on the `-m` option.

The input to `CountFile` is the already decoded sequence of code units. Dafny's
`char` is a Unicode scalar value, and a Java `char` is a UTF-16 code unit that can
be a lone surrogate, so the model uses its own `CodeUnit` type instead.

## Model

| member | source | states |
|---|---|---|
| `LineCount1.CountFile` | LineCount1.java:237-270 | after reading the whole input, the character count is the number of code units read, and the line count is `LineTotal` of the input. The loop invariants tie each of the four variables to the prefix read so far: `fileLines` is its terminators, `lineChars` its unterminated tail, and `foundCr` holds exactly when the prefix ends with CR |
| `LineSpec.TailLength` | LineCount1.java:246-262 | `lineChars` is the number of code units after the last CR or LF, or the whole length if there is none. None of those units is a terminator, and the unit just before them is one |
| `LineSpec.TerminatorsSnoc` | LineCount1.java:242-263 | one more code unit adds one terminator if it is CR, or if it is LF not preceded by CR; any other unit adds none |
| `LineSpec.TailLengthSnoc` | LineCount1.java:242-263 | one more code unit empties the current line if it is CR or LF, and otherwise makes it one longer |
| `LineSpec.LoneCrEndsLine` | LineCount1.java:242-247 | a CR counts as a terminator at once, without waiting for the next unit; a CR followed by anything other than LF is one terminator, and a second CR is another |
| `LineSpec.CrLfEndsOneLine` | LineCount1.java:253-257 | CR followed by LF adds exactly one terminator, and the text then ends on a line boundary |
| `LineSpec.BareLfEndsLine` | LineCount1.java:258-263 | an LF that does not follow CR is a terminator of its own |
| `LineSpec.TerminatorsByKind` | LineCount1.java:242-263 | the terminators are the CRs plus the LFs not immediately preceded by CR |
| `LineSpec.LineTotalClosedForm` | LineCount1.java:237-270 | the final line count is the number of CRs, plus the LFs not preceded by CR, plus 1 exactly when the input is non-empty and its last unit is neither CR nor LF; that last case is the same as a non-empty `lineChars` |
| `LineSpec.TerminatorsBound` | LineCount1.java:239-264 | there are never more terminators than code units, and strictly fewer when the text ends inside a line |
| `LineSpec.LineTotalBounds` | LineCount1.java:269-270 | the empty input has 0 lines; any non-empty input has at least 1 line and never more lines than characters |
| `LineSpec.NoTerminators` | LineCount1.java:248-252 | a text with no CR and no LF has no terminators |
| `LineSpec.TerminatorsAppend` | LineCount1.java:239-264 | the terminators of two texts joined are the sum of each text's terminators, minus one when an LF at the start of the second completes a CR at the end of the first |
| `LineSpec.CrLfPairsLines` | LineCount1.java:253-257 | any number `n` of consecutive CR+LF pairs is `n` lines, never `2 * n` |
| `LineSpec.FirstTerminator` | LineCount1.java:14-15 | the index of the first CR or LF: every unit before it is a non-terminator, and it is the length when there is no terminator |
| `LineSpec.NextLineStart` | LineCount1.java:14-15 | the next line starts after the first terminator; the units skipped are exactly one terminator (CR, LF or CR+LF), and a CR+LF pair there is taken whole, so the next line never starts with the LF of a CR just skipped |
| `LineSpec.ReadLines` | LineCount1.java:14-15 | cutting the text at CR, LF or CR+LF gives lines that contain no CR and no LF |
| `LineSpec.LinesReadKeepText` | LineCount1.java:14-15 | the lines, joined end to end, are the text with every CR and LF removed: no code unit is lost, duplicated or moved |
| `LineSpec.OneTerminator` | LineCount1.java:14-15 | each of the three written forms, CR, LF and CR+LF, is exactly one terminator |
| `LineSpec.LineThenTerminator` | LineCount1.java:242-263 | a line without terminators followed by one terminator holds exactly one terminator |
| `LineSpec.DropTerminatedLine` | LineCount1.java:237-270 | a text that starts with one whole terminated line, where the next unit does not continue a CR, has one line more than the rest of the text |
| `LineSpec.LinesOfTerminatedLine` | LineCount1.java:237-270 | a line, its terminator and the rest of the text have one line more than the rest |
| `LineSpec.LastLineCounts` | LineCount1.java:269-270 | a non-empty text without terminators is one line, counted by the trailing-line rule |
| `LineSpec.SplitAtLineBreak` | LineCount1.java:14-15 | splitting a text after its first terminator, with CR+LF taken whole, removes exactly one line |
| `LineSpec.LineTotalIsLinesRead` | LineCount1.java:237-270 | the line count equals the number of lines `ReadLines` cuts the text into, for every input |
| `LineSpec.ScenarioNoTerminator` | LineCount1.java:269-270 | "A" is 1 line |
| `LineSpec.ScenarioEndsWithCrLf` | LineCount1.java:253-257 | "A\r\n" is 1 line: the CR+LF pair counts once and there is no trailing line |
| `LineSpec.ScenarioCrLfThenLine` | LineCount1.java:237-270 | "A\r\nB" is 2 lines |
| `LineSpec.ScenarioTwoNewlines` | LineCount1.java:258-263 | "\n\n" is 2 lines |
| `LineSpec.ScenarioLoneCr` | LineCount1.java:242-251 | "A\rB" is 2 lines: the lone CR ends the first line |
| `LineSpec.ScenarioThreeLfLines` | LineCount1.java:237-270 | "one\ntwo\nthree" is 3 lines |
| `LineSpec.ScenarioTwoCrLfLines` | LineCount1.java:237-270 | "one\r\ntwo\r\n" is 2 lines |
| `CodeUnits.Utf16Units` | LineCount1.java:39-40 | a character up to U+FFFF is one code unit; a character above U+FFFF is two, a high surrogate and then a low surrogate |
| `CodeUnits.Utf16RoundTrip` | LineCount1.java:39-40 | the code units of a character give that character back |
| `CodeUnits.EncodedLength` | LineCount1.java:39-40 | a text has one code unit per character plus one more for each character above U+FFFF, so such characters are counted twice |
| `LineCount1.PadLeft` | LineCount1.java:163-183 | when `width` minus the input's length is at most 0, the input comes back unchanged. Otherwise the result is that many spaces followed by the input. Its length is the larger of `width` and the input's length |
| `LineCount1.CheckOutputStyle` | LineCount1.java:119-129 | the `-m` option is accepted exactly when its suffix parses to an integer from 0 to 999, and then that integer is the output style; a suffix that does not parse is rejected |

## Left out

- File access is not modelled: canonical paths, the "not a file" check, opening and closing the reader (LineCount1.java:212-232, 268). `CountFile` receives the decoded contents as a parameter.
- Charset selection and decoding are not modelled (LineCount1.java:224-231), and neither is the fatal "unknown character set" exit (291-296). They are library behaviour.
- The per-file I/O error report is not modelled (297-301). The counter itself cannot fail.
- The output line and its styles are not modelled (LineCount1.java:271-289). They use `NumberFormat` with locale digit grouping and leading zeros. Only `padLeft` is modelled, on its own.
- The command-line loop of `main` is not modelled (LineCount1.java:95-152), apart from the `-m` range check. This covers help, the `-e` option, unknown options, the missing-file check, `System.exit` codes and the `os.name` test for the Windows `/` spellings. `showHelp` (311-332) is console output.
- CountFile: the counters are unbounded naturals. Java's `long` counters would wrap only after 2^63 - 1 code units.
- PadLeft: `width - input.length()` is 32-bit `int` arithmetic in Java. The model uses unbounded integers. The two differ only for a `width` near -2^31, and the program only ever passes 15. The `StringBuffer` capacity hint has no visible effect and is left out.
- CheckOutputStyle: `Integer.parseInt` is not modelled. Its outcome is a parameter: the parsed value, or `None` for a `NumberFormatException`. The lower-casing of the argument before parsing is left out with it.
- Scanning the same content twice gives the same counts. Dafny's functions are deterministic, so no lemma states this.

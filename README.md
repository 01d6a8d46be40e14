# TOML decode errors, rendered

A Dafny model of `error.go` from a Go TOML decoder. The file defines
`DecodeError`, the value the decoder returns when a document does not parse.
It carries a message, the decoder's own line count, a byte offset `Pos`, the
last key parsed (may be empty) and the whole input (may be empty). The file
renders that value in two ways:

- `Error()` gives one line: `toml: line N: message`, or
  `toml: line N (last key parsed 'k'): message` when a key is known.
- `ExtError()` gives a compiler-style diagnostic. It splits the input on `"\n"`
  and walks the lines with a running byte cursor to turn `Pos` into a 0-based
  line and a column. It then writes a two-line header and a blank line, up to
  two preceding source lines, the target line (each numbered with `% 6d | `),
  and a caret line: 9 blanks, `col` more blanks, `^`. An empty input gives the
  `Error()` text instead.

Files:

- `go_format.dfy` (module `GoFormat`): the parts of Go's `fmt` and `strings`
  that the renderers use. These are `%d`, `% 6d`, `% 9s` of `""`, `%q`, and
  `strings.Repeat(" ", n)`. Each has its read-back or shape lemma.
- `line_split.dfy` (module `LineSplit`): `strings.Split(s, "\n")` and its
  inverse `Join`. `Start`/`End` give the byte offsets at which each line
  begins and ends, counting the removed newline.
- `decode_error.dfy` (module `Toml`): `DecodeError` and `Error()`. Also the
  offset walk as a specification function (`LocateFrom`), the text that
  `ExtError` returns (`ExtendedText`), and `ExtError` itself. `ExtError` is an
  imperative method: a `for` loop with `break` over the lines, then a
  sequence of appends to a builder string, one per `Fprintf` in the source.
  It is proved to return `ExtendedText`. The properties of that text are
  lemmas.
- `toml_examples.dfy` (module `TomlExamples`): concrete inputs and what they
  render or resolve to.

Each char of a Dafny `string` stands for one byte of the Go string, so
lengths and columns are byte counts, as in the source.

Behaviour of `error.go` worth stating:

- `% 6d` puts a blank where a sign would go. So a line number of six or more
  digits makes the field 7 or more columns wide. The caret offset stays fixed at 9 columns. So the caret lines up with the
  target byte only while the line number has at most five digits
  (`CaretAlignment` and `ExtendedCaretUnderByte` require fewer than 100000
  lines). Past that point the caret falls to the left.
- The walk falls back to line 0, column 0 only when `Pos > len(Input) + 1`.
  It does not fall back when `Pos` merely reaches the end of the input:
  `Pos = len(Input) + 1` selects the end of the last line (`LocatePastEnd`).
- The two preceding context lines are `lines[line-2]` numbered `line-1` and
  `lines[line-1]` numbered `line`. Every printed line `k` is numbered `k + 1`
  (`ContextRows`).
- The caret goes under input byte `Pos - 1`, not byte `Pos`
  (`LocatePointsAtByte`).

## Model

| member | source | states |
|---|---|---|
| `Toml.Error` | error.go:19-25 | The one-line text starts with `toml: line ` and the stored `Line` in decimal, and ends with the message. |
| `Toml.CompactLayout` | error.go:19-25 | The one-line text is `toml: line ` and the stored `Line` in decimal. Then it is `: message` when `LastKey` is empty, or ` (last key parsed 'k'): message` otherwise. The number is followed by `:` or a blank, which no `%d` rendering contains. That byte is `:` exactly when no key is present. |
| `Toml.CompactDetermines` | error.go:19-25 | Two errors with the same one-line text have the same stored `Line`. Either both have a key or neither does. Without a key they also have the same message. |
| `Toml.ExtError` | error.go:46-90 | Returns `Error()` for an empty input. Otherwise it returns the header, context and caret text for the location the walk picks. The loop's invariants tie the running cursor `pos` to `Start(lines, i)` and the loop to `LocateFrom`. |
| `Toml.ExtendedText` | error.go:46-90 | The text `ExtError` returns. For an empty input it is the one-line text. Otherwise it opens with `toml: error: <message>` and a newline, and closes with `^` and a newline. |
| `Toml.Header` | error.go:68-73 | The header opens with the message line and ends with two newlines. |
| `Toml.Context` | error.go:75-82 | The context block ends with the target line's row. It is exactly that row iff the target is line 0; otherwise at least one earlier row comes before it. |
| `Toml.Caret` | error.go:83 | The caret line is `9 + col` blanks, then `^`, then a newline, and nothing else. |
| `Toml.LocateFrom` | error.go:52-64 | Whenever there is at least one line, the walk gives a valid line index and a column no larger than that line's length. So `lines[line]`, `lines[line-1]` and `lines[line-2]` (behind their guards) are never out of bounds. |
| `Toml.LocateIsFirstReach` | error.go:53-63 | The chosen line is the first index `i` with `Start(i) + len(lines[i]) + 1 >= Pos`. The column is `Pos - Start(i) - 1`, clamped to 0. When no line qualifies, the result is line 0, column 0. |
| `Toml.LocateReaches` | error.go:53-61 | If line `k` reaches `Pos`, the walk stops at `k` or earlier, on the first reaching line. |
| `Toml.ReachedIffWithinInput` | error.go:51-64 | Some line reaches `Pos` exactly when `Pos <= len(Input) + 1`. Beyond that the walk falls back to line 0, column 0. |
| `Toml.LocateAtStart` | error.go:55-60 | `Pos <= 1` (in particular `Pos = 0`, or a negative offset) resolves to line 0, column 0. With unbounded integers the column clamp applies to every negative offset. |
| `Toml.LocatePointsAtByte` | error.go:53-61 | For `1 <= Pos <= len(Input)`, `Start(line) + col = Pos - 1`. Input byte `Pos - 1` is byte `col` of the chosen line, or the newline that ends it when `col` equals the line's length. |
| `Toml.LocatePastEnd` | error.go:53-61 | `Pos = len(Input) + 1` resolves to the last line, at a column equal to its length. |
| `Toml.HeaderLines` | error.go:68-73 | The header is `toml: error: <message>\n`, then `             on line <line+1>`, then `; last key parsed was <quoted key>` only when the key is non-empty, then `\n\n`. The second line never contains a newline. |
| `Toml.ContextRows` | error.go:75-82 | The context block is rows `line - min(line, 2)` through `line`, in ascending order. Each row is `% 6d` of `k + 1`, then ` \| `, `lines[k]` and a newline. |
| `Toml.CaretAlignment` | error.go:76-83 | With fewer than 100000 lines, a row's text starts in column 9. The caret line is `9 + col` blanks, `^` and a newline, so the caret stands under byte `col` of the row's line. |
| `Toml.ExtendedEndsWithTarget` | error.go:82-83 | For a non-empty input the extended text ends with the target line's row followed by the caret line. |
| `Toml.ExtendedCaretUnderByte` | error.go:54-83 | With fewer than 100000 lines and `1 <= Pos <= len(Input)`, the caret is in column `9 + col`. The target row holds input byte `Pos - 1` in that same column, or the row's closing newline when that byte is a newline. |
| `GoFormat.NatDec` | error.go:69 | `%d` of a non-negative number is a non-empty string of digits with no leading zero. |
| `GoFormat.NatDecValue` | error.go:69 | Reading the digits of `%d` back gives the number. |
| `GoFormat.NatDecLength` | error.go:76-82 | A number below `10^k` has at most `k` digits, and one at least `10^(k-1)` has at least `k`. |
| `GoFormat.Dec` | error.go:21 | `%d` of an `int` is the digits of its magnitude, preceded by `-` exactly when it is negative. It is non-empty and made of digits and `-` only. |
| `GoFormat.DecInjective` | error.go:21-24 | Different integers render differently under `%d`. |
| `GoFormat.Spaces` | error.go:83 | `strings.Repeat(" ", n)` is exactly `n` blanks. |
| `GoFormat.PadNum` | error.go:76-82 | `% 6d` of a line number is at least 6 wide and ends with its digits. Everything before the digits is blank, with at least one blank where the sign would go. |
| `GoFormat.PadLeft` | error.go:83 | Right-alignment in a field never truncates. The padding is blanks and the argument ends the result. |
| `GoFormat.PadNumShape` | error.go:76-82 | `% 6d` is exactly 6 wide iff the number is below 100000. Otherwise it is one wider than its digits. It is blanks followed by the digits. |
| `GoFormat.BlankFieldNine` | error.go:83 | `% 9s` of `""` is nine blanks. |
| `GoFormat.Quote` | error.go:71 | `%q` starts and ends with a double quote and contains no newline. |
| `GoFormat.UnescapeEscape` | error.go:71 | The escaping of `%q` is lossless: unescaping gives the key back. |
| `GoFormat.QuotePlain` | error.go:71 | For a key made only of printable ASCII other than `"` and `\` (or bytes of 0x80 and above, which the model copies), `%q` is the key between double quotes. |
| `LineSplit.Split` | error.go:51 | The split has at least one line, and no line contains a newline. |
| `LineSplit.SplitJoin` | error.go:51 | Joining the lines with newlines gives back the input. |
| `LineSplit.JoinSplit` | error.go:51 | Splitting newline-free lines joined by newlines gives the lines back, so the split is the unique such decomposition. |
| `LineSplit.SplitLength` | error.go:51-54 | The lines, each counted as length + 1, add up to `len(Input) + 1`. |
| `LineSplit.JoinAt` | error.go:54-57 | Byte `c` of line `k` sits at offset `Start(k) + c` of the input. Offset `Start(k) + len(lines[k])` holds the newline that ended line `k`. |
| `LineSplit.StartIncreasing` | error.go:53-63 | Line starts increase by at least one per line, so the cumulative ends are increasing. |
| `TomlExamples.CompactExampleWithoutKey` | error.go:20-21 | Line 5, message `bad value`, no key gives `toml: line 5: bad value`. |
| `TomlExamples.CompactExampleWithKey` | error.go:23-24 | The same with key `a.b` gives `toml: line 5 (last key parsed 'a.b'): bad value`. |
| `TomlExamples.SplitExample` | error.go:51 | `"line1\nline2\nline3\n"` splits into four lines, the last one empty. |
| `TomlExamples.LocateExamples` | error.go:52-64 | For that input: offset 7 gives line 1 (`line2`), column 0, and offset 9 gives line 1, column 2. Offsets 0 and 100 give line 0, column 0. Offset 19 gives the empty last line. |
| `TomlExamples.KeyNoteExample` | error.go:71 | Key `x.y` is written as `; last key parsed was "x.y"`. |

## Left out

- `GoFormat.Quote`: bytes of 0x80 and above are copied unchanged. Go's `%q`
  decodes UTF-8. It writes an invalid byte as `\xHH` and a non-printable
  rune as `\u`/`\U`. Rune decoding is outside this byte-level model. ASCII
  bytes are escaped exactly as Go does.
- `fmt` is modelled only for the verbs the file uses with the arguments it
  passes. `% 6d` is modelled for non-negative numbers only, because every
  line number printed with it is at least 1.
- `Toml.LocateFrom`, `Toml.LocateAtStart`: `Line` and `Pos` are unbounded
  integers, not Go's 64-bit `int`. This misses one wrap-around. With
  `Pos = math.MinInt64`, line 0 is chosen while the cursor is 0.
  `Pos - 0 - 1` at error.go:57 then wraps to `math.MaxInt64`, so the
  `col < 0` clamp does not fire. `strings.Repeat(" ", col)` at error.go:83
  then panics or exhausts memory. The model clamps that column to 0 instead.
  The other sums cannot overflow: the cursor never exceeds `len(Input) + 1`,
  and on any line after the first `Pos` is larger than the cursor.
- The `strings.Builder` is a string value that each write reassigns.
  Allocation and growth are not modelled.
- The commented-out writes (error.go:67 and error.go:85-87) have no behaviour.
  The Clang/Rust sample output in the comment at error.go:27-44 is
  documentation only.
- Building a `DecodeError` is the decoder's job and is not part of this
  model. Dispatch through Go's `error` interface is not modelled either.
- `CaretAlignment`, `ExtendedCaretUnderByte`: alignment is stated only for
  inputs of fewer than 100000 lines. Beyond that `% 6d` widens and the code's
  fixed 9-column offset leaves the caret to the left of its byte.

/** The TOML decoder's error value and its two renderings (error.go). */
module Toml {
  import opened GoFormat
  import opened LineSplit

  /** What the decoder knows at the point of failure. `line` is the decoder's own
      1-based line count, `pos` a byte offset into `input`; `lastKey` and
      `input` may be empty. */
  datatype DecodeError = DecodeError(
    message: string,
    line: int,
    pos: int,
    lastKey: string,
    input: string)

  // ---------------------------------------------------------------------------
  // Error(): the one-line rendering

  /** Starts with "toml: line " and the stored line number, ends with the message. */
  function Error(de: DecodeError): (r: string)
    ensures var n := 11 + |Dec(de.line)|;
      n + 2 + |de.message| <= |r|
      && r[..n] == "toml: line " + Dec(de.line)
      && r[|r| - |de.message|..] == de.message
  {
    if de.lastKey == "" then
      "toml: line " + Dec(de.line) + ": " + de.message
    else
      "toml: line " + Dec(de.line) + " (last key parsed '" + de.lastKey + "'): " + de.message
  }

  /** The compact text is "toml: line ", the stored line number, then either ": "
      and the message (no key) or " (last key parsed '<key>'): " and the message.
      The number is followed by a byte that no `%d` rendering contains. */
  lemma CompactLayout(de: DecodeError)
    ensures var r := Error(de);
      var n := 11 + |Dec(de.line)|;
      var tail := if de.lastKey == "" then "" else " (last key parsed '" + de.lastKey + "')";
      n < |r|
      && (forall i :: 11 <= i < n ==> IsDigit(r[i]) || r[i] == '-')
      && (r[n] == ':' || r[n] == ' ')
      && r[n..] == tail + ": " + de.message
      && (r[n] == ':' <==> de.lastKey == "")
  {
    var r := Error(de);
    var d := Dec(de.line);
    forall i | 11 <= i < 11 + |d|
      ensures IsDigit(r[i]) || r[i] == '-'
    {
      assert r[i] == r[..11 + |d|][i] == d[i - 11];
    }
  }

  /** The compact text determines the stored line number and whether a key was
      present, and without a key it determines the message too. */
  lemma CompactDetermines(a: DecodeError, b: DecodeError)
    requires Error(a) == Error(b)
    ensures a.line == b.line
    ensures a.lastKey == "" <==> b.lastKey == ""
    ensures a.lastKey == "" ==> a.message == b.message
  {
    var r := Error(a);
    var da, db := Dec(a.line), Dec(b.line);
    assert |da| == |db| by {
      CompactLayout(a);
      CompactLayout(b);
      if |da| < |db| {
        assert false;
      } else if |db| < |da| {
        assert false;
      }
    }
    assert da == r[..11 + |da|][11..] == db;
    CompactLayout(a);
    CompactLayout(b);
    DecInjective(a.line, b.line);
    if a.lastKey == "" && b.lastKey == "" {
      assert r[11 + |da| + 2..] == a.message == b.message;
    }
  }

  // ---------------------------------------------------------------------------
  // ExtError(): offset resolution

  /** A 0-based line index into the split input and a byte column within it. */
  datatype Location = Location(line: nat, col: nat)

  function Clamp(x: int): nat
  {
    if x < 0 then 0 else x
  }

  /** The walk over the lines from index i on: the first line whose end (newline
      included) reaches offset p is chosen, with the column p - start - 1
      raised to 0 if negative; when no line reaches p the answer is line 0,
      column 0. */
  function LocateFrom(lines: seq<string>, i: nat, p: int): (r: Location)
    requires i <= |lines|
    ensures 1 <= |lines| ==> r.line < |lines| && r.col <= |lines[r.line]|
    ensures r == Location(0, 0) || i <= r.line
    decreases |lines| - i
  {
    if i == |lines| then Location(0, 0)
    else if p <= End(lines, i) then Location(i, Clamp(p - Start(lines, i) - 1))
    else LocateFrom(lines, i + 1, p)
  }

  function Locate(lines: seq<string>, p: int): Location
  {
    LocateFrom(lines, 0, p)
  }

  lemma {:induction false} LocateFromFirst(lines: seq<string>, i: nat, p: int)
    requires i <= |lines|
    requires forall j :: 0 <= j < i ==> End(lines, j) < p
    ensures var r := LocateFrom(lines, i, p);
      if exists k :: 0 <= k < |lines| && p <= End(lines, k) then
        r.line < |lines| && p <= End(lines, r.line)
        && (forall j :: 0 <= j < r.line ==> End(lines, j) < p)
        && r.col == Clamp(p - Start(lines, r.line) - 1)
      else r == Location(0, 0)
    decreases |lines| - i
  {
    if i < |lines| && End(lines, i) < p {
      LocateFromFirst(lines, i + 1, p);
    }
  }

  /** The chosen line is the FIRST one whose end reaches the offset, and the
      column is the offset's distance past that line's start, less one, never
      negative; with no such line the result is line 0, column 0. */
  lemma LocateIsFirstReach(lines: seq<string>, p: int)
    ensures var r := Locate(lines, p);
      if exists k :: 0 <= k < |lines| && p <= End(lines, k) then
        r.line < |lines| && p <= End(lines, r.line)
        && (forall j :: 0 <= j < r.line ==> End(lines, j) < p)
        && r.col == Clamp(p - Start(lines, r.line) - 1)
      else r == Location(0, 0)
  {
    LocateFromFirst(lines, 0, p);
  }

  /** Some line of the split reaches p exactly when p <= |s| + 1; beyond that the
      walk falls back to line 0, column 0. */
  lemma ReachedIffWithinInput(s: string, p: int)
    ensures var lines := Split(s);
      (exists k :: 0 <= k < |lines| && p <= End(lines, k)) <==> p <= |s| + 1
    ensures |s| + 1 < p ==> Locate(Split(s), p) == Location(0, 0)
  {
    var lines := Split(s);
    var last := |lines| - 1;
    SplitLength(s);
    assert End(lines, last) == |s| + 1;
    forall k | 0 <= k < |lines|
      ensures End(lines, k) <= |s| + 1
    {
      StartIncreasing(lines, k + 1, |lines|);
    }
    LocateIsFirstReach(lines, p);
  }

  /** Offsets up to 1 resolve to line 0, column 0. */
  lemma LocateAtStart(lines: seq<string>, p: int)
    requires 1 <= |lines| && p <= 1
    ensures Locate(lines, p) == Location(0, 0)
  {
  }

  /** For an offset p inside the input, the chosen (line, column) is the position
      of byte p - 1: that byte is the line's byte at the column, or the newline
      that ends the line when the column is the line's length. */
  lemma LocatePointsAtByte(s: string, p: int)
    requires 1 <= p <= |s|
    ensures var lines := Split(s);
      var r := Locate(lines, p);
      r.line < |lines| && Start(lines, r.line) + r.col == p - 1
      && (if r.col < |lines[r.line]| then lines[r.line][r.col] == s[p - 1] else s[p - 1] == '\n')
  {
    var lines := Split(s);
    var r := Locate(lines, p);
    var last := |lines| - 1;
    SplitLength(s);
    LocateReaches(lines, p, last);
    if r.line > 0 {
      assert End(lines, r.line - 1) < p;
    }
    assert Start(lines, r.line) + r.col == p - 1;
    SplitJoin(s);
    JoinAt(lines, r.line, r.col);
  }

  /** The offset one past the input's last byte resolves to the end of the last line. */
  lemma LocatePastEnd(s: string)
    ensures var lines := Split(s);
      Locate(lines, |s| + 1) == Location(|lines| - 1, |lines[|lines| - 1]|)
  {
    var lines := Split(s);
    var last := |lines| - 1;
    var p := |s| + 1;
    var r := Locate(lines, p);
    SplitLength(s);
    LocateReaches(lines, p, last);
    if r.line < last {
      StartIncreasing(lines, r.line + 1, last);
      assert false;
    }
  }

  /** Given a line k that reaches p, the walk stops at k or earlier. */
  lemma LocateReaches(lines: seq<string>, p: int, k: nat)
    requires k < |lines| && p <= End(lines, k)
    ensures var r := Locate(lines, p);
      r.line <= k && p <= End(lines, r.line)
      && (forall j :: 0 <= j < r.line ==> End(lines, j) < p)
      && r.col == Clamp(p - Start(lines, r.line) - 1)
  {
    LocateIsFirstReach(lines, p);
  }

  // ---------------------------------------------------------------------------
  // ExtError(): the rendered text

  // Each `fmt.Fprintf` of ExtError appends one formatted piece to the builder;
  // the functions below are those pieces.

  /** `"toml: error: %s\n"` */
  function MessageLine(message: string): string
  {
    "toml: error: " + message + "\n"
  }

  /** `"             on line %d"` */
  function OnLine(n: int): string
  {
    "             on line " + Dec(n)
  }

  /** `"; last key parsed was %q"` */
  function KeyNote(key: string): string
  {
    "; last key parsed was " + Quote(key)
  }

  /** `"% 6d | %s\n"`: one numbered source line. */
  function SourceLine(n: nat, text: string): string
  {
    PadNum(n) + " | " + text + "\n"
  }

  /** `"% 9s%s^\n"` with "" and `col` blanks: the `^` in column 9 + col, then the newline. */
  function Caret(col: nat): (r: string)
    ensures |r| == 9 + col + 2 && r[9 + col] == '^' && r[9 + col + 1] == '\n'
    ensures forall i :: 0 <= i < 9 + col ==> r[i] == ' '
  {
    PadLeft("", 9) + Spaces(col) + "^\n"
  }

  /** Line k of the input, numbered k + 1. */
  function Row(lines: seq<string>, k: nat): string
    requires k < |lines|
  {
    SourceLine(k + 1, lines[k])
  }

  /** The two header lines and the blank line after them: starts with the
      message line, ends with two newlines. */
  function Header(de: DecodeError, line: nat): (r: string)
    ensures |MessageLine(de.message)| + 2 <= |r|
    ensures r[..|MessageLine(de.message)|] == "toml: error: " + de.message + "\n"
    ensures r[|r| - 2..] == "\n\n"
  {
    MessageLine(de.message) + OnLine(line + 1)
    + (if de.lastKey == "" then "" else KeyNote(de.lastKey))
    + "\n\n"
  }

  /** Up to two lines before the target line, then the target line. */
  function Context(lines: seq<string>, line: nat): (r: string)
    requires line < |lines|
    ensures |Row(lines, line)| <= |r| && r[|r| - |Row(lines, line)|..] == Row(lines, line)
    ensures line == 0 <==> |r| == |Row(lines, line)|
  {
    (if line > 1 then Row(lines, line - 2) else "")
    + (if line > 0 then Row(lines, line - 1) else "")
    + Row(lines, line)
  }

  /** Rows a .. b - 1, in ascending order. */
  function Rows(lines: seq<string>, a: nat, b: nat): string
    requires a <= b <= |lines|
    decreases b - a
  {
    if a == b then "" else Row(lines, a) + Rows(lines, a + 1, b)
  }

  /** What ExtError returns: the compact text for an empty input, otherwise a
      diagnostic that opens with the message line and closes with the caret. */
  function ExtendedText(de: DecodeError): (r: string)
    ensures de.input == "" ==> r == Error(de)
    ensures de.input != "" ==>
      |MessageLine(de.message)| + 2 <= |r|
      && r[..|MessageLine(de.message)|] == "toml: error: " + de.message + "\n"
      && r[|r| - 2..] == "^\n"
  {
    if de.input == "" then Error(de)
    else
      var lines := Split(de.input);
      var r := Locate(lines, de.pos);
      var header, caret := Header(de, r.line), Caret(r.col);
      Framed(header, Context(lines, r.line), caret, |MessageLine(de.message)|);
      assert caret[|caret| - 2..] == "^\n";
      header + Context(lines, r.line) + caret
  }

  /** A concatenation keeps the first part's prefix and the last part's two-byte end. */
  lemma Framed(h: string, m: string, k: string, n: nat)
    requires n <= |h| && 2 <= |k|
    ensures (h + m + k)[..n] == h[..n]
    ensures (h + m + k)[|h + m + k| - 2..] == k[|k| - 2..]
  {
  }

  method ExtError(de: DecodeError) returns (out: string)
    ensures de.input == "" ==> out == Error(de)
    ensures out == ExtendedText(de)
  {
    if de.input == "" {
      return Error(de);
    }

    var lines := Split(de.input);
    var line: nat, pos, col := 0, 0, 0;
    for i := 0 to |lines|
      invariant pos == Start(lines, i)
      invariant line == 0 && col == 0
      invariant Locate(lines, de.pos) == LocateFrom(lines, i, de.pos)
    {
      var ll := |lines[i]| + 1;
      if pos + ll >= de.pos {
        line := i;
        col := de.pos - pos - 1;
        if col < 0 {
          col := 0;
        }
        break;
      }
      pos := pos + ll;
    }
    assert Locate(lines, de.pos) == Location(line, col);
    assert ExtendedText(de) == Header(de, line) + Context(lines, line) + Caret(col);

    var b := "";
    EmptyLeft(MessageLine(de.message));
    b := b + MessageLine(de.message);
    b := b + OnLine(line + 1);
    if de.lastKey != "" {
      b := b + KeyNote(de.lastKey);
    } else {
      EmptyRight(b);
    }
    b := b + "\n\n";
    ghost var header := Header(de, line);
    assert b == header;

    ghost var two := if line > 1 then Row(lines, line - 2) else "";
    ghost var one := if line > 0 then Row(lines, line - 1) else "";
    if line > 1 {
      b := b + SourceLine(line - 1, lines[line - 2]);
    }
    if line > 0 {
      b := b + SourceLine(line, lines[line - 1]);
    }
    assert b == header + two + one by {
      EmptyRight(header);
      EmptyRight(header + two);
    }

    b := b + SourceLine(line + 1, lines[line]);
    b := b + Caret(col);

    assert b == header + Context(lines, line) + Caret(col) by {
      AssocFour(header, two, one, Row(lines, line));
    }
    out := b;
  }

  /** Regroupings of concatenations. ExtError's proof calls these at each
      append instead of asserting the equations inline, which keeps each
      proof obligation small. */
  lemma ConcatAssoc(a: string, b: string, c: string)
    ensures a + b + c == a + (b + c)
  {
  }

  lemma EmptyLeft(a: string)
    ensures "" + a == a
  {
  }

  lemma EmptyRight(a: string)
    ensures a + "" == a
  {
  }

  lemma AssocFour(a: string, b: string, c: string, d: string)
    ensures a + b + c + d == a + (b + c + d)
  {
  }

  lemma Regroup(a: string, b: string, c: string, d: string)
    ensures a + (b + c) + d == (a + b) + (c + d)
  {
  }


  // ---------------------------------------------------------------------------
  // Properties of the extended rendering

  /** The context block is rows line - min(line, 2) .. line, in ascending order,
      each numbered one more than its index. */
  lemma ContextRows(lines: seq<string>, line: nat)
    requires line < |lines|
    ensures Context(lines, line) == Rows(lines, line - (if line < 2 then line else 2), line + 1)
  {
    assert Rows(lines, line + 1, line + 1) == "";
    assert Rows(lines, line, line + 1) == Row(lines, line);
    if line > 0 {
      assert Rows(lines, line - 1, line + 1) == Row(lines, line - 1) + Row(lines, line);
    }
    if line > 1 {
      assert Rows(lines, line - 2, line + 1) == Row(lines, line - 2) + (Row(lines, line - 1) + Row(lines, line));
    }
  }

  /** The header is the message line, the "on line" line carrying the 1-based
      resolved line number and, only when a key was parsed, the quoted key, then
      a blank line; a key can never break the second line. */
  lemma HeaderLines(de: DecodeError, line: nat)
    ensures var second := OnLine(line + 1) + (if de.lastKey == "" then "" else KeyNote(de.lastKey));
      Header(de, line) == "toml: error: " + de.message + "\n" + second + "\n\n"
      && second[..21 + |Dec(line + 1)|] == "             on line " + Dec(line + 1)
      && '\n' !in second
      && (de.lastKey != "" <==> 21 + |Dec(line + 1)| < |second|)
  {
    var on := OnLine(line + 1);
    var key := if de.lastKey == "" then "" else KeyNote(de.lastKey);
    ConcatAssoc(MessageLine(de.message), on, key);
    assert on[..|on|] == on;
    assert '\n' !in on by {
      NoNewlineInOnLine(line + 1);
    }
    assert '\n' !in key by {
      if de.lastKey != "" {
        assert '\n' !in Quote(de.lastKey);
      }
    }
  }

  lemma NoNewlineInOnLine(n: int)
    ensures '\n' !in OnLine(n)
  {
    var d := Dec(n);
    assert forall i :: 0 <= i < |d| ==> d[i] != '\n';
  }

  /** When the line number fits the six-wide field (fewer than 100000 lines), a
      row's content starts in column 9, so the caret, in column 9 + col of the
      caret line, stands under byte col of the row's line. */
  lemma CaretAlignment(lines: seq<string>, line: nat, col: nat)
    requires line < |lines| && line + 1 < 100000
    ensures var row := Row(lines, line);
      var caret := Caret(col);
      |caret| == 9 + col + 2 && caret[9 + col] == '^' && caret[9 + col + 1] == '\n'
      && (forall i :: 0 <= i < 9 + col ==> caret[i] == ' ')
      && |row| == 9 + |lines[line]| + 1 && row[|row| - 1] == '\n'
      && (forall c :: 0 <= c < |lines[line]| ==> row[9 + c] == lines[line][c])
  {
    PadNumShape(line + 1);
    var row := Row(lines, line);
    assert row == (PadNum(line + 1) + " | ") + lines[line] + "\n";
  }

  /** With a non-empty input the extended text ends with the target line's row
      and then the caret line. */
  lemma ExtendedEndsWithTarget(de: DecodeError)
    requires de.input != ""
    ensures var lines := Split(de.input);
      var r := Locate(lines, de.pos);
      var tail := Row(lines, r.line) + Caret(r.col);
      var out := ExtendedText(de);
      |tail| <= |out| && out[|out| - |tail|..] == tail
  {
    var lines := Split(de.input);
    var r := Locate(lines, de.pos);
    var row := Row(lines, r.line);
    var caret := Caret(r.col);
    var two := if r.line > 1 then Row(lines, r.line - 2) else "";
    var one := if r.line > 0 then Row(lines, r.line - 1) else "";
    var front := Header(de, r.line) + (two + one);
    assert ExtendedText(de) == front + (row + caret) by {
      Regroup(Header(de, r.line), two + one, row, caret);
    }
    assert (front + (row + caret))[|front|..] == row + caret;
  }

  /** For an input of fewer than 100000 lines and an offset inside it, the caret
      line and the target row (with which the extended text ends, by
      ExtendedEndsWithTarget) put the caret under input byte pos - 1, or just
      past the row's text when that byte is the newline ending the line. */
  lemma ExtendedCaretUnderByte(de: DecodeError)
    requires de.input != "" && 1 <= de.pos <= |de.input|
    requires |Split(de.input)| < 100000
    ensures var lines := Split(de.input);
      var r := Locate(lines, de.pos);
      var row := Row(lines, r.line);
      var caret := Caret(r.col);
      caret[9 + r.col] == '^'
      && (r.col < |lines[r.line]| ==> row[9 + r.col] == de.input[de.pos - 1])
      && (r.col == |lines[r.line]| ==> row[9 + r.col] == '\n' && de.input[de.pos - 1] == '\n')
  {
    var lines := Split(de.input);
    var r := Locate(lines, de.pos);
    LocatePointsAtByte(de.input, de.pos);
    CaretAlignment(lines, r.line, r.col);
  }
}

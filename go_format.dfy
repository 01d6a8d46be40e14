/** The pieces of Go's `fmt` and `strings` packages that error.go relies on:
    `%d`, `% 6d`, `% 9s` of an empty string, `%q`, and `strings.Repeat(" ", n)`.
    Every char of a Dafny `string` stands for one byte of the Go string. */
module GoFormat {

  predicate IsDigit(c: char) { '0' <= c <= '9' }

  function DigitChar(d: nat): (c: char)
    requires d < 10
    ensures IsDigit(c) && c as int - '0' as int == d
  {
    (d + '0' as int) as char
  }

  /** Decimal digits of a natural number, most significant first. */
  function NatDec(n: nat): (s: string)
    ensures 1 <= |s|
    ensures forall i :: 0 <= i < |s| ==> IsDigit(s[i])
    ensures 1 < |s| ==> s[0] != '0'
  {
    if n < 10 then [DigitChar(n)] else NatDec(n / 10) + [DigitChar(n % 10)]
  }

  /** The number a string of decimal digits denotes (reads the digits back). */
  function DigitsValue(s: string): nat
  {
    if s == [] then 0
    else
      var d := s[|s| - 1] as int - '0' as int;
      DigitsValue(s[..|s| - 1]) * 10 + (if 0 <= d then d else 0)
  }

  lemma {:induction false} NatDecValue(n: nat)
    ensures DigitsValue(NatDec(n)) == n
  {
    if n >= 10 {
      NatDecValue(n / 10);
      var s := NatDec(n);
      assert s[..|s| - 1] == NatDec(n / 10);
    }
  }

  lemma NatDecInjective(a: nat, b: nat)
    ensures NatDec(a) == NatDec(b) ==> a == b
  {
    NatDecValue(a);
    NatDecValue(b);
  }

  function Pow10(k: nat): (r: nat)
    ensures 1 <= r
  {
    if k == 0 then 1 else 10 * Pow10(k - 1)
  }

  /** `NatDec(n)` has exactly k digits when `10^(k-1) <= n < 10^k`. */
  lemma {:induction false} NatDecLength(n: nat, k: nat)
    requires 1 <= k
    ensures n < Pow10(k) ==> |NatDec(n)| <= k
    ensures Pow10(k - 1) <= n ==> k <= |NatDec(n)|
  {
    if n >= 10 && k > 1 {
      NatDecLength(n / 10, k - 1);
    }
  }

  /** Go's `%d` of an `int`: a minus sign for negative values, then the digits. */
  function Dec(n: int): (s: string)
    ensures 1 <= |s|
    ensures forall i :: 0 <= i < |s| ==> IsDigit(s[i]) || s[i] == '-'
    ensures 0 <= n ==> s == NatDec(n)
    ensures n < 0 ==> s == "-" + NatDec(-n)
  {
    if n < 0 then "-" + NatDec(-n) else NatDec(n)
  }

  lemma DecInjective(a: int, b: int)
    ensures Dec(a) == Dec(b) ==> a == b
  {
    if Dec(a) == Dec(b) {
      if a < 0 && b < 0 {
        assert NatDec(-a) == Dec(a)[1..];
        NatDecInjective(-a, -b);
      } else if 0 <= a && 0 <= b {
        NatDecInjective(a, b);
      }
    }
  }

  /** `strings.Repeat(" ", n)`. */
  function Spaces(n: nat): (s: string)
    ensures |s| == n
    ensures forall i :: 0 <= i < n ==> s[i] == ' '
  {
    seq(n, _ => ' ')
  }

  /** A `%s`-style argument right-aligned in a field of the given width; never truncates. */
  function PadLeft(s: string, width: nat): (r: string)
    ensures |r| == if |s| < width then width else |s|
    ensures r[|r| - |s|..] == s
    ensures forall i :: 0 <= i < |r| - |s| ==> r[i] == ' '
  {
    Spaces(if |s| < width then width - |s| else 0) + s
  }

  /** Go's `% 6d` of a non-negative number: the space flag puts a blank where a sign
      would go, and the whole is right-aligned to width 6. */
  function PadNum(n: nat): (r: string)
    ensures 6 <= |r| && |NatDec(n)| < |r|
    ensures r[|r| - |NatDec(n)|..] == NatDec(n)
    ensures forall i :: 0 <= i < |r| - |NatDec(n)| ==> r[i] == ' '
  {
    PadLeft(" " + NatDec(n), 6)
  }

  /** `% 6d` is six wide up to 99999 and widens by one per extra digit, always
      keeping at least one blank in front of the digits. */
  lemma PadNumShape(n: nat)
    ensures var r := PadNum(n);
      var d := NatDec(n);
      (|r| == 6 <==> n < 100000)
      && |r| == (if |d| < 6 then 6 else |d| + 1)
      && r[|r| - |d|..] == d
      && (forall i :: 0 <= i < |r| - |d| ==> r[i] == ' ')
  {
    var d := NatDec(n);
    var r := PadNum(n);
    NatDecLength(n, 5);
    NatDecLength(n, 6);
    assert Pow10(5) == 100000 && Pow10(6) == 1000000;
    assert |r| == (if |d| < 6 then 6 else |d| + 1);
    assert r[|r| - |d|..] == d by {
      assert r[|r| - |d| - 1..] == " " + d;
    }
  }

  /** `% 9s` of the empty string. */
  lemma BlankFieldNine()
    ensures PadLeft("", 9) == "         "
  {
  }

  function HexDigit(d: nat): (c: char)
    requires d < 16
  {
    "0123456789abcdef"[d]
  }

  function HexValue(c: char): nat
  {
    if '0' <= c <= '9' then c as int - '0' as int
    else if 'a' <= c <= 'f' then c as int - 'a' as int + 10
    else 0
  }

  /** One byte as `strconv.Quote` writes it under its ASCII rules; a byte of 0x80 or
      above is copied unchanged. */
  function EscapeByte(c: char): (s: string)
    ensures 1 <= |s|
    ensures forall i :: 0 <= i < |s| ==> s[i] != '\n'
  {
    if c == '"' then "\\\""
    else if c == '\\' then "\\\\"
    else if c as int == 7 then "\\a"
    else if c as int == 8 then "\\b"
    else if c as int == 12 then "\\f"
    else if c == '\n' then "\\n"
    else if c == '\r' then "\\r"
    else if c == '\t' then "\\t"
    else if c as int == 11 then "\\v"
    else if c as int < 0x20 || c as int == 0x7f then
      "\\x" + [HexDigit(c as int / 16), HexDigit(c as int % 16)]
    else [c]
  }

  function Escape(k: string): (s: string)
    ensures forall i :: 0 <= i < |s| ==> s[i] != '\n'
  {
    if k == [] then [] else EscapeByte(k[0]) + Escape(k[1..])
  }

  /** Go's `%q` of a string: double quotes around the escaped bytes. */
  function Quote(k: string): (q: string)
    ensures 2 <= |q| && q[0] == '"' && q[|q| - 1] == '"'
    ensures '\n' !in q
  {
    "\"" + Escape(k) + "\""
  }

  /** Reads back what Escape writes. */
  function Unescape(s: string): string
  {
    if s == [] then []
    else if s[0] != '\\' || |s| == 1 then [s[0]] + Unescape(s[1..])
    else if s[1] == 'x' && 4 <= |s| then
      var v := HexValue(s[2]) * 16 + HexValue(s[3]);
      (if v < 0xD800 then [v as char] else []) + Unescape(s[4..])
    else [UnescapeLetter(s[1])] + Unescape(s[2..])
  }

  function UnescapeLetter(c: char): char
  {
    if c == 'a' then 7 as char
    else if c == 'b' then 8 as char
    else if c == 'f' then 12 as char
    else if c == 'n' then '\n'
    else if c == 'r' then '\r'
    else if c == 't' then '\t'
    else if c == 'v' then 11 as char
    else c
  }

  lemma UnescapeByte(c: char, rest: string)
    ensures Unescape(EscapeByte(c) + rest) == [c] + Unescape(rest)
  {
    var e := EscapeByte(c);
    if |e| == 1 {
      assert (e + rest)[1..] == rest;
    } else if |e| == 2 {
      assert (e + rest)[2..] == rest;
    } else {
      assert (e + rest)[4..] == rest;
      assert HexValue(e[2]) == c as int / 16 && HexValue(e[3]) == c as int % 16 by {
        HexRoundTrip(c as int / 16);
        HexRoundTrip(c as int % 16);
      }
    }
  }

  lemma HexRoundTrip(d: nat)
    requires d < 16
    ensures HexValue(HexDigit(d)) == d
  {
  }

  /** The escaping is lossless: the key can be read back from the quoted text. */
  lemma {:induction false} UnescapeEscape(k: string)
    ensures Unescape(Escape(k)) == k
  {
    if k != [] {
      UnescapeByte(k[0], Escape(k[1..]));
      UnescapeEscape(k[1..]);
    }
  }

  /** A byte `%q` writes unchanged: printable ASCII other than the quote and the
      backslash, or any byte of 0x80 and above. */
  predicate Plain(c: char)
  {
    (' ' <= c <= '~' && c != '"' && c != '\\') || 0x80 <= c as int
  }

  /** For a key of plain bytes `%q` just adds the surrounding double quotes. */
  lemma {:induction false} QuotePlain(k: string)
    requires forall i :: 0 <= i < |k| ==> Plain(k[i])
    ensures Quote(k) == "\"" + k + "\""
  {
    EscapePlain(k);
  }

  lemma {:induction false} EscapePlain(k: string)
    requires forall i :: 0 <= i < |k| ==> Plain(k[i])
    ensures Escape(k) == k
  {
    if k != [] {
      EscapePlain(k[1..]);
      assert k == [k[0]] + k[1..];
    }
  }
}

/**
 * Text formats the core relies on: splitting a list on one separator
 * character (Go's `strings.Split` with a one-character separator), rendering
 * a natural number in base 10 or in upper-case base 16 (`strconv.FormatInt`,
 * `strings.ToUpper(fmt.Sprintf("%x", ...))`), and spreadsheet A1 cell names
 * (column letters followed by a 1-based decimal row number).
 *
 * Each rendering comes with its inverse and a round-trip lemma.
 */
module Formats {
  import opened Common

  // ---------------------------------------------------------------------------
  // Splitting on a separator

  /** The pieces of `s` between occurrences of `sep`, in order; an empty string gives one empty piece. */
  function Split(s: string, sep: char): (parts: seq<string>)
    ensures |parts| >= 1
    ensures forall i :: 0 <= i < |parts| ==> sep !in parts[i]
    decreases |s|
  {
    if |s| == 0 then [""]
    else
      var rest := Split(s[1..], sep);
      if s[0] == sep then [""] + rest
      else [[s[0]] + rest[0]] + rest[1..]
  }

  /** The pieces glued back together with `sep` between neighbours. */
  function Join(parts: seq<string>, sep: char): string
  {
    if |parts| == 0 then ""
    else if |parts| == 1 then parts[0]
    else parts[0] + [sep] + Join(parts[1..], sep)
  }

  /** Splitting loses nothing: joining the pieces gives the input back. */
  lemma {:induction false} JoinSplit(s: string, sep: char)
    ensures Join(Split(s, sep), sep) == s
    decreases |s|
  {
    if |s| > 0 {
      var rest := Split(s[1..], sep);
      JoinSplit(s[1..], sep);
      if s[0] == sep {
        assert Join([""] + rest, sep) == "" + [sep] + Join(rest, sep);
      } else if |rest| > 1 {
        assert Join(rest, sep) == rest[0] + [sep] + Join(rest[1..], sep);
        assert Join([[s[0]] + rest[0]] + rest[1..], sep)
            == [s[0]] + rest[0] + [sep] + Join(rest[1..], sep);
      }
      assert s == [s[0]] + s[1..];
    }
  }

  /** A string without the separator is a single piece. */
  lemma {:induction false} SplitWithoutSeparator(a: string, sep: char)
    requires sep !in a
    ensures Split(a, sep) == [a]
    decreases |a|
  {
    if |a| > 0 {
      SplitWithoutSeparator(a[1..], sep);
      assert [a[0]] + a[1..] == a;
    }
  }

  /** A separator after a separator-free prefix closes the first piece. */
  lemma {:induction false} SplitAtFirstSeparator(a: string, sep: char, b: string)
    requires sep !in a
    ensures Split(a + [sep] + b, sep) == [a] + Split(b, sep)
    decreases |a|
  {
    var s := a + [sep] + b;
    if |a| == 0 {
      assert s[1..] == b;
    } else {
      assert s[1..] == a[1..] + [sep] + b;
      SplitAtFirstSeparator(a[1..], sep, b);
      assert [a[0]] + a[1..] == a;
    }
  }

  // ---------------------------------------------------------------------------
  // Numbers in base 10 and base 16

  /** The digit character for `d`: `0`-`9`, then upper-case `A`-`F`. */
  function Digit(d: nat): (c: char)
    requires d < 16
  {
    if d < 10 then ('0' as int + d) as char else ('A' as int + d - 10) as char
  }

  /** The value of a digit character; 16 for a character that is no digit of any base up to 16. */
  function DigitValue(c: char): nat
  {
    if '0' <= c <= '9' then c as int - '0' as int
    else if 'A' <= c <= 'F' then c as int - 'A' as int + 10
    else 16
  }

  /** Euclidean division facts for one digit step. */
  lemma DivStep(n: nat, base: nat)
    requires 2 <= base && n >= base
    ensures 0 < n / base < n
    ensures n % base < base
    ensures n == n / base * base + n % base
  {
  }

  lemma DigitRoundTrip(d: nat)
    requires d < 16
    ensures DigitValue(Digit(d)) == d
    ensures Digit(d) == '0' <==> d == 0
  {
  }

  /** `n` written in `base` with the most significant digit first and no leading zeros. */
  function Render(n: nat, base: nat): (s: string)
    requires 2 <= base <= 16
    ensures |s| >= 1
    ensures forall i :: 0 <= i < |s| ==> DigitValue(s[i]) < base
    decreases n
  {
    if n < base then
      DigitRoundTrip(n);
      [Digit(n)]
    else
      DivStep(n, base);
      DigitRoundTrip(n % base);
      Render(n / base, base) + [Digit(n % base)]
  }

  /** The value of a string of `base` digits, or None when some character is not such a digit. */
  function DigitsValue(s: string, base: nat): Option<nat>
    requires 2 <= base <= 16
    decreases |s|
  {
    if |s| == 0 then Some(0)
    else match DigitsValue(s[..|s| - 1], base)
      case None => None
      case Some(v) =>
        var d := DigitValue(s[|s| - 1]);
        if d < base then Some(v * base + d) else None
  }

  /** Reads back a non-empty string of `base` digits. */
  function ParseDigits(s: string, base: nat): Option<nat>
    requires 2 <= base <= 16
  {
    if |s| == 0 then None else DigitsValue(s, base)
  }

  /** Rendering and parsing are inverse: the rendered string reads back as the same number. */
  lemma {:induction false} RenderRoundTrip(n: nat, base: nat)
    requires 2 <= base <= 16
    ensures ParseDigits(Render(n, base), base) == Some(n)
    decreases n
  {
    var s := Render(n, base);
    if n < base {
      DigitRoundTrip(n);
      assert s == [Digit(n)];
      assert s[..0] == [];
      assert DigitsValue(s, base) == Some(0 * base + n);
    } else {
      DivStep(n, base);
      DigitRoundTrip(n % base);
      var prefix := Render(n / base, base);
      RenderRoundTrip(n / base, base);
      assert s == prefix + [Digit(n % base)];
      assert s[..|s| - 1] == prefix;
      assert DigitsValue(prefix, base) == Some(n / base);
      assert DigitValue(s[|s| - 1]) == n % base;
      assert DigitsValue(s, base) == Some(n / base * base + n % base);
    }
  }

  /** No padding: the first digit is `0` only when the number is 0, which renders as the single digit `0`. */
  lemma {:induction false} RenderNoLeadingZero(n: nat, base: nat)
    requires 2 <= base <= 16
    ensures Render(n, base)[0] == '0' <==> n == 0
    ensures n == 0 ==> Render(n, base) == "0"
    decreases n
  {
    if n < base {
      DigitRoundTrip(n);
    } else {
      DivStep(n, base);
      RenderNoLeadingZero(n / base, base);
      assert Render(n, base)[0] == Render(n / base, base)[0];
    }
  }

  function Pow(base: nat, k: nat): nat
  {
    if k == 0 then 1 else base * Pow(base, k - 1)
  }

  lemma MulMonotone(a: nat, b: nat, c: nat)
    requires a >= b
    ensures a * c >= b * c
  {
  }

  /** A number below `base^k` (k >= 1) needs at most k digits. */
  lemma {:induction false} RenderLengthBound(n: nat, base: nat, k: nat)
    requires 2 <= base <= 16 && k >= 1 && n < Pow(base, k)
    ensures |Render(n, base)| <= k
    decreases n
  {
    if n >= base {
      assert Pow(base, 1) == base;
      DivStep(n, base);
      var q := n / base;
      var p := Pow(base, k - 1);
      assert Pow(base, k) == p * base;
      assert q < p by {
        if q >= p {
          MulMonotone(q, p, base);
        }
      }
      RenderLengthBound(q, base, k - 1);
    }
  }

  /** A 32-bit value renders in upper-case hexadecimal as 1 to 8 digits. */
  lemma HexOfUint32Length(n: nat)
    requires n < 0x1_0000_0000
    ensures 1 <= |Render(n, 16)| <= 8
  {
    assert Pow(16, 2) == 256;
    assert Pow(16, 4) == 65536 by { assert Pow(16, 4) == 256 * Pow(16, 2); }
    assert Pow(16, 8) == 0x1_0000_0000 by {
      assert Pow(16, 6) == 256 * Pow(16, 4);
      assert Pow(16, 8) == 256 * Pow(16, 6);
    }
    RenderLengthBound(n, 16, 8);
  }

  // ---------------------------------------------------------------------------
  // A1 cell names

  /** A 1-based spreadsheet coordinate. */
  datatype Coord = Coord(col: nat, row: nat)

  predicate IsUpperLetter(c: char)
  {
    'A' <= c <= 'Z'
  }

  /** Column number as letters: 1 -> A, 26 -> Z, 27 -> AA (bijective base 26); 0 has no letters. */
  function ColumnLetters(col: nat): (s: string)
    ensures col >= 1 ==> |s| >= 1
    ensures forall i :: 0 <= i < |s| ==> IsUpperLetter(s[i])
    decreases col
  {
    if col == 0 then ""
    else ColumnLetters((col - 1) / 26) + [('A' as int + (col - 1) % 26) as char]
  }

  /** The column number written by a run of upper-case letters. */
  function LettersValue(s: string): nat
    requires forall i :: 0 <= i < |s| ==> IsUpperLetter(s[i])
    decreases |s|
  {
    if |s| == 0 then 0
    else
      var last := s[|s| - 1];
      assert IsUpperLetter(last);
      LettersValue(s[..|s| - 1]) * 26 + (last as int - 'A' as int + 1)
  }

  lemma {:induction false} ColumnLettersRoundTrip(col: nat)
    ensures LettersValue(ColumnLetters(col)) == col
    decreases col
  {
    if col > 0 {
      var prefix := ColumnLetters((col - 1) / 26);
      ColumnLettersRoundTrip((col - 1) / 26);
      var s := ColumnLetters(col);
      assert s[..|s| - 1] == prefix;
    }
  }

  /** The A1 name of the 1-based coordinate (col, row): column letters, then the decimal row. */
  function CellName(col: nat, row: nat): string
  {
    ColumnLetters(col) + Render(row, 10)
  }

  /** Length of the leading run of upper-case letters. */
  function LetterRun(s: string): (k: nat)
    ensures k <= |s|
    ensures forall i :: 0 <= i < k ==> IsUpperLetter(s[i])
    decreases |s|
  {
    if |s| == 0 || !IsUpperLetter(s[0]) then 0 else 1 + LetterRun(s[1..])
  }

  /** Reads an A1 name made of column letters and a positive decimal row; None for anything else. */
  function ParseCellName(name: string): Option<Coord>
  {
    var k := LetterRun(name);
    match ParseDigits(name[k..], 10)
    case None => None
    case Some(row) =>
      if k == 0 || row == 0 then None else Some(Coord(LettersValue(name[..k]), row))
  }

  lemma {:induction false} LetterRunOfConcat(a: string, b: string)
    requires forall i :: 0 <= i < |a| ==> IsUpperLetter(a[i])
    requires |b| == 0 || !IsUpperLetter(b[0])
    ensures LetterRun(a + b) == |a|
    decreases |a|
  {
    if |a| > 0 {
      assert (a + b)[1..] == a[1..] + b;
      LetterRunOfConcat(a[1..], b);
    } else {
      assert a + b == b;
    }
  }

  /** Naming and parsing are inverse on 1-based coordinates. */
  lemma CellNameRoundTrip(col: nat, row: nat)
    requires col >= 1 && row >= 1
    ensures ParseCellName(CellName(col, row)) == Some(Coord(col, row))
  {
    var letters := ColumnLetters(col);
    var digits := Render(row, 10);
    var name := CellName(col, row);
    assert DigitValue(digits[0]) < 10;
    LetterRunOfConcat(letters, digits);
    assert name[..|letters|] == letters;
    assert name[|letters|..] == digits;
    RenderRoundTrip(row, 10);
    ColumnLettersRoundTrip(col);
  }

  /** Different 1-based coordinates have different A1 names. */
  lemma CellNameInjective(c1: nat, r1: nat, c2: nat, r2: nat)
    requires c1 >= 1 && r1 >= 1 && c2 >= 1 && r2 >= 1
    requires CellName(c1, r1) == CellName(c2, r2)
    ensures c1 == c2 && r1 == r2
  {
    CellNameRoundTrip(c1, r1);
    CellNameRoundTrip(c2, r2);
  }

  /** Two A1 names: 1-based (col 1, row 1) is "A1", (col 2, row 3) is "B3", and "B3" reads back as (2, 3). */
  lemma CellNameExamples()
    ensures CellName(1, 1) == "A1"
    ensures CellName(2, 3) == "B3"
    ensures ParseCellName("B3") == Some(Coord(2, 3))
  {
    CellNameRoundTrip(2, 3);
  }
}

/** The JavaScript string primitives the core relies on: the character classes of regular
    expressions and `trim`, `split`, `join`, `String(n)` for integers and `parseInt`. */
module Text {
  import opened Wrappers

  /** The characters `.` in a JavaScript regular expression does not match. */
  predicate IsLineTerminator(c: char) {
    c == '\n' || c == '\r' || c == '\U{2028}' || c == '\U{2029}'
  }

  /** JavaScript white space and line terminators: the class `\s`, and what `trim` and
      `parseInt` skip. */
  predicate IsSpace(c: char) {
    || c == '\t' || c == '\n' || c == '\U{000B}' || c == '\U{000C}' || c == '\r' || c == ' '
    || c == '\U{00A0}' || c == '\U{1680}' || ('\U{2000}' <= c <= '\U{200A}')
    || c == '\U{2028}' || c == '\U{2029}' || c == '\U{202F}' || c == '\U{205F}'
    || c == '\U{3000}' || c == '\U{FEFF}'
  }

  predicate NoLineTerminator(s: string) {
    forall i :: 0 <= i < |s| ==> !IsLineTerminator(s[i])
  }

  /** `s.trim() === ""`: every character is white space. */
  predicate IsBlank(s: string) {
    forall i :: 0 <= i < |s| ==> IsSpace(s[i])
  }

  /** `xs.join(sep)`. */
  function Join(xs: seq<string>, sep: string): string
  {
    if |xs| == 0 then "" else if |xs| == 1 then xs[0] else xs[0] + sep + Join(xs[1..], sep)
  }

  /** `s.split(c)` for a one-character separator: never empty, `""` gives `[""]`. */
  function Split(s: string, c: char): (r: seq<string>)
    ensures |r| >= 1
  {
    if s == [] then [""]
    else if s[0] == c then [""] + Split(s[1..], c)
    else var rest := Split(s[1..], c); [[s[0]] + rest[0]] + rest[1..]
  }

  /** Joining the pieces of a split with the separator gives the string back. */
  lemma {:induction false} JoinSplit(s: string, c: char)
    ensures Join(Split(s, c), [c]) == s
  {
    if s == [] {
    } else if s[0] == c {
      JoinSplit(s[1..], c);
      assert Split(s, c) == [""] + Split(s[1..], c);
    } else {
      JoinSplit(s[1..], c);
      var rest := Split(s[1..], c);
      if |rest| == 1 {
      } else {
        assert Join(rest, [c]) == rest[0] + [c] + Join(rest[1..], [c]);
        assert ([[s[0]] + rest[0]] + rest[1..])[1..] == rest[1..];
      }
    }
  }

  lemma {:induction false} SplitPiece(a: string, c: char, rest: string)
    requires c !in a
    ensures Split(a + [c] + rest, c) == [a] + Split(rest, c)
  {
    if a == [] {
      assert a + [c] + rest == [c] + rest;
    } else {
      assert (a + [c] + rest)[1..] == a[1..] + [c] + rest;
      SplitPiece(a[1..], c, rest);
      assert [a[0]] + a[1..] == a;
    }
  }

  lemma {:induction false} SplitWhole(a: string, c: char)
    requires c !in a
    ensures Split(a, c) == [a]
  {
    if a != [] {
      SplitWhole(a[1..], c);
      assert [a[0]] + a[1..] == a;
    }
  }

  /** Splitting a join gives the pieces back when no piece holds the separator. */
  lemma {:induction false} SplitJoin(xs: seq<string>, c: char)
    requires |xs| >= 1
    requires forall i :: 0 <= i < |xs| ==> c !in xs[i]
    ensures Split(Join(xs, [c]), c) == xs
  {
    if |xs| == 1 {
      SplitWhole(xs[0], c);
    } else {
      SplitJoin(xs[1..], c);
      SplitPiece(xs[0], c, Join(xs[1..], [c]));
      assert [xs[0]] + xs[1..] == xs;
    }
  }

  /** `s.split(/\r?\n/)`: a line ends at `\n`, and a `\r` just before that `\n` goes with it. */
  function SplitLines(s: string): (r: seq<string>)
    ensures |r| >= 1
  {
    if s == [] then [""]
    else if s[0] == '\n' then [""] + SplitLines(s[1..])
    else if |s| >= 2 && s[0] == '\r' && s[1] == '\n' then [""] + SplitLines(s[2..])
    else var rest := SplitLines(s[1..]); [[s[0]] + rest[0]] + rest[1..]
  }

  predicate NoLineBreak(s: string) {
    '\n' !in s && '\r' !in s
  }

  lemma AppendNoLineBreak(a: string, b: string)
    requires NoLineBreak(a) && NoLineBreak(b)
    ensures NoLineBreak(a + b)
  {
    assert forall c :: c in a + b ==> c in a || c in b;
  }

  lemma {:induction false} JoinNoLineBreak(xs: seq<string>, sep: string)
    requires forall i :: 0 <= i < |xs| ==> NoLineBreak(xs[i])
    requires NoLineBreak(sep)
    ensures NoLineBreak(Join(xs, sep))
  {
    if |xs| >= 2 {
      JoinNoLineBreak(xs[1..], sep);
    }
  }

  /** A character in neither the pieces nor the separator is not in the joined text. */
  lemma {:induction false} JoinLacks(xs: seq<string>, sep: string, c: char)
    requires c !in sep
    requires forall i :: 0 <= i < |xs| ==> c !in xs[i]
    ensures c !in Join(xs, sep)
  {
    if |xs| >= 2 {
      JoinLacks(xs[1..], sep, c);
    }
  }

  lemma {:induction false} SplitLinesPiece(a: string, rest: string)
    requires NoLineBreak(a)
    ensures SplitLines(a + "\n" + rest) == [a] + SplitLines(rest)
  {
    if a == [] {
      assert a + "\n" + rest == "\n" + rest;
    } else {
      assert (a + "\n" + rest)[1..] == a[1..] + "\n" + rest;
      SplitLinesPiece(a[1..], rest);
      assert [a[0]] + a[1..] == a;
    }
  }

  lemma {:induction false} SplitLinesWhole(a: string)
    requires NoLineBreak(a)
    ensures SplitLines(a) == [a]
  {
    if a != [] {
      SplitLinesWhole(a[1..]);
      assert [a[0]] + a[1..] == a;
    }
  }

  /** Lines joined with `\n` split back into the same lines when none holds a line break. */
  lemma {:induction false} SplitLinesJoin(ls: seq<string>)
    requires |ls| >= 1
    requires forall i :: 0 <= i < |ls| ==> NoLineBreak(ls[i])
    ensures SplitLines(Join(ls, "\n")) == ls
  {
    if |ls| == 1 {
      SplitLinesWhole(ls[0]);
    } else {
      SplitLinesJoin(ls[1..]);
      SplitLinesPiece(ls[0], Join(ls[1..], "\n"));
      assert [ls[0]] + ls[1..] == ls;
    }
  }

  lemma {:induction false} SplitLinesPieceCRLF(a: string, rest: string)
    requires NoLineBreak(a)
    ensures SplitLines(a + "\r\n" + rest) == [a] + SplitLines(rest)
  {
    if a == [] {
      assert a + "\r\n" + rest == "\r\n" + rest;
      assert ("\r\n" + rest)[2..] == rest;
    } else {
      assert (a + "\r\n" + rest)[1..] == a[1..] + "\r\n" + rest;
      SplitLinesPieceCRLF(a[1..], rest);
      assert [a[0]] + a[1..] == a;
    }
  }

  /** Lines joined with `\r\n`, as a spreadsheet saves them, split back into the same lines:
      the `\r` goes with the line break and stays out of every line. */
  lemma {:induction false} SplitLinesJoinCRLF(ls: seq<string>)
    requires |ls| >= 1
    requires forall i :: 0 <= i < |ls| ==> NoLineBreak(ls[i])
    ensures SplitLines(Join(ls, "\r\n")) == ls
  {
    if |ls| == 1 {
      SplitLinesWhole(ls[0]);
    } else {
      SplitLinesJoinCRLF(ls[1..]);
      SplitLinesPieceCRLF(ls[0], Join(ls[1..], "\r\n"));
      assert [ls[0]] + ls[1..] == ls;
    }
  }

  /** The lines never hold a `\n`, and rejoining them with `\n` gives back every text
      that has no `\r`. */
  lemma {:induction false} JoinSplitLines(s: string)
    requires '\r' !in s
    ensures forall i :: 0 <= i < |SplitLines(s)| ==> '\n' !in SplitLines(s)[i]
    ensures Join(SplitLines(s), "\n") == s
  {
    if s == [] {
    } else if s[0] == '\n' {
      JoinSplitLines(s[1..]);
    } else {
      JoinSplitLines(s[1..]);
      var rest := SplitLines(s[1..]);
      if |rest| > 1 {
        assert Join(rest, "\n") == rest[0] + "\n" + Join(rest[1..], "\n");
        assert ([[s[0]] + rest[0]] + rest[1..])[1..] == rest[1..];
      }
    }
  }

  // ---- integers as text -------------------------------------------------------------

  function DigitChar(d: nat): char
    requires d < 10
  {
    "0123456789"[d]
  }

  /** The digit value of `c` in base `radix` (`0-9`, then letters of either case). */
  function DigitValue(c: char, radix: nat): Maybe<nat>
  {
    var v: int :=
      if '0' <= c <= '9' then c as int - '0' as int
      else if 'a' <= c <= 'z' then c as int - 'a' as int + 10
      else if 'A' <= c <= 'Z' then c as int - 'A' as int + 10
      else -1;
    if 0 <= v < radix then Some(v) else None
  }

  /** The length of the longest prefix of `s` made of base-`radix` digits. */
  function DigitRun(s: string, radix: nat): (n: nat)
    ensures n <= |s|
  {
    if s == [] || DigitValue(s[0], radix).None? then 0 else 1 + DigitRun(s[1..], radix)
  }

  /** The value of a digit string, most significant digit first. */
  function DigitsValue(ds: string, radix: nat): nat
  {
    if ds == [] then 0
    else
      var high := DigitsValue(ds[..|ds| - 1], radix);
      var d := DigitValue(ds[|ds| - 1], radix);
      MulNonNegative(high, radix);
      high * radix + (if d.Some? then d.value else 0)
  }

  lemma MulNonNegative(a: nat, b: nat)
    ensures a * b >= 0
  {
  }

  /** The decimal digits of `n`, as `String(n)` writes them. */
  function Decimal(n: nat): (s: string)
    ensures |s| >= 1
    ensures forall i :: 0 <= i < |s| ==> '0' <= s[i] <= '9'
  {
    if n < 10 then [DigitChar(n)] else Decimal(n / 10) + [DigitChar(n % 10)]
  }

  /** `String(i)` for an integer. */
  function IntText(i: int): string
  {
    if i < 0 then "-" + Decimal(-i) else Decimal(i)
  }

  /** The number of leading white-space characters. */
  function SpaceRun(s: string): (n: nat)
    ensures n <= |s|
  {
    if s == [] || !IsSpace(s[0]) then 0 else 1 + SpaceRun(s[1..])
  }

  /** `parseInt(s)`: skip leading white space, take an optional sign, read base 16 after
      `0x`/`0X` and base 10 otherwise, and stop at the first non-digit; `None` is `NaN`. */
  function ParseInt(s: string): Maybe<int>
  {
    Signed(s[SpaceRun(s)..])
  }

  /** `parseInt` once the white space is skipped: an optional sign, then the magnitude. */
  function Signed(t: string): Maybe<int>
  {
    var sign: int := if |t| > 0 && t[0] == '-' then -1 else 1;
    var u := if |t| > 0 && (t[0] == '-' || t[0] == '+') then t[1..] else t;
    match Magnitude(u)
    case None => None
    case Some(m) => Some(sign * m)
  }

  /** The unsigned part of `parseInt`: the longest digit prefix, in base 16 after `0x`/`0X`. */
  function Magnitude(u: string): Maybe<nat>
  {
    var hex := |u| >= 2 && u[0] == '0' && (u[1] == 'x' || u[1] == 'X');
    var radix: nat := if hex then 16 else 10;
    var w := if hex then u[2..] else u;
    var n := DigitRun(w, radix);
    if n == 0 then None else Some(DigitsValue(w[..n], radix))
  }

  lemma DecimalRead(n: nat)
    ensures DigitRun(Decimal(n), 10) == |Decimal(n)|
    ensures DigitsValue(Decimal(n), 10) == n
  {
    AllDigitsRun(Decimal(n));
    DecimalValue(n);
  }

  lemma {:induction false} DecimalValue(n: nat)
    ensures DigitsValue(Decimal(n), 10) == n
  {
    if n >= 10 {
      DigitCharValue(n % 10);
      DecimalValue(n / 10);
      DigitsValueSnoc(Decimal(n / 10), DigitChar(n % 10), 10);
    } else {
      DigitCharValue(n);
      DigitsValueSnoc([], DigitChar(n), 10);
      assert [] + [DigitChar(n)] == Decimal(n);
    }
  }

  lemma DigitsValueSnoc(ds: string, c: char, radix: nat)
    requires DigitValue(c, radix).Some?
    ensures DigitsValue(ds + [c], radix) == DigitsValue(ds, radix) * radix + DigitValue(c, radix).value
  {
    assert (ds + [c])[..|ds|] == ds;
  }

  lemma DigitCharValue(d: nat)
    requires d < 10
    ensures DigitValue(DigitChar(d), 10) == Some(d)
  {
  }

  lemma {:induction false} AllDigitsRun(s: string)
    requires forall i :: 0 <= i < |s| ==> '0' <= s[i] <= '9'
    ensures DigitRun(s, 10) == |s|
  {
    if s != [] {
      AllDigitsRun(s[1..]);
    }
  }

  /** `parseInt(String(i)) === i` for every integer. */
  lemma ParseIntText(i: int)
    ensures ParseInt(IntText(i)) == Some(i)
  {
    var n: nat := if i < 0 then -i else i;
    var d := Decimal(n);
    MagnitudeDecimal(n);
    var s := IntText(i);
    if i < 0 {
      assert s[0] == '-' && s[1..] == d;
    } else {
      assert '0' <= s[0] <= '9';
    }
    NoLeadingSpace(s);
  }

  lemma NoLeadingSpace(s: string)
    requires s != [] && (s[0] == '-' || '0' <= s[0] <= '9')
    ensures s[SpaceRun(s)..] == s
  {
  }

  /** The unsigned part reads back a decimal text. */
  lemma MagnitudeDecimal(n: nat)
    ensures Magnitude(Decimal(n)) == Some(n)
  {
    var d := Decimal(n);
    DecimalRead(n);
    assert d[..|d|] == d;
    if |d| >= 2 {
      assert d[1] != 'x' && d[1] != 'X';
    }
  }

  /** A decimal digit, in any base `parseInt` reads. */
  predicate IsDecimalDigit(c: char) {
    '0' <= c <= '9'
  }

  /** `parseInt` of a text with no decimal digit is `NaN`: nothing but digits can start a
      number, and the `0x` prefix itself starts with a digit. */
  lemma ParseIntNoDigit(s: string)
    requires forall i :: 0 <= i < |s| ==> !IsDecimalDigit(s[i])
    ensures ParseInt(s) == None
  {
    var t := s[SpaceRun(s)..];
    var u := if |t| > 0 && (t[0] == '-' || t[0] == '+') then t[1..] else t;
    if u != [] {
      assert u[0] in s;
      assert DigitValue(u[0], 10).None?;
    }
  }

  /** `parseInt("")` is `NaN`. */
  lemma ParseIntEmpty()
    ensures ParseInt("") == None
  {
    ParseIntNoDigit("");
  }

  /** `parseInt` stops at the first character that is not a digit: a number's text followed
      by such a character and anything after it reads as that number. After `"0"` the
      character must not be `x` or `X`, which would make it a hexadecimal prefix. */
  lemma ParseIntLeadingDigits(n: nat, rest: string)
    requires rest == [] || (!IsDecimalDigit(rest[0]) && (n != 0 || (rest[0] != 'x' && rest[0] != 'X')))
    ensures ParseInt(Decimal(n) + rest) == Some(n)
  {
    var s := Decimal(n) + rest;
    assert '0' <= s[0] <= '9' by { assert s[0] == Decimal(n)[0]; }
    NoLeadingSpace(s);
    MagnitudeLeadingDigits(n, rest);
    SignedUnsigned(s, n);
  }

  lemma SignedUnsigned(t: string, m: nat)
    requires t != [] && '0' <= t[0] <= '9'
    requires Magnitude(t) == Some(m)
    ensures Signed(t) == Some(m)
  {
  }

  lemma MagnitudeLeadingDigits(n: nat, rest: string)
    requires rest == [] || (!IsDecimalDigit(rest[0]) && (n != 0 || (rest[0] != 'x' && rest[0] != 'X')))
    ensures Magnitude(Decimal(n) + rest) == Some(n)
  {
    var d := Decimal(n);
    var s := d + rest;
    DecimalRead(n);
    NotHexPrefix(n, rest);
    DigitRunPrefix(d, rest);
    assert s[..|d|] == d;
  }

  lemma NotHexPrefix(n: nat, rest: string)
    requires rest == [] || (!IsDecimalDigit(rest[0]) && (n != 0 || (rest[0] != 'x' && rest[0] != 'X')))
    ensures var s := Decimal(n) + rest; !(|s| >= 2 && s[0] == '0' && (s[1] == 'x' || s[1] == 'X'))
  {
    var d := Decimal(n);
    var s := d + rest;
    if |d| >= 2 {
      assert s[1] == d[1];
    } else if rest != [] {
      assert s[1] == rest[0];
      if n != 0 {
        assert s[0] == d[0] == DigitChar(n);
      }
    }
  }

  lemma {:induction false} DigitRunPrefix(d: string, rest: string)
    requires DigitRun(d, 10) == |d|
    requires rest == [] || !IsDecimalDigit(rest[0])
    ensures DigitRun(d + rest, 10) == |d|
  {
    if d == [] {
      assert d + rest == rest;
    } else {
      assert (d + rest)[1..] == d[1..] + rest;
      DigitRunPrefix(d[1..], rest);
    }
  }

  /** Distinct naturals have distinct decimal texts. */
  lemma DecimalInjective(a: nat, b: nat)
    requires a != b
    ensures Decimal(a) != Decimal(b)
  {
    DecimalRead(a);
    DecimalRead(b);
  }
}

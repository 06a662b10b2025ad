/** The string operations of Python's `str` that the mail automation relies on,
    restricted to ASCII: `lower()`, `strip()`, the substring test `in`,
    `split(sep)` and `int()`; and Python's `bytes`, as sequences of octets. */
module Text {
  import opened Wrappers

  /** One element of a Python `bytes` value. */
  type Byte = b: int | 0 <= b < 256

  /** Every character is ASCII, as `str.encode('ascii')` requires. */
  predicate IsAscii(s: string) {
    forall i :: 0 <= i < |s| ==> s[i] as int < 128
  }

  /** `s.encode('ascii')`. */
  function AsciiBytes(s: string): (b: seq<Byte>)
    requires IsAscii(s)
    ensures |b| == |s| && forall i :: 0 <= i < |s| ==> b[i] == s[i] as int
  {
    seq(|s|, i requires 0 <= i < |s| => s[i] as int as Byte)
  }

  /** `c.lower()` for an ASCII character. */
  function LowerChar(c: char): char {
    if 'A' <= c <= 'Z' then (c as int + 32) as char else c
  }

  /** `s.lower()`, character by character. */
  function Lower(s: string): (r: string)
    ensures |r| == |s|
    ensures forall i :: 0 <= i < |s| ==> r[i] == LowerChar(s[i])
  {
    seq(|s|, i requires 0 <= i < |s| => LowerChar(s[i]))
  }

  /** Two strings are equal up to ASCII case. */
  predicate SameText(a: string, b: string) {
    Lower(a) == Lower(b)
  }

  /** The ASCII characters for which Python's `str.isspace()` holds; they are
      also what `\s` matches in a `re` pattern and what `strip()` removes. */
  predicate IsSpace(c: char) {
    var n := c as int;
    n == 32 || 9 <= n <= 13 || 28 <= n <= 31
  }

  predicate IsDigit(c: char) {
    '0' <= c <= '9'
  }

  function DigitValue(c: char): (d: nat)
    requires IsDigit(c)
    ensures d < 10
  {
    c as int - '0' as int
  }

  function DigitChar(d: nat): (c: char)
    requires d < 10
    ensures IsDigit(c) && DigitValue(c) == d
  {
    ('0' as int + d) as char
  }

  /** The ASCII characters `int()` skips around a numeral: the space and tab
      to carriage return. On ASCII text it uses the C library's notion of
      whitespace, which leaves out the separators 28 to 31 that
      `str.isspace()` admits. */
  predicate IsIntSpace(c: char) {
    var n := c as int;
    n == 32 || 9 <= n <= 13
  }

  /** Which whitespace a strip removes: that of `str.strip()` or that of
      `int()`. */
  datatype Blanks = StrBlanks | IntBlanks

  predicate IsBlank(c: char, ws: Blanks) {
    if ws == StrBlanks then IsSpace(c) else IsIntSpace(c)
  }

  /** The longest suffix of `s` that does not start with whitespace of kind
      `ws`; `s.lstrip()` for `StrBlanks`. */
  function StripStart(s: string, ws: Blanks): (r: string)
    ensures |r| <= |s| && r == s[|s| - |r|..]
    ensures forall i :: 0 <= i < |s| - |r| ==> IsBlank(s[i], ws)
    ensures r == [] || !IsBlank(r[0], ws)
  {
    if s != [] && IsBlank(s[0], ws) then StripStart(s[1..], ws) else s
  }

  /** The longest prefix of `s` that does not end with whitespace of kind
      `ws`; `s.rstrip()` for `StrBlanks`. */
  function StripEnd(s: string, ws: Blanks): (r: string)
    ensures |r| <= |s| && r == s[..|r|]
    ensures forall i :: |r| <= i < |s| ==> IsBlank(s[i], ws)
    ensures r == [] || !IsBlank(r[|r| - 1], ws)
  {
    if s != [] && IsBlank(s[|s| - 1], ws) then StripEnd(s[..|s| - 1], ws) else s
  }

  /** `s.strip()`. */
  function Strip(s: string): string {
    StripEnd(StripStart(s, StrBlanks), StrBlanks)
  }

  /** Lower-casing commutes with taking a slice. */
  lemma LowerSlice(s: string, i: nat, j: nat)
    requires i <= j <= |s|
    ensures Lower(s)[i..j] == Lower(s[i..j])
  {
  }

  /** Lower-casing commutes with concatenation. */
  lemma LowerConcat(a: string, b: string)
    ensures Lower(a + b) == Lower(a) + Lower(b)
  {
  }

  /** Text without upper-case letters is its own lower-case form. */
  lemma LowerWithoutCapitals(s: string)
    requires forall i :: 0 <= i < |s| ==> !('A' <= s[i] <= 'Z')
    ensures Lower(s) == s
  {
  }

  /** `s.startswith(prefix)`. */
  predicate StartsWith(s: string, prefix: string) {
    |prefix| <= |s| && s[..|prefix|] == prefix
  }

  /** `needle` occurs in `hay` starting at position `i`. */
  predicate OccursAt(needle: string, hay: string, i: nat) {
    i + |needle| <= |hay| && hay[i..i + |needle|] == needle
  }

  /** Python's `needle in hay` for strings. */
  predicate Occurs(needle: string, hay: string) {
    exists i: nat :: i <= |hay| && OccursAt(needle, hay, i)
  }

  /** `s.split(sep)`: the pieces between the occurrences of `sep`. */
  function Split(s: string, sep: char): (parts: seq<string>)
    ensures |parts| >= 1
    ensures forall k :: 0 <= k < |parts| ==> sep !in parts[k]
  {
    if s == [] then [""]
    else
      var rest := Split(s[1..], sep);
      if s[0] == sep then [""] + rest
      else [[s[0]] + rest[0]] + rest[1..]
  }

  /** `sep.join(parts)`. */
  function Join(parts: seq<string>, sep: char): string
    requires |parts| >= 1
  {
    if |parts| == 1 then parts[0] else parts[0] + [sep] + Join(parts[1..], sep)
  }

  /** Splitting and joining again gives back the original string. */
  lemma {:induction false} JoinSplit(s: string, sep: char)
    ensures Join(Split(s, sep), sep) == s
  {
    if s != [] {
      JoinSplit(s[1..], sep);
      var rest := Split(s[1..], sep);
      if s[0] == sep {
        assert Split(s, sep)[1..] == rest;
      } else {
        var parts := Split(s, sep);
        if |rest| == 1 {
          assert parts == [[s[0]] + rest[0]];
        } else {
          assert parts[1..] == rest[1..];
          assert Join(rest, sep) == rest[0] + [sep] + Join(rest[1..], sep);
        }
      }
    }
  }

  /** A string with exactly one separator splits into the text before it and
      the text after it. */
  lemma {:induction false} SplitAtOnlySeparator(a: string, b: string, sep: char)
    requires sep !in a && sep !in b
    ensures Split(a + [sep] + b, sep) == [a, b]
  {
    if a == [] {
      assert a + [sep] + b == [sep] + b;
      assert ([sep] + b)[1..] == b;
      SplitWithoutSeparator(b, sep);
    } else {
      assert (a + [sep] + b)[1..] == a[1..] + [sep] + b;
      SplitAtOnlySeparator(a[1..], b, sep);
      assert [a[0]] + a[1..] == a;
    }
  }

  /** Without an occurrence of `sep` there is one piece. */
  lemma {:induction false} SplitWithoutSeparator(s: string, sep: char)
    requires sep !in s
    ensures Split(s, sep) == [s]
  {
    if s != [] {
      SplitWithoutSeparator(s[1..], sep);
      assert [s[0]] + s[1..] == s;
    }
  }

  /** Every character of `s` is a decimal digit, and there is at least one. */
  predicate AllDigits(s: string) {
    |s| > 0 && forall i :: 0 <= i < |s| ==> IsDigit(s[i])
  }

  /** The value of a non-empty string of decimal digits. */
  function DigitsValue(s: string): nat
    requires AllDigits(s)
  {
    if |s| == 1 then DigitValue(s[0])
    else DigitsValue(s[..|s| - 1]) * 10 + DigitValue(s[|s| - 1])
  }

  /** `sys.int_info.default_max_str_digits`: `int()` refuses a numeral with
      more digits than this, leading zeros included. */
  const MAX_STR_DIGITS := 4300

  /** Python's `int(s)` for an ASCII string: surrounding whitespace, an
      optional sign and one to `MAX_STR_DIGITS` ASCII digits. (Underscores
      between digits, which `int` also accepts, never reach it here: its
      argument is one piece of a split on `_`.) */
  function ParseInt(s: string): Option<int> {
    Numeral(StripEnd(StripStart(s, IntBlanks), IntBlanks))
  }

  /** The value of an optional sign followed by one to `MAX_STR_DIGITS`
      digits. */
  function Numeral(t: string): Option<int> {
    var signed := |t| > 0 && (t[0] == '-' || t[0] == '+');
    var digits := if signed then t[1..] else t;
    if AllDigits(digits) && |digits| <= MAX_STR_DIGITS then
      var v: int := DigitsValue(digits);
      Some(if signed && t[0] == '-' then -v else v)
    else None
  }

  /** The decimal notation of `n`, as `str(n)` writes it. */
  function Decimal(n: nat): (s: string)
    ensures AllDigits(s)
  {
    if n < 10 then [DigitChar(n)] else Decimal(n / 10) + [DigitChar(n % 10)]
  }

  /** Reading a decimal numeral gives the number back. */
  lemma {:induction false} DecimalValue(n: nat)
    ensures DigitsValue(Decimal(n)) == n
  {
    if n >= 10 {
      DecimalValue(n / 10);
      var s := Decimal(n);
      assert s[..|s| - 1] == Decimal(n / 10);
    }
  }

  /** `int(str(n))` is `n` when `str(n)` is within the digit limit. */
  lemma ParseIntDecimal(n: nat)
    requires |Decimal(n)| <= MAX_STR_DIGITS
    ensures ParseInt(Decimal(n)) == Some(n)
  {
    ParseIntDigits(Decimal(n));
    DecimalValue(n);
  }

  /** Digits within the limit, without sign or whitespace, read as their
      value. */
  lemma ParseIntDigits(s: string)
    requires AllDigits(s) && |s| <= MAX_STR_DIGITS
    ensures ParseInt(s) == Some(DigitsValue(s))
  {
    assert IsDigit(s[0]) && IsDigit(s[|s| - 1]);
    Unstripped(s, IntBlanks);
    NumeralOfDigits(s);
  }

  function Pow10(k: nat): (p: nat)
    ensures p >= 1
  {
    if k == 0 then 1 else 10 * Pow10(k - 1)
  }

  /** A number below 10^k has at most k decimal digits. */
  lemma {:induction false} DecimalLength(n: nat, k: nat)
    requires 1 <= k && n < Pow10(k)
    ensures |Decimal(n)| <= k
  {
    if n >= 10 {
      DecimalLength(n / 10, k - 1);
    }
  }

  /** A number below 10^9 has at most nine digits. */
  lemma NineDigits(n: nat)
    requires n < 1_000_000_000
    ensures |Decimal(n)| <= 9
  {
    assert Pow10(9) == 1_000_000_000;
    DecimalLength(n, 9);
  }

  /** `int()` refuses a numeral of more than `MAX_STR_DIGITS` digits, even when
      they are all zeros. */
  lemma ParseIntDigitLimit(s: string)
    requires AllDigits(s) && |s| > MAX_STR_DIGITS
    ensures ParseInt(s).None?
  {
    Unstripped(s, IntBlanks);
    assert s[0] != '-' && s[0] != '+';
  }

  /** `int()` skips spaces, tabs and line breaks around the numeral. */
  lemma ParseIntSkipsSpace(before: string, digits: string, after: string)
    requires forall i :: 0 <= i < |before| ==> IsIntSpace(before[i])
    requires forall i :: 0 <= i < |after| ==> IsIntSpace(after[i])
    requires AllDigits(digits) && |digits| <= MAX_STR_DIGITS
    ensures ParseInt(before + digits + after) == Some(DigitsValue(digits))
  {
    var s := before + digits + after;
    assert s == before + (digits + after);
    assert !IsIntSpace(digits[0]) && (digits + after)[0] == digits[0];
    StripStartPrefix(before, digits + after, IntBlanks);
    assert !IsIntSpace(digits[|digits| - 1]);
    StripEndSuffix(digits, after, IntBlanks);
    assert StripEnd(StripStart(s, IntBlanks), IntBlanks) == digits;
    assert digits[0] != '-' && digits[0] != '+';
    NumeralOfDigits(digits);
  }

  /** Unsigned digits within the limit read as their value. */
  lemma NumeralOfDigits(digits: string)
    requires AllDigits(digits) && |digits| <= MAX_STR_DIGITS
    ensures Numeral(digits) == Some(DigitsValue(digits))
  {
    assert digits[0] != '-' && digits[0] != '+';
  }

  /** The separator characters 28 to 31 before a numeral make `int()` raise,
      although `str.strip()` would remove them: `int('\x1c3')` raises. */
  lemma ParseIntSeparatorRefused(c: char, digits: string)
    requires 28 <= c as int <= 31 && AllDigits(digits)
    ensures ParseInt([c] + digits).None?
  {
    var s := [c] + digits;
    assert s[|s| - 1] == digits[|digits| - 1];
    Unstripped(s, IntBlanks);
    assert !IsDigit(s[0]) && s[0] != '-' && s[0] != '+';
  }

  /** Text that neither starts nor ends with whitespace of kind `ws` is left
      as it is by stripping. */
  lemma Unstripped(s: string, ws: Blanks)
    requires s != [] && !IsBlank(s[0], ws) && !IsBlank(s[|s| - 1], ws)
    ensures StripEnd(StripStart(s, ws), ws) == s
  {
    StripStartPrefix([], s, ws);
    assert [] + s == s;
    StripEndSuffix(s, [], ws);
    assert s + [] == s;
  }

  lemma {:induction false} StripStartPrefix(before: string, rest: string, ws: Blanks)
    requires forall i :: 0 <= i < |before| ==> IsBlank(before[i], ws)
    requires rest == [] || !IsBlank(rest[0], ws)
    ensures StripStart(before + rest, ws) == rest
  {
    if before != [] {
      assert (before + rest)[1..] == before[1..] + rest;
      StripStartPrefix(before[1..], rest, ws);
    } else {
      assert before + rest == rest;
    }
  }

  lemma {:induction false} StripEndSuffix(rest: string, after: string, ws: Blanks)
    requires forall i :: 0 <= i < |after| ==> IsBlank(after[i], ws)
    requires rest == [] || !IsBlank(rest[|rest| - 1], ws)
    ensures StripEnd(rest + after, ws) == rest
  {
    if after != [] {
      assert (rest + after)[..|rest + after| - 1] == rest + after[..|after| - 1];
      StripEndSuffix(rest, after[..|after| - 1], ws);
    } else {
      assert rest + after == rest;
    }
  }
}

/** The pieces of Rust's standard library whose exact behaviour the launcher's
    selection and login code depends on: i32 arithmetic and casts, `str::trim`,
    `i32::from_str`, decimal `to_string`, and `str::from_utf8` validity. */
module StdModel {

  datatype Option<T> = None | Some(value: T)

  newtype byte = b: int | 0 <= b < 0x100
  newtype u32 = n: int | 0 <= n < 0x1_0000_0000

  const I32Min: int := -0x8000_0000
  const I32Max: int := 0x7fff_ffff
  const I32Modulus: int := 0x1_0000_0000
  /** usize on a 64-bit target. */
  const UsizeModulus: int := 0x1_0000_0000_0000_0000
  /** The longest a `Vec` can be: `isize::MAX`. */
  const IsizeMax: int := 0x7fff_ffff_ffff_ffff

  predicate InI32(x: int) {
    I32Min <= x <= I32Max
  }

  // ---------------------------------------------------------------------------
  // Integer widths

  /** Two's-complement wrap-around into i32: release-build `-` on i32, and
      `usize as i32`. */
  function WrapI32(x: int): (r: int)
    ensures InI32(r)
    ensures (x - r) % I32Modulus == 0
    ensures InI32(x) ==> r == x
  {
    var m := x % I32Modulus;
    if m <= I32Max then m else m - I32Modulus
  }

  /** `v as usize` for an i32 `v` on a 64-bit target: sign extension, so every
      negative value lands above any possible `Vec` length. */
  function I32AsUsize(v: int): (r: nat)
    requires InI32(v)
    ensures r < UsizeModulus
    ensures 0 <= v ==> r == v
    ensures v < 0 ==> r > IsizeMax
  {
    if 0 <= v then v else UsizeModulus + v
  }

  // ---------------------------------------------------------------------------
  // str::trim

  /** `char::is_whitespace`: the Unicode White_Space property. */
  predicate IsWhitespace(c: char) {
    var n := c as int;
    (0x09 <= n <= 0x0D) || n == 0x20 || n == 0x85 || n == 0xA0 || n == 0x1680
    || (0x2000 <= n <= 0x200A) || n == 0x2028 || n == 0x2029 || n == 0x202F
    || n == 0x205F || n == 0x3000
  }

  predicate AllWhitespace(s: string) {
    forall i :: 0 <= i < |s| ==> IsWhitespace(s[i])
  }

  function TrimStart(s: string): string {
    if s != [] && IsWhitespace(s[0]) then TrimStart(s[1..]) else s
  }

  function TrimEnd(s: string): string {
    if s != [] && IsWhitespace(s[|s| - 1]) then TrimEnd(s[..|s| - 1]) else s
  }

  /** `str::trim`: drop leading and trailing whitespace. */
  function Trim(s: string): string {
    TrimEnd(TrimStart(s))
  }

  /** A trimmed string: empty, or neither end is whitespace. */
  predicate IsTrimmed(s: string) {
    s == [] || (!IsWhitespace(s[0]) && !IsWhitespace(s[|s| - 1]))
  }

  lemma {:induction false} TrimEndPadded(core: string, post: string)
    requires AllWhitespace(post) && IsTrimmed(core)
    ensures TrimEnd(core + post) == core
  {
    if post != [] {
      var s := core + post;
      assert s[..|s| - 1] == core + post[..|post| - 1];
      TrimEndPadded(core, post[..|post| - 1]);
    } else {
      assert core + post == core;
    }
  }

  /** Trimming is exact: whatever whitespace surrounds a trimmed core, `trim`
      gives back exactly that core. */
  lemma {:induction false} TrimPadded(pre: string, core: string, post: string)
    requires AllWhitespace(pre) && AllWhitespace(post) && IsTrimmed(core)
    ensures Trim(pre + core + post) == core
  {
    assert pre + core + post == pre + (core + post);
    if core == [] {
      assert core + post == post;
      assert AllWhitespace(pre + post);
      TrimStartAllWhitespace(pre + post);
    } else {
      TrimStartKeepsCore(pre, core, post);
      TrimEndPadded(core, post);
    }
  }

  lemma {:induction false} TrimStartAllWhitespace(s: string)
    requires AllWhitespace(s)
    ensures TrimStart(s) == [] && TrimEnd([]) == []
  {
    if s != [] {
      TrimStartAllWhitespace(s[1..]);
    }
  }

  lemma {:induction false} TrimStartKeepsCore(pre: string, core: string, post: string)
    requires AllWhitespace(pre) && core != [] && !IsWhitespace(core[0])
    ensures TrimStart(pre + (core + post)) == core + post
  {
    if pre != [] {
      assert (pre + (core + post))[1..] == pre[1..] + (core + post);
      TrimStartKeepsCore(pre[1..], core, post);
    } else {
      assert pre + (core + post) == core + post;
    }
  }

  // ---------------------------------------------------------------------------
  // Decimal digits

  predicate IsAsciiDigit(c: char) {
    '0' <= c <= '9'
  }

  predicate AllDigits(s: string) {
    forall i :: 0 <= i < |s| ==> IsAsciiDigit(s[i])
  }

  function DigitValue(c: char): (d: nat)
    requires IsAsciiDigit(c)
    ensures d < 10
  {
    c as int - '0' as int
  }

  function DigitChar(d: nat): (c: char)
    requires d < 10
    ensures IsAsciiDigit(c) && DigitValue(c) == d
  {
    ('0' as int + d) as char
  }

  /** The number a string of decimal digits denotes (leading zeros allowed). */
  function DigitsValue(s: string): nat
    requires AllDigits(s)
  {
    if s == [] then 0 else DigitsValue(s[..|s| - 1]) * 10 + DigitValue(s[|s| - 1])
  }

  /** `to_string` of an unsigned integer: the canonical decimal numeral. */
  function Decimal(n: nat): (r: string)
    ensures r != [] && AllDigits(r)
    ensures r[0] == '0' ==> n == 0 && |r| == 1
  {
    if n < 10 then [DigitChar(n)] else Decimal(n / 10) + [DigitChar(n % 10)]
  }

  /** Reading a decimal numeral back gives the number it was printed from. */
  lemma {:induction false} DecimalValue(n: nat)
    ensures DigitsValue(Decimal(n)) == n
  {
    if n >= 10 {
      var s := Decimal(n);
      assert s[..|s| - 1] == Decimal(n / 10);
      DecimalValue(n / 10);
    }
  }

  lemma DigitsValueSnoc(s: string, c: char)
    requires AllDigits(s) && IsAsciiDigit(c)
    ensures AllDigits(s + [c])
    ensures DigitsValue(s + [c]) == DigitsValue(s) * 10 + DigitValue(c)
  {
    assert (s + [c])[..|s + [c]| - 1] == s;
  }

  /** Appending digits never makes the value smaller. */
  lemma {:induction false} DigitsValueGrows(q: string, r: string)
    requires AllDigits(q) && AllDigits(r)
    ensures AllDigits(q + r) && DigitsValue(q + r) >= DigitsValue(q)
  {
    if r != [] {
      var r' := r[..|r| - 1];
      assert q + r == (q + r') + [r[|r| - 1]];
      DigitsValueGrows(q, r');
      DigitsValueSnoc(q + r', r[|r| - 1]);
    } else {
      assert q + r == q;
    }
  }

  // ---------------------------------------------------------------------------
  // i32::from_str

  /** `i32::from_str` (radix 10): an optional `+` or `-`, then digits
      accumulated with overflow checks. A lone sign, an empty string, any
      other character, and any value outside i32 are errors. */
  function ParseI32(s: string): (r: Option<int>)
    ensures r.Some? ==> InI32(r.value)
  {
    if s == [] then None
    else if (s[0] == '+' || s[0] == '-') && |s| == 1 then None
    else if s[0] == '+' then Accumulate(s[1..], 0, false)
    else if s[0] == '-' then Accumulate(s[1..], 0, true)
    else Accumulate(s, 0, false)
  }

  /** The digit loop of `from_str_radix`: `checked_mul(10)` then
      `checked_add(d)` (or `checked_sub(d)` after a minus sign). */
  function Accumulate(digits: string, acc: int, negative: bool): (r: Option<int>)
    requires InI32(acc)
    ensures r.Some? ==> InI32(r.value)
  {
    if digits == [] then Some(acc)
    else if !IsAsciiDigit(digits[0]) then None
    else
      var shifted := acc * 10;
      var next := if negative then shifted - DigitValue(digits[0])
                  else shifted + DigitValue(digits[0]);
      if !InI32(shifted) || !InI32(next) then None
      else Accumulate(digits[1..], next, negative)
  }

  /** The numeral without its sign. */
  function Unsigned(s: string): string
    requires s != []
  {
    if s[0] == '+' || s[0] == '-' then s[1..] else s
  }

  function Signed(negative: bool, v: int): int {
    if negative then -v else v
  }

  /** A well-formed i32 numeral: optional sign, at least one digit, in range. */
  predicate IsI32Numeral(s: string) {
    s != [] && Unsigned(s) != [] && AllDigits(Unsigned(s))
    && InI32(Signed(s[0] == '-', DigitsValue(Unsigned(s))))
  }

  lemma {:induction false} AccumulateMeaning(p: string, d: string, negative: bool)
    requires AllDigits(p) && InI32(Signed(negative, DigitsValue(p)))
    ensures AllDigits(p + d) ==>
      Accumulate(d, Signed(negative, DigitsValue(p)), negative)
      == if InI32(Signed(negative, DigitsValue(p + d)))
         then Some(Signed(negative, DigitsValue(p + d))) else None
    ensures !AllDigits(d) ==> Accumulate(d, Signed(negative, DigitsValue(p)), negative) == None
    decreases |d|
  {
    var acc := Signed(negative, DigitsValue(p));
    if d == [] {
      assert p + d == p;
    } else if IsAsciiDigit(d[0]) {
      var p' := p + [d[0]];
      DigitsValueSnoc(p, d[0]);
      assert d == [d[0]] + d[1..];
      assert p' + d[1..] == p + d;
      var next := Signed(negative, DigitsValue(p'));
      assert next == if negative then acc * 10 - DigitValue(d[0]) else acc * 10 + DigitValue(d[0]);
      assert !InI32(acc * 10) ==> !InI32(next);
      if InI32(acc * 10) && InI32(next) {
        assert Accumulate(d, acc, negative) == Accumulate(d[1..], next, negative);
        AccumulateMeaning(p', d[1..], negative);
        assert !AllDigits(d) ==> !AllDigits(d[1..]);
      } else if AllDigits(p + d) {
        assert AllDigits(d[1..]) by {
          forall i | 0 <= i < |d| - 1 ensures IsAsciiDigit(d[1..][i]) {
            assert d[1..][i] == (p + d)[|p| + 1 + i];
          }
        }
        DigitsValueGrows(p', d[1..]);
        assert Accumulate(d, acc, negative) == None;
      } else {
        assert Accumulate(d, acc, negative) == None;
      }
    } else {
      assert (p + d)[|p|] == d[0];
    }
  }

  /** `i32::from_str` accepts exactly the well-formed i32 numerals, and
      yields the value the numeral denotes. */
  lemma ParseI32Meaning(s: string)
    ensures ParseI32(s).Some? <==> IsI32Numeral(s)
    ensures ParseI32(s).Some? ==>
      ParseI32(s).value == Signed(s[0] == '-', DigitsValue(Unsigned(s)))
  {
    if s != [] && !((s[0] == '+' || s[0] == '-') && |s| == 1) {
      var negative := s[0] == '-';
      assert Signed(negative, DigitsValue([])) == 0;
      AccumulateMeaning([], Unsigned(s), negative);
      assert [] + Unsigned(s) == Unsigned(s);
    }
  }

  /** Every i32 value that `to_string` prints for a non-negative number parses
      back to that number. */
  lemma ParseDecimal(n: nat)
    requires n <= I32Max
    ensures ParseI32(Decimal(n)) == Some(n)
  {
    ParseI32Meaning(Decimal(n));
    DecimalValue(n);
  }

  /** A decimal numeral typed on a line of its own (the line break and any
      other surrounding whitespace are trimmed) reads as that number. */
  lemma ParseTypedDecimal(pre: string, n: nat, post: string)
    requires n <= I32Max && AllWhitespace(pre) && AllWhitespace(post)
    ensures ParseI32(Trim(pre + Decimal(n) + post)) == Some(n)
  {
    TrimPadded(pre, Decimal(n), post);
    ParseDecimal(n);
  }

  // ---------------------------------------------------------------------------
  // str::from_utf8

  predicate IsContinuation(b: byte) {
    0x80 <= b <= 0xBF
  }

  /** Second-byte range of a three-byte sequence (excludes overlong forms and
      surrogates). */
  predicate SecondOfThree(lead: byte, b: byte) {
    if lead == 0xE0 then 0xA0 <= b <= 0xBF
    else if lead == 0xED then 0x80 <= b <= 0x9F
    else IsContinuation(b)
  }

  /** Second-byte range of a four-byte sequence (excludes overlong forms and
      code points above U+10FFFF). */
  predicate SecondOfFour(lead: byte, b: byte) {
    if lead == 0xF0 then 0x90 <= b <= 0xBF
    else if lead == 0xF4 then 0x80 <= b <= 0x8F
    else IsContinuation(b)
  }

  /** Well-formed UTF-8 (RFC 3629, section 4): what `str::from_utf8` accepts. */
  predicate ValidUtf8(s: seq<byte>)
    decreases |s|
  {
    if s == [] then true
    else if s[0] <= 0x7F then ValidUtf8(s[1..])
    else if 0xC2 <= s[0] <= 0xDF then
      |s| >= 2 && IsContinuation(s[1]) && ValidUtf8(s[2..])
    else if 0xE0 <= s[0] <= 0xEF then
      |s| >= 3 && SecondOfThree(s[0], s[1]) && IsContinuation(s[2]) && ValidUtf8(s[3..])
    else if 0xF0 <= s[0] <= 0xF4 then
      |s| >= 4 && SecondOfFour(s[0], s[1]) && IsContinuation(s[2]) && IsContinuation(s[3])
      && ValidUtf8(s[4..])
    else false
  }
}

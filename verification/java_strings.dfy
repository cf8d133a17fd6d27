/** The few pieces of Java and Commons Lang string handling the binding
    relies on: `Character.isWhitespace` (through `StringUtils.isNotBlank`),
    `String.trim`, and `Long.parseLong`. */
module JavaStrings {
  import opened Wrappers

  /** `Character.isWhitespace`: the ASCII controls TAB, LF, VT, FF, CR and
      FS..US, and the Unicode space, line and paragraph separators other than
      the non-breaking ones (U+00A0, U+2007, U+202F). */
  predicate IsWhitespace(c: char) {
    var n := c as int;
    (9 <= n <= 13) || (0x1C <= n <= 0x20)
    || n == 0x1680 || (0x2000 <= n <= 0x2006) || (0x2008 <= n <= 0x200A)
    || n == 0x2028 || n == 0x2029 || n == 0x205F || n == 0x3000
  }

  /** `StringUtils.isBlank` on a non-null string: empty or whitespace only. */
  predicate IsBlank(s: string) {
    forall i :: 0 <= i < |s| ==> IsWhitespace(s[i])
  }

  /** The characters `String.trim` removes: every code point up to U+0020. */
  predicate IsTrimmable(c: char) {
    c as int <= 0x20
  }

  /** `s` without its leading trimmable characters. */
  function TrimStart(s: string): (r: string)
    ensures |r| <= |s| && r == s[|s| - |r|..]
    ensures forall i :: 0 <= i < |s| - |r| ==> IsTrimmable(s[i])
    ensures r == [] || !IsTrimmable(r[0])
  {
    if s != [] && IsTrimmable(s[0]) then TrimStart(s[1..]) else s
  }

  /** `s` without its trailing trimmable characters. */
  function TrimEnd(s: string): (r: string)
    ensures |r| <= |s| && r == s[..|r|]
    ensures forall i :: |r| <= i < |s| ==> IsTrimmable(s[i])
    ensures r == [] || !IsTrimmable(r[|r| - 1])
  {
    if s != [] && IsTrimmable(s[|s| - 1]) then TrimEnd(s[..|s| - 1]) else s
  }

  /** Dropping a trimmable suffix from a trimmable-prefix-free tail of `s`
      leaves a slice of `s` with trimmable characters on both sides. */
  lemma TrimSlice(s: string, t: string, r: string)
    requires |t| <= |s| && t == s[|s| - |t|..]
    requires forall k :: 0 <= k < |s| - |t| ==> IsTrimmable(s[k])
    requires |r| <= |t| && r == t[..|r|]
    requires forall k :: |r| <= k < |t| ==> IsTrimmable(t[k])
    ensures var i := |s| - |t|;
      r == s[i..i + |r|] && forall k :: i + |r| <= k < |s| ==> IsTrimmable(s[k])
  {
    var i := |s| - |t|;
    forall k | i + |r| <= k < |s|
      ensures IsTrimmable(s[k])
    {
      assert s[k] == t[k - i];
    }
  }

  /** `String.trim`: the slice of `s` left after removing every trimmable
      character at its start and at its end. */
  function Trim(s: string): (r: string)
    ensures |r| <= |s|
    ensures r == [] || (!IsTrimmable(r[0]) && !IsTrimmable(r[|r| - 1]))
    ensures r == [] <==> forall i :: 0 <= i < |s| ==> IsTrimmable(s[i])
    ensures exists i, j ::
              && 0 <= i <= j <= |s| && r == s[i..j]
              && (forall k :: 0 <= k < i ==> IsTrimmable(s[k]))
              && (forall k :: j <= k < |s| ==> IsTrimmable(s[k]))
  {
    var t := TrimStart(s);
    var i := |s| - |t|;
    if t == [] then
      assert s[|s|..|s|] == [];
      []
    else
      var r := TrimEnd(t);
      TrimSlice(s, t, r);
      r
  }

  /** A string with nothing to trim at either end is its own trim, so trimming
      twice is trimming once. */
  lemma TrimIdempotent(s: string)
    ensures Trim(Trim(s)) == Trim(s)
  {
    var t := Trim(s);
    if t != [] {
      assert TrimStart(t) == t;
      assert TrimEnd(t) == t;
    }
  }

  const MinLong: int := -0x8000_0000_0000_0000
  const MaxLong: int := 0x7FFF_FFFF_FFFF_FFFF

  predicate IsDigit(c: char) {
    '0' <= c <= '9'
  }

  predicate AllDigits(s: string) {
    forall i :: 0 <= i < |s| ==> IsDigit(s[i])
  }

  function DigitValue(c: char): nat
    requires IsDigit(c)
  {
    (c as int) - ('0' as int)
  }

  function Digit(d: nat): (c: char)
    requires d < 10
    ensures IsDigit(c) && DigitValue(c) == d
  {
    ('0' as int + d) as char
  }

  /** The value of a decimal numeral, most significant digit first. */
  function DigitsValue(s: string): nat
    requires AllDigits(s)
  {
    if s == [] then 0 else DigitsValue(s[..|s| - 1]) * 10 + DigitValue(s[|s| - 1])
  }

  /** The syntax `Long.parseLong` accepts: an optional `-` or `+` followed by
      at least one decimal digit, leading zeros allowed. */
  predicate IsNumeral(s: string) {
    |s| > 0 && AllDigits(s[1..]) && (IsDigit(s[0]) || (|s| > 1 && (s[0] == '-' || s[0] == '+')))
  }

  /** The signed value a numeral denotes. */
  function NumeralValue(s: string): int
    requires IsNumeral(s)
  {
    match s[0]
    case '-' => -(DigitsValue(s[1..]) as int)
    case '+' => DigitsValue(s[1..])
    case _ => DigitValue(s[0]) * Pow10(|s| - 1) + DigitsValue(s[1..])
  }

  function Pow10(n: nat): nat {
    if n == 0 then 1 else 10 * Pow10(n - 1)
  }

  /** Reading a numeral from its first digit on agrees with reading it from
      its last digit back. */
  lemma {:induction false} DigitsValueFirst(s: string)
    requires AllDigits(s)
    ensures |s| > 0 ==> DigitsValue(s) == DigitValue(s[0]) * Pow10(|s| - 1) + DigitsValue(s[1..])
  {
    if |s| > 1 {
      var init := s[..|s| - 1];
      DigitsValueFirst(init);
      assert s[1..][..|s| - 2] == init[1..];
      calc {
        DigitsValue(s);
        DigitsValue(init) * 10 + DigitValue(s[|s| - 1]);
        (DigitValue(s[0]) * Pow10(|s| - 2) + DigitsValue(init[1..])) * 10 + DigitValue(s[|s| - 1]);
        DigitValue(s[0]) * Pow10(|s| - 1) + (DigitsValue(init[1..]) * 10 + DigitValue(s[|s| - 1]));
        DigitValue(s[0]) * Pow10(|s| - 1) + DigitsValue(s[1..]);
      }
    }
  }

  /** `Long.parseLong(s)`: an optional `-` or `+` followed by at least one
      decimal digit, whose value must fit in 64 bits; anything else (no
      digits, a blank, a decimal point, an overflowing value) is a
      `NumberFormatException`, here `None`. */
  function ParseLong(s: string): (r: Option<int>)
    ensures r.Some? <==> IsNumeral(s) && MinLong <= NumeralValue(s) <= MaxLong
    ensures r.Some? ==> r.value == NumeralValue(s)
    ensures r.Some? ==> MinLong <= r.value <= MaxLong
    ensures r.Some? ==> |s| > 0 && AllDigits(s[1..])
    ensures r.Some? ==> IsDigit(s[0]) || (|s| > 1 && (s[0] == '-' || s[0] == '+'))
    ensures r.Some? && s[0] != '-' ==> r.value >= 0
    ensures r.Some? && s[0] == '-' ==> r.value <= 0
  {
    if s == [] then None
    else
      var signed := s[0] == '-' || s[0] == '+';
      var digits := if signed then s[1..] else s;
      if digits == [] || !AllDigits(digits) then None
      else
        DigitsValueFirst(digits);
        var n: int := if s[0] == '-' then -(DigitsValue(digits) as int) else DigitsValue(digits);
        if MinLong <= n <= MaxLong then Some(n) else None
  }

  /** The decimal numeral of a natural number, without leading zeros. */
  function ShowNat(n: nat): (r: string)
    ensures r != [] && AllDigits(r)
    ensures DigitsValue(r) == n
    ensures |r| > 1 ==> r[0] != '0'
  {
    if n < 10 then [Digit(n)]
    else
      var r := ShowNat(n / 10) + [Digit(n % 10)];
      assert r[..|r| - 1] == ShowNat(n / 10);
      r
  }

  /** `Long.toString(n)`. */
  function ShowLong(n: int): string {
    if n < 0 then "-" + ShowNat(-n) else ShowNat(n)
  }

  /** Every 64-bit value written in decimal is read back by `Long.parseLong`. */
  lemma ParseLongShowLong(n: int)
    requires MinLong <= n <= MaxLong
    ensures ParseLong(ShowLong(n)) == Some(n)
  {
    var s := ShowLong(n);
    if n < 0 {
      assert s[1..] == ShowNat(-n);
    } else {
      assert s[0] != '-' && s[0] != '+';
    }
  }

  /** `z` zero digits. */
  function Zeros(z: nat): (r: string)
    ensures |r| == z && AllDigits(r)
  {
    seq(z, _ => '0')
  }

  /** Leading zeros do not change a numeral's value. */
  lemma {:induction false} DigitsValueLeadingZeros(z: nat, s: string)
    requires AllDigits(s)
    ensures AllDigits(Zeros(z) + s) && DigitsValue(Zeros(z) + s) == DigitsValue(s)
  {
    var zs := Zeros(z) + s;
    assert AllDigits(zs) by {
      forall i | 0 <= i < |zs| ensures IsDigit(zs[i]) {
        if i < z { assert zs[i] == Zeros(z)[i]; } else { assert zs[i] == s[i - z]; }
      }
    }
    if s == [] {
      assert zs == Zeros(z);
      if z > 0 {
        assert zs[..|zs| - 1] == Zeros(z - 1) + [];
        DigitsValueLeadingZeros(z - 1, []);
      }
    } else {
      var init := s[..|s| - 1];
      assert zs[..|zs| - 1] == Zeros(z) + init;
      DigitsValueLeadingZeros(z, init);
    }
  }

  /** `Long.parseLong` also accepts numerals `Long.toString` never writes: a
      leading `+` and any number of leading zeros. */
  lemma ParseLongPaddedNumerals(n: nat, z: nat)
    requires n <= MaxLong
    ensures ParseLong(Zeros(z) + ShowNat(n)) == Some(n)
    ensures ParseLong("+" + Zeros(z) + ShowNat(n)) == Some(n)
  {
    var digits := Zeros(z) + ShowNat(n);
    DigitsValueLeadingZeros(z, ShowNat(n));
    assert ("+" + digits)[1..] == digits;
    assert ("+" + Zeros(z) + ShowNat(n)) == "+" + digits;
  }

  /** A value padded with whitespace is not a number to `Long.parseLong`, even
      though it is not blank. */
  lemma ParseLongRejectsWhitespace(s: string, i: int)
    requires 0 <= i < |s| && IsWhitespace(s[i])
    ensures ParseLong(s) == None
  {
  }
}

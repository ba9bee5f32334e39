/** itoa of the user library (stdlib.c): digits are produced from the negated value, so that the
    most negative integer needs no special case. */
module Itoa {
  import opened Bits

  const TEXT_SIZE := 12

  predicate IsInt32(x: int) {
    -0x8000_0000 <= x < 0x8000_0000
  }

  predicate IsDigit(c: char) {
    '0' <= c <= '9'
  }

  function DigitOf(c: char): nat
    requires IsDigit(c)
  {
    c as int - '0' as int
  }

  /** Value of a string of decimal digits. */
  function Value(s: string): nat
    requires forall i :: 0 <= i < |s| ==> IsDigit(s[i])
  {
    if s == [] then 0 else 10 * Value(s[..|s| - 1]) + DigitOf(s[|s| - 1])
  }

  /** The canonical decimal form of n: digits only, at least one, no leading zero. */
  ghost predicate IsDecimal(s: string, n: nat) {
    && s != [] && (forall i :: 0 <= i < |s| ==> IsDigit(s[i]))
    && (|s| > 1 ==> s[0] != '0')
    && Value(s) == n
  }

  lemma {:induction false} DecimalPositive(s: string)
    requires s != [] && (forall i :: 0 <= i < |s| ==> IsDigit(s[i])) && s[0] != '0'
    ensures Value(s) > 0
    decreases |s|
  {
    if |s| > 1 { DecimalPositive(s[..|s| - 1]); }
  }

  /** There is only one such string. */
  lemma {:induction false} DecimalUnique(s: string, t: string, n: nat)
    requires IsDecimal(s, n) && IsDecimal(t, n)
    ensures s == t
    decreases |s|
  {
    var s', t' := s[..|s| - 1], t[..|t| - 1];
    assert s == s' + [s[|s| - 1]] && t == t' + [t[|t| - 1]];
    if |s| > 1 { DecimalPositive(s'); }
    if |t| > 1 { DecimalPositive(t'); }
    assert Value(s') == Value(t') && s[|s| - 1] == t[|t| - 1];
    if |s| > 1 {
      DecimalUnique(s', t', Value(s'));
    }
  }

  lemma {:induction false} ValuePrepend(c: char, s: string)
    requires IsDigit(c) && forall i :: 0 <= i < |s| ==> IsDigit(s[i])
    ensures Value([c] + s) == DigitOf(c) * Pow10(|s|) + Value(s)
    decreases |s|
  {
    if s == [] {
      assert ([c] + s)[..0] == [];
    } else {
      var k := |s| - 1;
      assert ([c] + s)[..k + 1] == [c] + s[..k];
      ValuePrepend(c, s[..k]);
      Regroup(DigitOf(c), Pow10(k), Value(s[..k]));
    }
  }

  lemma Regroup(d: int, p: int, v: int)
    ensures 10 * (d * p + v) == d * (10 * p) + 10 * v
  {
  }

  function Pow10(k: nat): (r: nat)
    ensures r >= 1
  {
    if k == 0 then 1 else 10 * Pow10(k - 1)
  }

  /** After the digits produced so far, what is left of the magnitude. */
  ghost predicate Produced(text: seq<char>, loc: nat, left: nat, n: nat) {
    && loc <= 11 && |text| == TEXT_SIZE
    && (forall i :: loc <= i < 11 ==> IsDigit(text[i]))
    && left * Pow10(11 - loc) + Value(text[loc..11]) == n
    && (left == 0 && loc < 11 ==> text[loc] != '0')
  }

  lemma ProduceStep(text: seq<char>, loc: nat, left: nat, n: nat, d: char)
    requires Produced(text, loc, left, n) && left > 0 && loc > 0
    requires IsDigit(d) && DigitOf(d) == left % 10
    ensures Produced(text[loc - 1 := d], loc - 1, left / 10, n)
  {
    var text', k := text[loc - 1 := d], 11 - loc;
    assert text'[loc - 1..11] == [d] + text[loc..11];
    ValuePrepend(d, text[loc..11]);
    Carry(left / 10, left % 10, Pow10(k));
    assert left == left / 10 * 10 + left % 10;
  }

  lemma Carry(q: int, r: int, p: int)
    ensures q * (10 * p) + r * p == (q * 10 + r) * p
  {
  }

  lemma Room(loc: nat, left: nat, n: nat, text: seq<char>)
    requires Produced(text, loc, left, n) && left > 0 && n <= 0x8000_0000
    ensures loc > 1
  {
    if loc <= 1 {
      assert Pow10(10) == 10_000_000_000 by { TenDigits(); }
      PowGrows(10, 11 - loc);
      AtLeast(left, Pow10(11 - loc));
      assert false;
    }
  }

  lemma TenDigits()
    ensures Pow10(10) == 10_000_000_000
  {
    assert Pow10(2) == 100;
    assert Pow10(4) == 10000;
    assert Pow10(6) == 1000000;
    assert Pow10(8) == 100000000;
  }

  lemma AtLeast(a: nat, p: nat)
    requires a > 0
    ensures a * p >= p
  {
  }

  lemma {:induction false} PowGrows(a: nat, b: nat)
    requires a <= b
    ensures Pow10(a) <= Pow10(b)
    decreases b
  {
    if a < b { PowGrows(a, b - 1); }
  }

  lemma Finished(text: seq<char>, at: nat, n: nat)
    requires Produced(text, at, 0, n) && (n > 0 ==> at < 11)
    ensures at < 11 ==> IsDecimal(text[at..11], n)
    ensures at == 11 ==> n == 0
  {
    if at == 11 { assert text[11..11] == []; }
  }

  /** Eleven characters would be too many digits for a 32-bit magnitude. */
  lemma {:induction false} Short(s: string, n: nat)
    requires IsDecimal(s, n) && n <= 0x8000_0000
    ensures |s| <= 10
  {
    if |s| > 10 {
      LeadingDigit(s);
      TenDigits();
      PowGrows(10, |s| - 1);
    }
  }

  lemma {:induction false} LeadingDigit(s: string)
    requires s != [] && (forall i :: 0 <= i < |s| ==> IsDigit(s[i])) && s[0] != '0'
    ensures Value(s) >= Pow10(|s| - 1)
    decreases |s|
  {
    if |s| > 1 { LeadingDigit(s[..|s| - 1]); }
  }

  /** itoa: text[loc..11] is the decimal form of the value, a sign first when it is negative, and
      loc never leaves the 12-character buffer. */
  method ConvertToText(value: int, text: array<char>) returns (loc: nat)
    requires text.Length == TEXT_SIZE && IsInt32(value)
    modifies text
    ensures loc < 11 && text[11] == '\0'
    ensures value >= 0 ==> IsDecimal(text[loc..11], value)
    ensures value < 0 ==> text[loc] == '-' && loc < 10 && IsDecimal(text[loc + 1..11], -value)
  {
    var v := value;
    var at: int := 11;
    text[11] := '\0';
    var neg := true;
    if v >= 0 {
      neg := false;
      v := -v;
    }
    ghost var n: nat := -v;
    assert text[..][11..11] == [];
    while v != 0
      invariant -(n as int) <= v <= 0 && text[11] == '\0'
      invariant 0 <= at <= 11 && Produced(text[..], at, -v, n)
      invariant v == 0 && n > 0 ==> at < 11
    {
      Room(at, -v, n, text[..]);
      var digit := ('0' as int - TruncMod(v, 10)) as char;
      ProduceStep(text[..], at, -v, n, digit);
      at := at - 1;
      text[at] := digit;
      v := TruncDiv(v, 10);
    }
    Finished(text[..], at, n);
    if at == 11 {
      at := at - 1;
      text[at] := '0';
      assert text[..][10..11] == "0" && Value("0") == 0;
    }
    assert IsDecimal(text[at..11], n) && text[at..11] == text[..][at..11];
    ghost var digits := text[at..11];
    if neg {
      Short(digits, n);
      at := at - 1;
      text[at] := '-';
      assert text[at + 1..11] == digits;
    }
    loc := at;
  }
}

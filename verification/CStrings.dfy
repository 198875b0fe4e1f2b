/** The C library function `strtoull` with base 0, as the suffix parsers call it: blanks, a
    sign, the prefixes of hexadecimal and octal numbers, and saturation. */
module CStrings {
  import opened Common
  import opened Numerals

  const ULLONG_MAX := 0xFFFF_FFFF_FFFF_FFFF

  /** Reduction of a result to 64 bits. */
  function Wrap(x: int): (y: nat)
    ensures y < TWO64
  {
    x % TWO64
  }

  lemma WrapSmall(x: int)
    requires 0 <= x < TWO64
    ensures Wrap(x) == x
  {}

  lemma WrapMultiple(x: int, k: int)
    ensures Wrap(x + k * TWO64) == Wrap(x)
  {}

  lemma WrapSplit(x: int)
    ensures x == Wrap(x) + x / TWO64 * TWO64
  {}

  lemma WrapTimes10(x: int)
    ensures Wrap(Wrap(x) * 10) == Wrap(x * 10)
  {
    hide Wrap;
    WrapSplit(x);
    WrapMultiple(Wrap(x) * 10, 10 * (x / TWO64));
  }

  lemma WrapPlus(x: int, y: int)
    ensures Wrap(Wrap(x) + y) == Wrap(x + y)
  {
    hide Wrap;
    WrapSplit(x);
    WrapMultiple(Wrap(x) + y, x / TWO64);
  }

  /** The character at position i of a C string; a NUL stands behind the last one. */
  function At(s: string, i: nat): char
    requires i <= |s|
  {
    if i < |s| then s[i] else '\0'
  }

  /** The content of a C string: no NUL inside. */
  predicate NulFree(s: string) {
    forall i :: 0 <= i < |s| ==> s[i] != '\0'
  }

  predicate IsSpace(c: char) {
    c == ' ' || '\t' <= c <= '\r'
  }

  /** The value of a character as a digit, 99 if it is none. */
  function DigitOf(c: char): nat {
    if '0' <= c <= '9' then c as int - '0' as int
    else if 'a' <= c <= 'z' then c as int - 'a' as int + 10
    else if 'A' <= c <= 'Z' then c as int - 'A' as int + 10
    else 99
  }

  function SkipSpace(s: string, i: nat): (j: nat)
    requires i <= |s|
    ensures i <= j <= |s|
    decreases |s| - i
  {
    if i < |s| && IsSpace(s[i]) then SkipSpace(s, i + 1) else i
  }

  /** End of the run of digits that starts at i. */
  function DigitsEnd(s: string, i: nat, base: nat): (j: nat)
    requires i <= |s|
    ensures i <= j <= |s|
    decreases |s| - i
  {
    if i < |s| && DigitOf(s[i]) < base then DigitsEnd(s, i + 1, base) else i
  }

  /** The number spelled by the digits from i up to j, however large. */
  function DigitsValue(s: string, i: nat, j: nat, base: nat): nat
    requires i <= j <= |s|
  {
    if i == j then 0 else DigitsValue(s, i, j - 1, base) * base + DigitOf(s[j - 1])
  }

  /** Result of a conversion: the value, where it ends, and whether it was out of range. */
  datatype Number = Number(value: nat, end: nat, erange: bool)

  function Clamp(negative: bool, v: nat, end: nat): Number {
    if v > ULLONG_MAX then Number(ULLONG_MAX, end, true)
    else Number(if negative then (TWO64 - v) % TWO64 else v, end, false)
  }

  predicate HexPrefix(s: string, i: nat) {
    i + 2 < |s| && s[i] == '0' && (s[i + 1] == 'x' || s[i + 1] == 'X') && DigitOf(s[i + 2]) < 16
  }

  function Unsigned(s: string, from: nat, i: nat, negative: bool): Number
    requires from <= i <= |s|
  {
    if HexPrefix(s, i) then
      var j := DigitsEnd(s, i + 2, 16);
      Clamp(negative, DigitsValue(s, i + 2, j, 16), j)
    else
      var base := if At(s, i) == '0' then 8 else 10;
      var j := DigitsEnd(s, i, base);
      if i == j then Number(0, from, false) else Clamp(negative, DigitsValue(s, i, j, base), j)
  }

  /** `strtoull(s + from, &end, 0)`. */
  function Strtoull(s: string, from: nat): (r: Number)
    requires from <= |s|
    ensures from <= r.end <= |s| && r.value <= ULLONG_MAX
  {
    var i := SkipSpace(s, from);
    if i < |s| && (s[i] == '-' || s[i] == '+') then Unsigned(s, from, i + 1, s[i] == '-') else Unsigned(s, from, i, false)
  }

  // ---------------------------------------------------------------- decimal numbers

  /** The digits d stand in s from position i on, and no further digit follows. */
  predicate StandsAt(s: string, i: nat, d: string) {
    && i + |d| <= |s| && s[i..i + |d|] == d
    && !IsDigit(At(s, i + |d|))
  }

  lemma {:induction false} RunEnds(s: string, i: nat, d: string, k: nat)
    requires AllDigits(d) && StandsAt(s, i, d) && k <= |d|
    ensures DigitsEnd(s, i + k, 10) == i + |d|
    decreases |d| - k
  {
    if k < |d| {
      assert s[i + k] == d[k];
      RunEnds(s, i, d, k + 1);
    }
  }

  lemma {:induction false} RunDenotes(s: string, i: nat, d: string, k: nat)
    requires AllDigits(d) && i + |d| <= |s| && s[i..i + |d|] == d && k <= |d|
    ensures DigitsValue(s, i, i + k, 10) == DecimalValue(d[..k])
  {
    if k > 0 {
      RunDenotes(s, i, d, k - 1);
      assert d[..k][..k - 1] == d[..k - 1];
      assert s[i + k - 1] == d[k - 1];
    }
  }

  /** A plain decimal number is read whole, and clamped if it is too large. */
  lemma ReadsDigits(s: string, i: nat, d: string)
    requires PlainDigits(d) && StandsAt(s, i, d)
    requires d == "0" ==> At(s, i + 1) != 'x' && At(s, i + 1) != 'X'
    ensures Strtoull(s, i) == Clamp(false, DecimalValue(d), i + |d|)
  {
    assert s[i] == d[0];
    assert SkipSpace(s, i) == i;
    assert !HexPrefix(s, i);
    if d[0] == '0' {
      ReadsZero(s, i, d);
    } else {
      assert d[..|d|] == d;
      RunEnds(s, i, d, 0);
      RunDenotes(s, i, d, |d|);
    }
  }

  lemma ReadsZero(s: string, i: nat, d: string)
    requires d == "0" && StandsAt(s, i, d)
    ensures DigitsEnd(s, i, 8) == i + 1 && DigitsValue(s, i, i + 1, 8) == 0 && DecimalValue(d) == 0
  {
    assert s[i] == d[0] && d[..0] == "";
  }

  /** It is read exactly if it is not. */
  lemma ReadsDecimal(s: string, i: nat, d: string)
    requires PlainDigits(d) && StandsAt(s, i, d) && DecimalValue(d) <= ULLONG_MAX
    requires d == "0" ==> At(s, i + 1) != 'x' && At(s, i + 1) != 'X'
    ensures Strtoull(s, i) == Number(DecimalValue(d), i + |d|, false)
  {
    hide Strtoull;
    ReadsDigits(s, i, d);
  }

  /** The text r ends a run of digits n before it. */
  predicate Ends(n: string, r: string) {
    r == "" || (!IsDigit(r[0]) && (n == "0" ==> r[0] != 'x' && r[0] != 'X'))
  }

  lemma ReadsFront(n: string, r: string)
    requires PlainDigits(n) && Ends(n, r)
    ensures Strtoull(n + r, 0) == Clamp(false, DecimalValue(n), |n|)
  {
    hide Strtoull;
    assert (n + r)[0..|n|] == n;
    assert r != "" ==> (n + r)[|n|] == r[0];
    ReadsDigits(n + r, 0, n);
  }

  /** Nothing that starts like a number stands at position i. */
  predicate NoNumberAt(s: string, i: nat)
    requires i <= |s|
  {
    var c := At(s, i);
    !IsDigit(c) && !IsSpace(c) && c != '-' && c != '+'
  }

  lemma ReadsNothing(s: string, i: nat)
    requires i <= |s| && NoNumberAt(s, i)
    ensures Strtoull(s, i).end == i
  {
    assert SkipSpace(s, i) == i && !HexPrefix(s, i);
    assert DigitsEnd(s, i, 10) == i;
  }
}

/** Model of `suffix_si_parse`, `suffix_binary_get` and `suffix_binary_parse` in
    nvme-cli/util/suffix.c. The locale's decimal point is a parameter of one character. */
module Suffix {
  import opened Common
  import opened Numerals
  import opened CStrings

  datatype Parsed = Value(v: nat) | Failed

  // ---------------------------------------------------------------- SI suffixes

  /** The table of SI suffixes, in the source's order. */
  const SI_SUFFIXES: seq<(nat, char)> := [
    (30, 'Q'), (27, 'R'), (24, 'Y'), (21, 'Z'), (18, 'E'), (15, 'P'), (12, 'T'), (9, 'G'), (6, 'M'), (3, 'k')]

  predicate IsSi(c: char) {
    c in {'Q', 'R', 'Y', 'Z', 'E', 'P', 'T', 'G', 'M', 'k'}
  }

  function Exponent(c: char): nat
    requires IsSi(c)
  {
    match c
    case 'Q' => 30 case 'R' => 27 case 'Y' => 24 case 'Z' => 21 case 'E' => 18
    case 'P' => 15 case 'T' => 12 case 'G' => 9 case 'M' => 6 case _ => 3
  }

  /** Model of `suffix_si_check`. */
  method SuffixSiCheck(c: char) returns (found: bool)
    ensures found <==> IsSi(c)
  {
    var i := 0;
    while i < |SI_SUFFIXES|
      invariant 0 <= i <= |SI_SUFFIXES|
      invariant forall k :: 0 <= k < i ==> SI_SUFFIXES[k].1 != c
    {
      if c == SI_SUFFIXES[i].1 {
        return true;
      }
      i := i + 1;
    }
    assert forall k :: 0 <= k < 10 ==> SI_SUFFIXES[k].1 != c;
    assert SI_SUFFIXES[0].1 != c && SI_SUFFIXES[1].1 != c && SI_SUFFIXES[2].1 != c && SI_SUFFIXES[3].1 != c && SI_SUFFIXES[4].1 != c;
    assert SI_SUFFIXES[5].1 != c && SI_SUFFIXES[6].1 != c && SI_SUFFIXES[7].1 != c && SI_SUFFIXES[8].1 != c && SI_SUFFIXES[9].1 != c;
    return false;
  }

  /** The integer and fractional part read so far, and where the suffix is expected. */
  datatype Parts = Parts(num: nat, frac: nat, fracLen: nat, end: nat) | NoNumber

  function Accept(n: Number, from: nat, stale: bool): bool {
    n.end != from && !(n.value == ULLONG_MAX && (n.erange || stale))
  }

  /** The digits after the decimal point at position `dot`. */
  function Fraction(str: string, num: nat, dot: nat, stale: bool): Parts
    requires dot < |str|
  {
    var f := Strtoull(str, dot + 1);
    if IsSi(At(str, dot + 1)) || !Accept(f, dot + 1, stale) then NoNumber
    else if f.end + 1 < |str| then NoNumber
    else Parts(num, f.value, f.end - (dot + 1), f.end)
  }

  /** What the parser has read when it starts looking for the suffix. */
  function ReadParts(str: string, point: char, stale: bool): Parts {
    var n := Strtoull(str, 0);
    if !Accept(n, 0, stale) then NoNumber
    else if n.end == |str| then Parts(n.value, 0, 0, n.end)
    else if IsSi(str[n.end]) then (if n.end + 1 == |str| then Parts(n.value, 0, 0, n.end) else NoNumber)
    else if str[n.end] != point then NoNumber
    else Fraction(str, n.value, n.end, stale)
  }

  /** The fraction's share of the result: scaled up, scaled down, or, when it has exactly as
      many digits as the exponent, dropped. */
  function ScaledFraction(frac: nat, fracLen: nat, exponent: nat): nat {
    if exponent > fracLen then Wrap(frac * Pow10(exponent - fracLen))
    else if exponent < fracLen then Quotient(frac, Pow10(fracLen - exponent))
    else 0
  }

  function SiParse(str: string, point: char, stale: bool): Parsed {
    match ReadParts(str, point, stale)
    case NoNumber => Failed
    case Parts(num, frac, fracLen, end) =>
      if end == |str| then Value(num)
      else if !IsSi(str[end]) then Failed
      else Value(Wrap(num * Pow10(Exponent(str[end])) + ScaledFraction(frac, fracLen, Exponent(str[end]))))
  }

  // ---------------------------------------------------------------- the SI parser

  /** The loop `num *= 10`, k times in 64 bits. */
  method ScaleUp(num: nat, k: nat) returns (r: nat)
    requires num < TWO64
    ensures r == Wrap(num * Pow10(k))
  {
    hide Wrap;
    r := num;
    WrapSmall(num);
    for j := 0 to k
      invariant r == Wrap(num * Pow10(j))
    {
      WrapTimes10(num * Pow10(j));
      assert num * Pow10(j) * 10 == num * Pow10(j + 1);
      r := Wrap(r * 10);
    }
  }

  lemma Regroup(a: nat, q: nat, r: nat)
    ensures a * (10 * q + r) == (10 * a) * q + a * r
  {}

  lemma DivTwice(f: nat, a: nat)
    requires a > 0
    ensures f / a / 10 == f / (10 * a)
  {
    var q, low := f / a / 10, f / a % 10;
    var r := f % a;
    assert f == a * (f / a) + r;
    assert f / a == 10 * q + low;
    Regroup(a, q, low);
    TimesGrows(low, 9, a);
    DivUnique(f, 10 * a, q, a * low + r);
  }

  /** The loop `frac /= 10`, k times. */
  method ScaleDown(frac: nat, k: nat) returns (r: nat)
    ensures r == frac / Pow10(k)
  {
    r := frac;
    for j := 0 to k
      invariant r == frac / Pow10(j)
    {
      DivTwice(frac, Pow10(j));
      r := r / 10;
    }
  }

  /** The search for the suffix at position `end`, and the scaling it calls for. */
  method ApplySuffix(str: string, num: nat, frac: nat, fracLen: nat, end: nat) returns (ret: int, val: nat)
    requires end <= |str| && num < TWO64 && frac < TWO64
    ensures end == |str| ==> ret == 0 && val == num
    ensures end < |str| && !IsSi(str[end]) ==> ret == -EINVAL
    ensures end < |str| && IsSi(str[end]) ==>
              ret == 0
              && val == Wrap(num * Pow10(Exponent(str[end])) + ScaledFraction(frac, fracLen, Exponent(str[end])))
  {
    val := 0;
    var i := 0;
    while i < |SI_SUFFIXES|
      invariant 0 <= i <= |SI_SUFFIXES|
      invariant forall k :: 0 <= k < i ==> At(str, end) != SI_SUFFIXES[k].1
    {
      var (exponent, letter) := SI_SUFFIXES[i];
      if At(str, end) == letter {
        val := ScaleBoth(num, frac, fracLen, exponent);
        TableMatches(i);
        return 0, val;
      }
      i := i + 1;
    }
    NotInTable(At(str, end));
    if end < |str| {
      return -EINVAL, 0;
    }
    return 0, num;
  }

  lemma TableMatches(i: nat)
    requires i < |SI_SUFFIXES|
    ensures IsSi(SI_SUFFIXES[i].1) && Exponent(SI_SUFFIXES[i].1) == SI_SUFFIXES[i].0 && SI_SUFFIXES[i].1 != '\0'
  {}

  lemma NotInTable(c: char)
    requires forall k :: 0 <= k < |SI_SUFFIXES| ==> c != SI_SUFFIXES[k].1
    ensures !IsSi(c)
  {
    assert SI_SUFFIXES[0].1 != c && SI_SUFFIXES[1].1 != c && SI_SUFFIXES[2].1 != c && SI_SUFFIXES[3].1 != c && SI_SUFFIXES[4].1 != c;
    assert SI_SUFFIXES[5].1 != c && SI_SUFFIXES[6].1 != c && SI_SUFFIXES[7].1 != c && SI_SUFFIXES[8].1 != c && SI_SUFFIXES[9].1 != c;
  }

  method ScaleBoth(num: nat, frac: nat, fracLen: nat, exponent: nat) returns (val: nat)
    requires num < TWO64 && frac < TWO64
    ensures val == Wrap(num * Pow10(exponent) + ScaledFraction(frac, fracLen, exponent))
  {
    hide Wrap;
    var n := ScaleUp(num, exponent);
    var f;
    if exponent > fracLen {
      f := ScaleUp(frac, exponent - fracLen);
    } else if exponent < fracLen {
      f := ScaleDown(frac, fracLen - exponent);
    } else {
      f := 0;
    }
    WrapPlus(num * Pow10(exponent), f);
    val := Wrap(n + f);
  }

  /** Model of `suffix_si_parse`. `stale` says that errno held ERANGE before the call. */
  method SuffixSiParse(str: string, point: char, stale: bool) returns (ret: int, val: nat)
    requires NulFree(str)
    ensures ret == 0 || ret == -EINVAL
    ensures SiParse(str, point, stale) == if ret == 0 then Value(val) else Failed
  {
    hide Strtoull, IsSi, Wrap, ScaledFraction, Exponent;
    var n := Strtoull(str, 0);
    var end := n.end;
    if end == 0 || (n.value == ULLONG_MAX && (n.erange || stale)) {
      return -EINVAL, 0;
    }
    if At(str, end) == '\0' {
      return 0, n.value;
    }
    var i := 0;
    var si := SuffixSiCheck(At(str, end));
    if !si {
      if At(str, end) != point {
        return -EINVAL, 0;
      }
      i := 1;
    }
    var frac, fracLen := 0, 0;
    si := SuffixSiCheck(At(str, end + i));
    if si {
      NulIsNoSuffix();
      if At(str, end + i + 1) != '\0' {
        return -EINVAL, 0;
      }
    } else {
      end := end + 1;
      var f := Strtoull(str, end);
      if f.end == end || (f.value == ULLONG_MAX && (f.erange || stale)) {
        return -EINVAL, 0;
      }
      if At(str, f.end) != '\0' && At(str, f.end + 1) != '\0' {
        return -EINVAL, 0;
      }
      frac, fracLen := f.value, f.end - end;
      end := f.end;
    }
    ret, val := ApplySuffix(str, n.value, frac, fracLen, end);
  }

  lemma NulIsNoSuffix()
    ensures !IsSi('\0')
  {}

  // ---------------------------------------------------------------- what the SI parser computes

  /** floor(n.f * 10^e), where the fraction f has l digits. */
  function Exact(n: nat, f: nat, l: nat, e: nat): nat {
    Quotient((n * Pow10(l) + f) * Pow10(e), Pow10(l))
  }

  /** Division of natural numbers; products of natural numbers are natural numbers. */
  function Quotient(a: int, d: nat): nat
    requires d > 0
  {
    if a < 0 then 0 else a / d
  }

  lemma Nonnegative(a: nat, b: nat)
    ensures a * b >= 0
  {}

  lemma {:induction false} Pow10Sum(a: nat, b: nat)
    ensures Pow10(a + b) == Pow10(a) * Pow10(b)
  {
    if b > 0 {
      Pow10Sum(a, b - 1);
      assert Pow10(a + b) == 10 * Pow10(a + (b - 1));
      assert 10 * (Pow10(a) * Pow10(b - 1)) == Pow10(a) * (10 * Pow10(b - 1));
    }
  }

  lemma ExactUp(n: nat, f: nat, l: nat, e: nat)
    requires e >= l
    ensures Exact(n, f, l, e) == n * Pow10(e) + f * Pow10(e - l)
  {
    hide Pow10;
    Pow10Sum(l, e - l);
    ExactUpProduct(n, f, Pow10(l), Pow10(e - l), Pow10(e));
  }

  lemma UpIdentity(n: nat, f: nat, a: nat, b: nat)
    ensures (n * a + f) * (a * b) == a * (n * (a * b) + f * b)
  {}

  lemma DownIdentity(n: nat, a: nat, b: nat, q: nat, r: nat)
    ensures (n * (a * b) + (b * q + r)) * a == (a * b) * (n * a + q) + r * a
  {}

  lemma Smaller(r: nat, b: nat, a: nat)
    requires a > 0 && r < b
    ensures 0 <= r * a < a * b
  {
    TimesGrows(r + 1, b, a);
  }

  lemma QuotientIs(x: int, d: nat, q: nat, r: nat)
    requires d > 0 && x == d * q + r && r < d
    ensures Quotient(x, d) == q
  {
    Nonnegative(d, q);
    DivUnique(x, d, q, r);
  }

  lemma ExactUpProduct(n: nat, f: nat, a: nat, b: nat, ab: nat)
    requires a > 0 && ab == a * b
    ensures Quotient((n * a + f) * ab, a) == n * ab + f * b
  {
    hide Quotient;
    UpIdentity(n, f, a, b);
    Nonnegative(n, ab);
    Nonnegative(f, b);
    QuotientIs((n * a + f) * ab, a, n * ab + f * b, 0);
  }

  lemma ExactDown(n: nat, f: nat, l: nat, e: nat)
    requires e < l
    ensures Exact(n, f, l, e) == n * Pow10(e) + f / Pow10(l - e)
  {
    hide Pow10;
    Pow10Sum(e, l - e);
    ExactDownProduct(n, f, Pow10(e), Pow10(l - e), Pow10(l));
  }

  lemma ExactDownProduct(n: nat, f: nat, a: nat, b: nat, ab: nat)
    requires a > 0 && b > 0 && ab == a * b
    ensures ab > 0 && Quotient((n * ab + f) * a, ab) == n * a + f / b
  {
    hide Quotient;
    var q, r := f / b, f % b;
    DownIdentity(n, a, b, q, r);
    Smaller(r, b, a);
    Nonnegative(n, a);
    QuotientIs((n * ab + f) * a, ab, n * a + q, r * a);
  }

  /** The text "n.f" followed by an SI suffix. */
  function Written(n: string, point: char, f: string, c: char): string {
    n + [point] + f + [c]
  }

  predicate PointOk(point: char) {
    !IsDigit(point) && !IsSi(point) && point != 'x' && point != 'X'
  }

  lemma SiIsNoDigit(c: char)
    requires IsSi(c)
    ensures !IsDigit(c) && c != 'x' && c != 'X'
  {}

  lemma DigitIsNoSi(c: char)
    requires IsDigit(c)
    ensures !IsSi(c)
  {}

  lemma WrittenParts(n: string, point: char, f: string, c: char)
    ensures var s := Written(n, point, f, c);
            && |s| == |n| + |f| + 2
            && s[0..|n|] == n && s[|n|] == point && s[|n| + 1..|n| + 1 + |f|] == f && s[|n| + 1 + |f|] == c
  {}

  lemma ReadsInteger(n: string, point: char, f: string, c: char)
    requires PlainDigits(n) && DecimalValue(n) <= ULLONG_MAX && PointOk(point)
    ensures Strtoull(Written(n, point, f, c), 0) == Number(DecimalValue(n), |n|, false)
  {
    hide Strtoull, Written, IsSi;
    WrittenParts(n, point, f, c);
    ReadsDecimal(Written(n, point, f, c), 0, n);
  }

  lemma ReadsWritten(n: string, point: char, f: string, c: char)
    requires PlainDigits(n) && DecimalValue(n) <= ULLONG_MAX && PointOk(point)
    requires PlainDigits(f) && DecimalValue(f) <= ULLONG_MAX && IsSi(c)
    ensures ReadParts(Written(n, point, f, c), point, false)
         == Parts(DecimalValue(n), DecimalValue(f), |f|, |n| + 1 + |f|)
  {
    hide Strtoull, Written, IsSi;
    var s := Written(n, point, f, c);
    WrittenParts(n, point, f, c);
    ReadsInteger(n, point, f, c);
    SiIsNoDigit(c);
    assert s[|n| + 1] == f[0];
    DigitIsNoSi(f[0]);
    ReadsDecimal(s, |n| + 1, f);
  }

  /** What the parser returns for "n.f" and a suffix, wrap-around included. */
  lemma SiParseWritten(n: string, point: char, f: string, c: char)
    requires PlainDigits(n) && DecimalValue(n) <= ULLONG_MAX && PointOk(point)
    requires PlainDigits(f) && DecimalValue(f) <= ULLONG_MAX && IsSi(c)
    ensures var e := Exponent(c);
            SiParse(Written(n, point, f, c), point, false)
            == Value(Wrap(if e != |f| then Exact(DecimalValue(n), DecimalValue(f), |f|, e) else DecimalValue(n) * Pow10(e)))
  {
    hide Written, IsSi, Exponent, ReadParts, Wrap, Pow10, Exact;
    WrittenParts(n, point, f, c);
    ReadsWritten(n, point, f, c);
    ScaledIsExact(DecimalValue(n), DecimalValue(f), |f|, Exponent(c));
  }

  lemma ScaledIsExact(n: nat, f: nat, l: nat, e: nat)
    ensures Wrap(n * Pow10(e) + ScaledFraction(f, l, e)) == Wrap(if e != l then Exact(n, f, l, e) else n * Pow10(e))
  {
    hide Wrap, Pow10, Exact;
    if e > l {
      ExactUp(n, f, l, e);
      WrapPlus(f * Pow10(e - l), n * Pow10(e));
    } else if e < l {
      ExactDown(n, f, l, e);
    }
  }

  /** Without overflow the parser returns floor(n.f * 10^e) exactly when the fraction has
      more or fewer digits than the exponent, or is zero. */
  lemma SiParseExactIff(n: string, point: char, f: string, c: char)
    requires PlainDigits(n) && DecimalValue(n) <= ULLONG_MAX && PointOk(point)
    requires PlainDigits(f) && DecimalValue(f) <= ULLONG_MAX && IsSi(c)
    ensures var x := Exact(DecimalValue(n), DecimalValue(f), |f|, Exponent(c));
            x < TWO64 ==> (SiParse(Written(n, point, f, c), point, false) == Value(x) <==> Exponent(c) != |f| || DecimalValue(f) == 0)
  {
    hide Written, IsSi, Exponent, SiParse, Wrap, Pow10, Exact;
    var e, x, y := Exponent(c), DecimalValue(n), DecimalValue(f);
    SiParseWritten(n, point, f, c);
    if Exact(x, y, |f|, e) < TWO64 {
      WrapSmall(Exact(x, y, |f|, e));
      if e == |f| {
        ExactUp(x, y, |f|, e);
        Pow10Zero();
        Nonnegative(x, Pow10(e));
        WrapSmall(x * Pow10(e));
      }
    }
  }

  // ---------------------------------------------------------------- all other forms

  /** The powers of ten that the letters stand for. */
  lemma Exponents()
    ensures forall c :: IsSi(c) <==> c in "kMGTPEZYRQ"
    ensures Exponent('k') == 3 && Exponent('M') == 6 && Exponent('G') == 9 && Exponent('T') == 12 && Exponent('P') == 15
    ensures Exponent('E') == 18 && Exponent('Z') == 21 && Exponent('Y') == 24 && Exponent('R') == 27 && Exponent('Q') == 30
  {}

  /** An integer, alone or with a suffix. */
  lemma SiParseInteger(n: string, point: char, c: char)
    requires PlainDigits(n) && DecimalValue(n) <= ULLONG_MAX
    ensures SiParse(n, point, false) == Value(DecimalValue(n))
    ensures IsSi(c) ==> SiParse(n + [c], point, false) == Value(Wrap(DecimalValue(n) * Pow10(Exponent(c))))
  {
    hide Strtoull, IsSi, Exponent, Wrap, Pow10;
    ReadsFront(n, "");
    assert n + "" == n;
    if IsSi(c) {
      SiIsNoDigit(c);
      ReadsFront(n, [c]);
      assert (n + [c])[|n|] == c;
      ScaledZero(Exponent(c));
    }
  }

  lemma ScaledZero(e: nat)
    ensures ScaledFraction(0, 0, e) == 0
  {
    hide Pow10;
  }

  function Form(n: string, point: char, f: string, r: string): string {
    n + [point] + f + r
  }

  lemma FormParts(n: string, point: char, f: string, r: string)
    ensures var s := Form(n, point, f, r);
            && s == n + ([point] + f + r) && |s| == |n| + 1 + |f| + |r|
            && s[|n|] == point && s[|n| + 1..|n| + 1 + |f|] == f
            && (f != "" ==> s[|n| + 1] == f[0]) && (r != "" ==> s[|n| + 1 + |f|] == r[0])
  {}

  lemma ReadsFraction(n: string, point: char, f: string, r: string)
    requires PlainDigits(n) && DecimalValue(n) <= ULLONG_MAX && PointOk(point)
    requires PlainDigits(f) && DecimalValue(f) <= ULLONG_MAX && Ends(f, r)
    ensures ReadParts(Form(n, point, f, r), point, false) ==
            if |r| > 1 then NoNumber else Parts(DecimalValue(n), DecimalValue(f), |f|, |n| + 1 + |f|)
  {
    hide Strtoull, IsSi, Form, DecimalValue;
    var s := Form(n, point, f, r);
    FormParts(n, point, f, r);
    ReadsFront(n, [point] + f + r);
    DigitIsNoSi(f[0]);
    ReadsDecimal(s, |n| + 1, f);
  }

  /** Without a suffix the fraction is dropped; with anything but one suffix it is an error. */
  lemma SiParseFraction(n: string, point: char, f: string, r: string)
    requires PlainDigits(n) && DecimalValue(n) <= ULLONG_MAX && PointOk(point)
    requires PlainDigits(f) && DecimalValue(f) <= ULLONG_MAX && Ends(f, r)
    ensures r == "" ==> SiParse(Form(n, point, f, r), point, false) == Value(DecimalValue(n))
    ensures r != "" && !(|r| == 1 && IsSi(r[0])) ==> SiParse(Form(n, point, f, r), point, false) == Failed
  {
    hide ReadParts, IsSi, Exponent, Wrap, Pow10, Form;
    FormParts(n, point, f, r);
    ReadsFraction(n, point, f, r);
  }

  /** Whatever else follows an integer is an error, and so is an integer that is too large. */
  lemma SiParseRefused(n: string, point: char, r: string, stale: bool)
    requires PlainDigits(n) && PointOk(point) && Ends(n, r)
    ensures DecimalValue(n) > ULLONG_MAX ==> SiParse(n + r, point, stale) == Failed
    ensures r != "" && r[0] != point && !(|r| == 1 && IsSi(r[0])) ==> SiParse(n + r, point, stale) == Failed
    ensures r != "" && r[0] == point && NoNumberAt(r, 1) ==> SiParse(n + r, point, stale) == Failed
  {
    hide Strtoull, IsSi, Exponent, Wrap, Pow10;
    var s := n + r;
    ReadsFront(n, r);
    if r != "" {
      assert s[|n|] == r[0];
      if r[0] == point && NoNumberAt(r, 1) {
        assert At(s, |n| + 1) == At(r, 1);
        ReadsNothing(s, |n| + 1);
      }
    }
  }

  /** So is a text that does not start with a number. */
  lemma SiParseNothing(s: string, point: char, stale: bool)
    requires NoNumberAt(s, 0)
    ensures SiParse(s, point, stale) == Failed && BinaryParse(s, stale) == Failed
  {
    hide Strtoull, IsSi;
    ReadsNothing(s, 0);
  }

  /** "1.500k" is read as 1000. */
  lemma FractionIsDropped()
    ensures SiParse("1.500k", '.', false) == Value(1000) && Exact(1, 500, 3, 3) == 1500
  {
    hide SiParse, Wrap;
    WrapSmall(1000);
    assert DecimalValue("1") == 1 by { assert "1"[..0] == ""; }
    assert DecimalValue("500") == 500 by {
      assert "500"[..2] == "50" && "50"[..1] == "5" && "5"[..0] == "";
    }
    assert Pow10(3) == 1000;
    assert Written("1", '.', "500", 'k') == "1.500k";
    SiParseWritten("1", '.', "500", 'k');
  }

  lemma Pow10Zero()
    ensures Pow10(0) == 1
  {}

  // ---------------------------------------------------------------- fractions with a leading zero

  /** The number the digits denote when they are read as octal ones. */
  function OctalValue(d: string): nat
    requires AllDigits(d)
  {
    if d == "" then 0 else 8 * OctalValue(d[..|d| - 1]) + DigitValue(d[|d| - 1])
  }

  predicate AllOctal(d: string) {
    forall i :: 0 <= i < |d| ==> '0' <= d[i] <= '7'
  }

  lemma {:induction false} OctalIsSmaller(d: string)
    requires AllDigits(d) && AllOctal(d)
    ensures OctalValue(d) <= DecimalValue(d)
    ensures OctalValue(d) == DecimalValue(d) <==> DecimalValue(d) < 8
  {
    if d != "" {
      OctalIsSmaller(d[..|d| - 1]);
    }
  }

  lemma {:induction false} LargeDigit(d: string, p: nat)
    requires AllDigits(d) && p < |d| && d[p] >= '8'
    ensures DecimalValue(d) >= 8
  {
    if p < |d| - 1 {
      LargeDigit(d[..|d| - 1], p);
    }
  }

  /** Octal digits of d from position k on end at p, the first digit that is not octal. */
  lemma {:induction false} OctalRun(s: string, i: nat, d: string, k: nat) returns (p: nat)
    requires AllDigits(d) && StandsAt(s, i, d) && k <= |d|
    ensures k <= p <= |d| && DigitsEnd(s, i + k, 8) == i + p
    ensures forall j :: k <= j < p ==> '0' <= d[j] <= '7'
    ensures p < |d| ==> d[p] >= '8'
    decreases |d| - k
  {
    if k == |d| {
      p := k;
    } else {
      assert s[i + k] == d[k];
      if d[k] <= '7' {
        p := OctalRun(s, i, d, k + 1);
      } else {
        p := k;
      }
    }
  }

  lemma {:induction false} OctalDenotes(s: string, i: nat, d: string, k: nat)
    requires AllDigits(d) && i + |d| <= |s| && s[i..i + |d|] == d && k <= |d|
    ensures DigitsValue(s, i, i + k, 8) == OctalValue(d[..k])
  {
    if k > 0 {
      OctalDenotes(s, i, d, k - 1);
      assert d[..k][..k - 1] == d[..k - 1];
      assert s[i + k - 1] == d[k - 1];
    }
  }

  lemma ReadsOctal(s: string, i: nat, d: string) returns (p: nat)
    requires AllDigits(d) && |d| >= 2 && d[0] == '0' && StandsAt(s, i, d)
    requires DecimalValue(d) <= ULLONG_MAX
    ensures p <= |d| && Strtoull(s, i).end == i + p && p > 0
    ensures p < |d| ==> d[p] >= '8'
    ensures p == |d| ==> AllOctal(d) && Strtoull(s, i) == Number(OctalValue(d), i + |d|, false)
  {
    assert s[i] == d[0] && s[i + 1] == d[1];
    assert SkipSpace(s, i) == i;
    assert !HexPrefix(s, i);
    p := OctalRun(s, i, d, 0);
    if p == |d| {
      OctalDenotes(s, i, d, |d|);
      assert d[..|d|] == d;
      OctalIsSmaller(d);
    }
  }

  /** A fraction with a leading zero is read as octal. This is when that does no harm: below
      eight if the suffix scales it up, zero if the suffix drops it; if the suffix cuts digits
      off, when the e digits left are zeros, and in a few cases with at most three cut off. */
  predicate OctalHarmless(f: string, e: nat)
    requires AllDigits(f)
  {
    if e > |f| then DecimalValue(f) < 8
    else if e == |f| then DecimalValue(f) == 0
    else AllOctal(f) && CutHarmless(DecimalValue(f[..e]), DecimalValue(f[e..]), |f| - e)
  }

  /** The digits left and the k digits cut off, as decimal numbers. */
  predicate CutHarmless(left: nat, cut: nat, k: nat) {
    || left == 0
    || (k == 1 && left <= 3 && cut >= 2 * left)
    || (k == 2 && left == 1 && cut >= 44)
    || (k == 3 && left == 1 && cut >= 750)
  }

  function Pow8(n: nat): (p: nat)
    ensures p > 0
  {
    if n == 0 then 1 else 8 * Pow8(n - 1)
  }

  lemma {:induction false} DecimalSplit(f: string, e: nat)
    requires AllDigits(f) && e <= |f|
    ensures DecimalValue(f) == DecimalValue(f[..e]) * Pow10(|f| - e) + DecimalValue(f[e..])
    ensures DecimalValue(f[e..]) < Pow10(|f| - e)
  {
    hide Pow10;
    var n := |f| - 1;
    if e == |f| {
      Pow10Zero();
      assert f[..e] == f && f[e..] == "";
    } else {
      DecimalSplit(f[..n], e);
      assert f[..n][..e] == f[..e] && f[..n][e..] == f[e..][..n - e] == f[e..n];
      Pow10Step(n - e);
      SplitStep(DecimalValue(f[..e]), Pow10(n - e), DecimalValue(f[e..n]), DigitValue(f[n]), 10);
    }
  }

  lemma {:induction false} OctalSplit(f: string, e: nat)
    requires AllDigits(f) && AllOctal(f) && e <= |f|
    ensures OctalValue(f) == OctalValue(f[..e]) * Pow8(|f| - e) + OctalValue(f[e..])
    ensures OctalValue(f[e..]) < Pow8(|f| - e)
  {
    hide Pow8;
    var n := |f| - 1;
    if e == |f| {
      Pow8Zero();
      assert f[..e] == f && f[e..] == "";
    } else {
      OctalSplit(f[..n], e);
      assert f[..n][..e] == f[..e] && f[..n][e..] == f[e..][..n - e] == f[e..n];
      Pow8Step(n - e);
      SplitStep(OctalValue(f[..e]), Pow8(n - e), OctalValue(f[e..n]), DigitValue(f[n]), 8);
    }
  }

  lemma Pow10Step(k: nat)
    ensures Pow10(k + 1) == 10 * Pow10(k)
  {}

  lemma Pow8Step(k: nat)
    ensures Pow8(k + 1) == 8 * Pow8(k)
  {}

  lemma Pow8Zero()
    ensures Pow8(0) == 1
  {}

  lemma SplitStep(high: nat, p: nat, low: nat, v: nat, c: nat)
    requires low < p && v < c
    ensures c * (high * p + low) + v == high * (c * p) + (c * low + v)
    ensures c * low + v < c * p
  {
    TimesGrows(low + 1, p, c);
  }

  lemma {:induction false} EightsAreFewer(k: nat)
    requires k >= 4
    ensures 2 * Pow8(k) <= Pow10(k)
  {
    if k == 4 {
      assert Pow8(4) == 4096 && Pow10(4) == 10000;
    } else {
      EightsAreFewer(k - 1);
    }
  }

  lemma ThreeDigitsCut(d: string)
    requires AllDigits(d) && AllOctal(d)
    ensures |d| == 1 ==> OctalValue(d) == DecimalValue(d)
    ensures |d| == 2 ==> (OctalValue(d) >= 36 <==> DecimalValue(d) >= 44)
    ensures |d| == 3 ==> (OctalValue(d) >= 488 <==> DecimalValue(d) >= 750)
  {
    if 1 <= |d| <= 3 {
      var c := d[..|d| - 1];
      assert |d| == 1 ==> c == "";
      if |d| >= 2 {
        var b := c[..|c| - 1];
        assert |d| == 2 ==> b == "";
        assert |d| == 3 ==> b[..0] == "" && b == [b[0]];
      }
    }
  }

  /** The octal reading reaches `left` after the cut exactly if the cut is harmless. */
  lemma CutReaches(left: nat, cut: nat, o: nat, p: nat, k: nat, e8: nat, e10: nat)
    requires k > 0 && e8 == Pow8(k) && e10 == Pow10(k)
    requires o <= left && (left < 8 ==> o == left) && p < e8
    requires k == 1 ==> p == cut
    requires k == 2 ==> (p >= 36 <==> cut >= 44)
    requires k == 3 ==> (p >= 488 <==> cut >= 750)
    ensures left * e10 <= o * e8 + p <==> CutHarmless(left, cut, k)
  {
    if k >= 4 {
      EightsAreFewer(k);
      LongCut(left, o, p, e8, e10);
    } else {
      assert Pow8(1) == 8 && Pow8(2) == 64 && Pow8(3) == 512;
      assert Pow10(1) == 10 && Pow10(2) == 100 && Pow10(3) == 1000;
    }
  }

  lemma LongCut(left: nat, o: nat, p: nat, e8: nat, e10: nat)
    requires o <= left && p < e8 && 2 * e8 <= e10
    ensures left * e10 <= o * e8 + p <==> left == 0
  {
    TimesGrows(o, left, e8);
    if left > 0 {
      TimesGrows(1, left, e8);
      TimesGrows(2 * e8, e10, left);
      TwoTimes(left, e8, e10);
    } else {
      assert left * e10 == 0 && o * e8 >= 0;
    }
  }

  lemma TwoTimes(a: nat, b: nat, c: nat)
    ensures (2 * b) * a == a * b + a * b && c * a == a * c
  {}

  /** Octal and decimal reading agree in the digits left exactly if the cut is harmless. */
  lemma CutIff(f: string, e: nat)
    requires AllDigits(f) && AllOctal(f) && e < |f|
    ensures OctalValue(f) / Pow10(|f| - e) == DecimalValue(f) / Pow10(|f| - e)
            <==> CutHarmless(DecimalValue(f[..e]), DecimalValue(f[e..]), |f| - e)
  {
    hide CutHarmless, Pow10, Pow8, OctalValue, DecimalValue;
    var k, left, cut := |f| - e, DecimalValue(f[..e]), DecimalValue(f[e..]);
    DecimalSplit(f, e);
    OctalSplit(f, e);
    OctalIsSmaller(f);
    OctalIsSmaller(f[..e]);
    ThreeDigitsCut(f[e..]);
    CutReaches(left, cut, OctalValue(f[..e]), OctalValue(f[e..]), k, Pow8(k), Pow10(k));
    DivUnique(DecimalValue(f), Pow10(k), left, cut);
    QuotientReaches(OctalValue(f), DecimalValue(f), left, Pow10(k));
  }

  lemma QuotientReaches(o: nat, y: nat, q: nat, d: nat)
    requires d > 0 && o <= y && y / d == q
    ensures o / d == q <==> q * d <= o
  {
    QuotientGrows(o, y, d);
    if o / d == q {
      assert d * (o / d) <= o;
    } else {
      assert o < d * (o / d) + d;
      TimesGrows(o / d + 1, q, d);
    }
  }

  /** Without overflow the parser is right about a fraction with a leading zero exactly then. */
  lemma LeadingZeroFraction(n: string, point: char, f: string, c: char)
    requires PlainDigits(n) && DecimalValue(n) <= ULLONG_MAX && PointOk(point)
    requires AllDigits(f) && |f| >= 2 && f[0] == '0' && DecimalValue(f) <= ULLONG_MAX && IsSi(c)
    ensures var x := Exact(DecimalValue(n), DecimalValue(f), |f|, Exponent(c));
            x < TWO64 ==> (SiParse(Written(n, point, f, c), point, false) == Value(x) <==> OctalHarmless(f, Exponent(c)))
  {
    hide Strtoull, Written, IsSi, Exponent, Wrap, Pow10, Exact, OctalHarmless, ScaledFraction;
    var s, dot := Written(n, point, f, c), |n|;
    WrittenParts(n, point, f, c);
    ReadsInteger(n, point, f, c);
    SiIsNoDigit(c);
    assert s[dot + 1] == f[0];
    DigitIsNoSi(f[0]);
    var p := ReadsOctal(s, dot + 1, f);
    if p < |f| {
      LargeDigit(f, p);
      HarmlessIsOctal(f, p, Exponent(c));
      assert Fraction(s, DecimalValue(n), dot, false) == NoNumber;
    } else {
      assert ReadParts(s, point, false) == Parts(DecimalValue(n), OctalValue(f), |f|, dot + 1 + |f|);
      if Exact(DecimalValue(n), DecimalValue(f), |f|, Exponent(c)) < TWO64 {
        OctalScaled(DecimalValue(n), f, Exponent(c));
      }
    }
  }

  lemma HarmlessIsOctal(f: string, p: nat, e: nat)
    requires AllDigits(f) && p < |f| && f[p] >= '8'
    ensures !OctalHarmless(f, e)
  {
    LargeDigit(f, p);
  }

  /** The fraction's octal value, scaled, is its decimal value, scaled, only where harmless. */
  lemma OctalScaled(n: nat, f: string, e: nat)
    requires AllDigits(f) && AllOctal(f) && Exact(n, DecimalValue(f), |f|, e) < TWO64
    ensures Wrap(n * Pow10(e) + ScaledFraction(OctalValue(f), |f|, e)) == Exact(n, DecimalValue(f), |f|, e)
            <==> OctalHarmless(f, e)
  {
    hide Wrap, Pow10, Exact, ScaledFraction, OctalValue, DecimalValue, CutHarmless;
    var l, o, y := |f|, OctalValue(f), DecimalValue(f);
    OctalIsSmaller(f);
    ScaledIsExact(n, o, l, e);
    if e > l {
      ExactGrows(n, o, y, l, e);
      WrapSmall(Exact(n, o, l, e));
    } else if e == l {
      ExactUp(n, y, l, e);
      Pow10Zero();
      Nonnegative(n, Pow10(e));
      WrapSmall(n * Pow10(e));
    } else {
      ExactDown(n, o, l, e);
      ExactDown(n, y, l, e);
      QuotientGrows(o, y, Pow10(l - e));
      CutIff(f, e);
      WrapSmall(Exact(n, o, l, e));
    }
  }

  lemma QuotientGrows(a: nat, b: nat, d: nat)
    requires a <= b && d > 0
    ensures a / d <= b / d
  {
    assert d * (a / d) <= a && b < d * (b / d) + d;
    assert d * (b / d) + d == d * (b / d + 1);
    LessFromTimes(d, a / d, b / d + 1);
  }

  lemma ExactGrows(n: nat, f: nat, g: nat, l: nat, e: nat)
    requires e >= l && f <= g
    ensures Exact(n, f, l, e) <= Exact(n, g, l, e)
    ensures Exact(n, f, l, e) == Exact(n, g, l, e) <==> f == g
  {
    hide Exact, Pow10;
    ExactUp(n, f, l, e);
    ExactUp(n, g, l, e);
    StrictlyGrows(f, g, Pow10(e - l));
  }

  lemma StrictlyGrows(f: nat, g: nat, p: nat)
    requires f <= g && p > 0
    ensures f * p <= g * p
    ensures f * p == g * p <==> f == g
  {
    if f < g {
      assert (f + 1) * p <= g * p;
    }
  }

  // ---------------------------------------------------------------- binary suffixes

  /** The table of binary suffixes, in the source's order. */
  const BINARY_SUFFIXES: seq<(nat, string)> := [(50, "Pi"), (40, "Ti"), (30, "Gi"), (20, "Mi"), (10, "Ki")]

  /** Division of signed integers in C: truncation toward zero. */
  function CDiv(a: int, b: nat): int
    requires b > 0
  {
    if a >= 0 then a / b else -(-a / b)
  }

  function Abs(x: int): nat {
    if x < 0 then -x else x
  }

  /** The shift that suits a value: the largest one of the table that does not exceed it. */
  function Shift(v: int): nat {
    if Abs(v) >= 0x4_0000_0000_0000 then 50
    else if Abs(v) >= 0x100_0000_0000 then 40
    else if Abs(v) >= 0x4000_0000 then 30
    else if Abs(v) >= 0x10_0000 then 20
    else if Abs(v) >= 0x400 then 10
    else 0
  }

  function SuffixOf(shift: nat): string {
    if shift == 50 then "Pi" else if shift == 40 then "Ti" else if shift == 30 then "Gi"
    else if shift == 20 then "Mi" else if shift == 10 then "Ki" else ""
  }

  const LLONG_MAX := 0x7FFF_FFFF_FFFF_FFFF

  lemma Units()
    ensures Pow2(0) == 1 && Pow2(9) == 0x200 && Pow2(10) == 0x400
    ensures Pow2(19) == 0x8_0000 && Pow2(20) == 0x10_0000
    ensures Pow2(29) == 0x2000_0000 && Pow2(30) == 0x4000_0000
    ensures Pow2(39) == 0x80_0000_0000 && Pow2(40) == 0x100_0000_0000
    ensures Pow2(49) == 0x2_0000_0000_0000 && Pow2(50) == 0x4_0000_0000_0000
  {
    assert Pow2(5) == 32 && Pow2(15) == 0x8000 && Pow2(25) == 0x200_0000 && Pow2(35) == 0x8_0000_0000 && Pow2(45) == 0x2000_0000_0000;
  }

  /** Model of `suffix_binary_get`. The preconditions are those of the C arithmetic: the
      absolute value and the sum before the division are representable. */
  method SuffixBinaryGet(v: int) returns (value: int, suffix: string)
    requires -LLONG_MAX <= v <= LLONG_MAX
    requires v + Pow2(49) <= LLONG_MAX
    ensures Shift(v) == 0 ==> value == v
    ensures Shift(v) > 0 ==> value == CDiv(v + Pow2(Shift(v) - 1), Pow2(Shift(v)))
    ensures suffix == SuffixOf(Shift(v))
    ensures v >= 0 ==> value >= 0 && Printed(v) == Decimal(value) + suffix
  {
    hide Pow2, Decimal;
    Units();
    value := v;
    var i := 0;
    while i < |BINARY_SUFFIXES|
      invariant 0 <= i <= |BINARY_SUFFIXES|
      invariant value == v
      invariant i > 0 ==> Abs(v) < Pow2(60 - 10 * i)
    {
      var (shift, name) := BINARY_SUFFIXES[i];
      BinaryTable(i);
      if Abs(value) >= Pow2(shift) {
        value := CDiv(value + Pow2(shift - 1), Pow2(shift));
        return value, name;
      }
      i := i + 1;
    }
    return value, "";
  }

  lemma BinaryTable(i: nat)
    requires i < |BINARY_SUFFIXES|
    ensures BINARY_SUFFIXES[i].0 == 50 - 10 * i && BINARY_SUFFIXES[i].1 == SuffixOf(50 - 10 * i)
    ensures |BINARY_SUFFIXES| == 5 && |BINARY_SUFFIXES[i].1| == 2
  {}

  function Lower(c: char): char {
    if 'A' <= c <= 'Z' then c - 'A' + 'a' else c
  }

  /** The shift that two characters stand for, in any case; zero if they are no suffix. */
  function ShiftNamed(a: char, b: char): nat {
    if Lower(b) != 'i' then 0
    else match Lower(a)
      case 'p' => 50 case 't' => 40 case 'g' => 30 case 'm' => 20 case 'k' => 10 case _ => 0
  }

  function BinaryParse(str: string, stale: bool): Parsed {
    var n := Strtoull(str, 0);
    if !Accept(n, 0, stale) then Failed
    else if n.end == |str| then Value(n.value)
    else if n.end + 2 != |str| || ShiftNamed(str[n.end], str[n.end + 1]) == 0 then Failed
    else Value(Wrap(n.value * Pow2(ShiftNamed(str[n.end], str[n.end + 1]))))
  }

  /** Model of `suffix_binary_parse`. */
  method SuffixBinaryParse(str: string, stale: bool) returns (ret: int, val: nat)
    requires NulFree(str)
    ensures ret == 0 || ret == -EINVAL
    ensures BinaryParse(str, stale) == if ret == 0 then Value(val) else Failed
  {
    hide Strtoull, Wrap, Pow2;
    var n := Strtoull(str, 0);
    var end := n.end;
    if end == 0 || (n.value == ULLONG_MAX && (n.erange || stale)) {
      return -EINVAL, 0;
    }
    if At(str, end) == '\0' {
      return 0, n.value;
    }
    var i := 0;
    while i < |BINARY_SUFFIXES|
      invariant 0 <= i <= |BINARY_SUFFIXES|
      invariant end + 2 == |str| ==> NoMatch(str[end], str[end + 1], i)
    {
      var (shift, name) := BINARY_SUFFIXES[i];
      BinaryTable(i);
      if Lower(At(str, end)) == Lower(name[0]) && At(str, end) != '\0' && At(str, end + 1) != '\0'
         && At(str, end + 2) == '\0' && Lower(At(str, end + 1)) == Lower(name[1]) {
        return 0, Wrap(n.value * Pow2(shift));
      }
      i := i + 1;
    }
    return -EINVAL, 0;
  }

  /** The two characters are none of the first i suffixes. */
  ghost predicate NoMatch(a: char, b: char, i: nat) {
    ShiftNamed(a, b) == 0 || ShiftNamed(a, b) < 60 - 10 * i
  }

  /** How a size is written: the numeral and the suffix. */
  function Printed(v: nat): string {
    if Shift(v) == 0 then Decimal(v)
    else Decimal((v + Pow2(Shift(v) - 1)) / Pow2(Shift(v))) + SuffixOf(Shift(v))
  }

  /** The multiple of the unit that is nearest to v, halves rounded up. */
  function Nearest(v: nat): nat {
    if Shift(v) == 0 then v else (v + Pow2(Shift(v) - 1)) / Pow2(Shift(v)) * Pow2(Shift(v))
  }

  lemma Rounding(v: nat, h: nat, u: nat)
    requires h > 0 && u == 2 * h
    ensures var m := (v + h) / u * u; m <= v + h && 2 * Abs(m - v) <= u && (m == v <==> v % u == 0)
  {
    var q := (v + h) / u;
    assert v + h == u * q + (v + h) % u;
    assert u * q == q * u;
    var k, r := v / u, v % u;
    assert v == u * k + r;
    if r == 0 {
      DivUnique(v + h, u, k, h);
    } else if q * u == v {
      DivUnique(v, u, q, 0);
    }
  }

  lemma UnitHalves(shift: nat)
    requires shift > 0
    ensures Pow2(shift) == 2 * Pow2(shift - 1)
  {}

  lemma NearestIsNear(v: nat)
    requires v + Pow2(49) <= LLONG_MAX
    ensures Nearest(v) <= LLONG_MAX
    ensures 2 * Abs(Nearest(v) - v) <= Pow2(Shift(v))
    ensures Nearest(v) == v <==> v % Pow2(Shift(v)) == 0
  {
    hide Pow2;
    Units();
    if Shift(v) > 0 {
      UnitHalves(Shift(v));
      Rounding(v, Pow2(Shift(v) - 1), Pow2(Shift(v)));
    }
  }

  lemma SuffixFacts(shift: nat)
    requires shift in {10, 20, 30, 40, 50}
    ensures var t := SuffixOf(shift); |t| == 2 && !IsDigit(t[0]) && t[0] != 'x' && t[0] != 'X' && ShiftNamed(t[0], t[1]) == shift
  {}

  /** The shifts that the binary suffixes stand for, in any case. */
  lemma BinarySuffixes(a: char, b: char)
    ensures ShiftNamed(a, b) > 0 <==> a in "KkMmGgTtPp" && b in "Ii"
    ensures b in "Ii" && a in "Kk" ==> ShiftNamed(a, b) == 10
    ensures b in "Ii" && a in "Mm" ==> ShiftNamed(a, b) == 20
    ensures b in "Ii" && a in "Gg" ==> ShiftNamed(a, b) == 30
    ensures b in "Ii" && a in "Tt" ==> ShiftNamed(a, b) == 40
    ensures b in "Ii" && a in "Pp" ==> ShiftNamed(a, b) == 50
  {
    assert Lower(b) == 'i' <==> b == 'i' || b == 'I';
  }

  /** What the binary parser returns for an integer and whatever follows it. */
  lemma BinaryParseForms(n: string, r: string, stale: bool)
    requires PlainDigits(n) && DecimalValue(n) < ULLONG_MAX && Ends(n, r)
    ensures BinaryParse(n + r, stale) ==
            if r == "" then Value(DecimalValue(n))
            else if |r| == 2 && ShiftNamed(r[0], r[1]) > 0 then Value(Wrap(DecimalValue(n) * Pow2(ShiftNamed(r[0], r[1]))))
            else Failed
  {
    hide Strtoull, ShiftNamed, Wrap, Pow2;
    ReadsFront(n, r);
    assert r != "" ==> (n + r)[|n|] == r[0];
    assert |r| == 2 ==> (n + r)[|n| + 1] == r[1];
  }

  /** The unit chosen is the largest one that does not exceed the size. */
  lemma UnitChosen(v: int)
    ensures Shift(v) in {0, 10, 20, 30, 40, 50}
    ensures Shift(v) > 0 ==> Pow2(Shift(v)) <= Abs(v)
    ensures Shift(v) < 50 ==> Abs(v) < Pow2(Shift(v) + 10)
  {
    hide Pow2;
    Units();
  }

  /** Reading back a printed size gives the nearest multiple of its unit. */
  lemma BinaryRoundTrip(v: nat)
    requires v + Pow2(49) <= LLONG_MAX
    ensures BinaryParse(Printed(v), false) == Value(Nearest(v))
  {
    hide Strtoull, Pow2, Wrap, ShiftNamed, SuffixOf;
    Units();
    var s := Printed(v);
    var q := if Shift(v) == 0 then v else (v + Pow2(Shift(v) - 1)) / Pow2(Shift(v));
    var d := Decimal(q);
    DecimalDenotes(q);
    NumeralIsPlain(q);
    NearestIsNear(v);
    assert s[..|d|] == d;
    if Shift(v) == 0 {
      assert q <= ULLONG_MAX;
      ReadsDecimal(s, 0, d);
    } else {
      SuffixFacts(Shift(v));
      assert q <= ULLONG_MAX;
      ReadsDecimal(s, 0, d);
      assert s[|d|..] == SuffixOf(Shift(v));
      WrapSmall(Nearest(v));
    }
  }

  lemma NumeralIsPlain(n: nat)
    ensures PlainDigits(Decimal(n))
  {
    DecimalDenotes(n);
  }
}

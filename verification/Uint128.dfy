/** Model of `le128_to_cpu` and the 128-bit number printer of nvme-cli/util/types.c. */
module Uint128 {
  import opened Bytes
  import opened Common
  import opened Numerals

  const TWO128 := 0x1_0000_0000_0000_0000_0000_0000_0000_0000

  type u32 = x: int | 0 <= x < 0x1_0000_0000

  /** The four words, w0 the most significant one. */
  datatype Words = Words(w0: u32, w1: u32, w2: u32, w3: u32)

  function Value(w: Words): nat {
    ((w.w0 * TWO32 + w.w1) * TWO32 + w.w2) * TWO32 + w.w3
  }

  lemma ValueBound(w: Words)
    ensures Value(w) < TWO128
  {}

  // ---------------------------------------------------------------- little-endian bytes

  /** `le32_to_cpu` of four bytes. */
  function Le32(b: seq<u8>): u32
    requires |b| == 4
  {
    b[0] as int + 0x100 * b[1] as int + 0x1_0000 * b[2] as int + 0x100_0000 * b[3] as int
  }

  lemma FromLeFour(b: seq<u8>)
    requires |b| >= 4
    ensures FromLe(b) == Le32(b[..4]) + TWO32 * FromLe(b[4..])
  {
    assert b[1..][1..] == b[2..] && b[2..][1..] == b[3..] && b[3..][1..] == b[4..];
    assert FromLe(b) == b[0] + 256 * FromLe(b[1..]);
    assert FromLe(b[1..]) == b[1] + 256 * FromLe(b[2..]);
    assert FromLe(b[2..]) == b[2] + 256 * FromLe(b[3..]);
    assert FromLe(b[3..]) == b[3] + 256 * FromLe(b[4..]);
  }

  /** Model of `le128_to_cpu`: the words come out in the opposite order. */
  method Le128ToCpu(data: array<u8>) returns (u: Words)
    requires data.Length >= 16
    ensures Value(u) == FromLe(data[..16])
  {
    ghost var b := data[..16];
    u := Words(0, 0, 0, 0);
    u := u.(w0 := Le32(data[12..16]));
    u := u.(w1 := Le32(data[8..12]));
    u := u.(w2 := Le32(data[4..8]));
    u := u.(w3 := Le32(data[0..4]));
    FromLeFour(b);
    assert b[..4] == data[0..4];
    FromLeFour(b[4..]);
    assert b[4..][..4] == data[4..8] && b[4..][4..] == b[8..];
    FromLeFour(b[8..]);
    assert b[8..][..4] == data[8..12] && b[8..][4..] == b[12..];
    FromLeFour(b[12..]);
    assert b[12..][..4] == data[12..16] && b[12..][4..] == [];
  }

  // ---------------------------------------------------------------- division by ten

  /** Assignment of a 64-bit value to a 32-bit word. */
  function Trunc32(x: nat): u32 {
    x % TWO32
  }

  /** A 64-bit left shift by 32. */
  function Shl32(x: nat): nat {
    x * TWO32 % TWO64
  }

  /** One link of the chain: the remainder moves into the next word without overflow. */
  lemma Carry(rem: nat, w: u32)
    requires rem / 10 < TWO32
    ensures var next := (Shl32(rem - rem / 10 * 10) + w) % TWO64;
            next == rem % 10 * TWO32 + w && next / 10 < TWO32
    ensures Trunc32(rem / 10) == rem / 10
  {
    var r := rem % 10;
    assert rem - rem / 10 * 10 == r;
    assert r * TWO32 + w < 10 * TWO32 < TWO64;
  }

  /** The chain of four divisions: no step of it overflows, and it is a division by ten. */
  method DivideByTen(val: Words) returns (q: Words, rem: nat)
    ensures rem < 10
    ensures Value(val) == 10 * Value(q) + rem
  {
    hide Shl32, Trunc32;
    q := val;
    rem := q.w0;

    Carry(rem, q.w1);
    var div := rem / 10;
    rem := (Shl32(rem - div * 10) + q.w1) % TWO64;
    q := q.(w0 := Trunc32(div));

    Carry(rem, q.w2);
    div := rem / 10;
    rem := (Shl32(rem - div * 10) + q.w2) % TWO64;
    q := q.(w1 := Trunc32(div));

    Carry(rem, q.w3);
    div := rem / 10;
    rem := (Shl32(rem - div * 10) + q.w3) % TWO64;
    q := q.(w2 := Trunc32(div));

    Carry(rem, 0);
    div := rem / 10;
    rem := rem - div * 10;
    q := q.(w3 := Trunc32(div));
  }

  // ---------------------------------------------------------------- the printer

  /** What the printer puts left of the `count` characters already in the buffer (the
      closing NUL included) for the value v that is left: one digit per round, and before
      it the separator whenever count is a multiple of four. */
  function Render(v: nat, sep: string, count: nat): string {
    var gap := Gap(sep, count);
    (if v < 10 then "" else Render(v / 10, sep, count + |gap| + 1)) + [Digit(v % 10)] + gap
  }

  /** The separator loop: copies sep in front of what is in the buffer, back to front. */
  method PutSeparator(sep: string, str: array<char>, start: nat) returns (idx: nat)
    requires |sep| <= start <= str.Length
    modifies str
    ensures idx == start - |sep|
    ensures str[idx..start] == sep
    ensures forall k :: 0 <= k < str.Length && !(idx <= k < start) ==> str[k] == old(str[k])
  {
    var len := |sep|;
    idx := start;
    for i := 0 to len
      invariant idx == start - i
      invariant forall k :: idx <= k < start ==> str[k] == sep[len - (start - k)]
      invariant forall k :: 0 <= k < str.Length && !(idx <= k < start) ==> str[k] == old(str[k])
    {
      idx := idx - 1;
      str[idx] := sep[len - i - 1];
    }
    assert str[idx..start] == sep;
  }

  function Gap(sep: string, count: nat): string {
    if count % 4 == 0 then sep else ""
  }

  lemma RenderStep(v: nat, sep: string, count: nat, q: nat, rem: nat)
    requires v == 10 * q + rem && rem < 10
    ensures var g := Gap(sep, count);
            Render(v, sep, count) == (if q == 0 then "" else Render(q, sep, count + |g| + 1)) + ([Digit(rem)] + g)
  {
    assert v / 10 == q && v % 10 == rem;
  }

  lemma ZeroWords(w: Words)
    ensures Value(w) == 0 <==> w.w0 == 0 && w.w1 == 0 && w.w2 == 0 && w.w3 == 0
  {}

  /** One round's output: the separator if it is due, then a digit. */
  method PutDigit(sep: string, cl: nat, d: char, str: array<char>, start: nat) returns (idx: nat)
    requires str.Length == 60 && start < 60
    requires sep != "" ==> cl == 1
    requires 1 + |Gap(sep, 60 - start)| <= start
    modifies str
    ensures idx == start - 1 - |Gap(sep, 60 - start)|
    ensures str[idx..59] == [d] + Gap(sep, 60 - start) + old(str[start..59])
    ensures str[59] == old(str[59])
  {
    idx := start;
    assert |sep| > 0 ==> 3 + cl == 4;
    if |sep| > 0 && (60 - idx) % (3 + cl) == 0 {
      idx := PutSeparator(sep, str, idx);
    }
    idx := idx - 1;
    str[idx] := d;
    assert str[idx + 1..start] == Gap(sep, 60 - start);
    assert str[start..59] == old(str[start..59]);
  }

  /** Model of `__uint128_t_to_string`. The buffer has 60 bytes; the text must fit. */
  method Uint128ToString(v: Words, l10n: bool, thousandsSep: string, str: array<char>) returns (idx: nat)
    requires str.Length == 60
    requires |Render(Value(v), if l10n then thousandsSep else "", 1)| < 60
    modifies str
    ensures idx < 60 && str[59] == '\0'
    ensures str[idx..59] == Render(Value(v), if l10n then thousandsSep else "", 1)
  {
    hide Render, Value;
    var val := v;
    hide Gap;
    var sep, cl := "", 0;
    if l10n {
      sep := thousandsSep;
      cl := 1;
    }
    idx := 60;
    idx := idx - 1;
    str[idx] := '\0';
    ghost var whole := Render(Value(v), sep, 1);
    assert str[idx..59] == "";
    while true
      invariant idx <= 59 && str[59] == '\0'
      invariant whole == Render(Value(val), sep, 60 - idx) + str[idx..59]
      decreases Value(val)
    {
      var q, rem := DivideByTen(val);
      ghost var done, gap := str[idx..59], Gap(sep, 60 - idx);
      RenderStep(Value(val), sep, 60 - idx, Value(q), rem);
      ZeroWords(q);
      assert |whole| >= 1 + |gap| + |done|;
      idx := PutDigit(sep, cl, Digit(rem), str, idx);
      val := q;
      if !(val.w0 != 0 || val.w1 != 0 || val.w2 != 0 || val.w3 != 0) {
        break;
      }
    }
  }

  // ---------------------------------------------------------------- theorems

  /** A numeral with a separator before every group of three digits, counted from the right. */
  function Grouped(d: string, sep: string): string {
    if |d| <= 3 then d else Grouped(d[..|d| - 3], sep) + sep + d[|d| - 3..]
  }

  /** Only the remainder of count modulo four matters. */
  lemma {:induction false} RenderMod(v: nat, sep: string, c: nat, c': nat)
    requires c % 4 == c' % 4
    ensures Render(v, sep, c) == Render(v, sep, c')
  {
    if v >= 10 {
      RenderMod(v / 10, sep, c + |Gap(sep, c)| + 1, c' + |Gap(sep, c)| + 1);
    }
  }

  /** Where a separator is due it is the only difference, if its length is one modulo four. */
  lemma RenderAtGap(v: nat, sep: string)
    requires |sep| % 4 == 1
    ensures Render(v, sep, 4) == Render(v, sep, 1) + sep
  {
    if v >= 10 {
      RenderMod(v / 10, sep, 4 + |sep| + 1, 2);
    }
  }

  lemma RenderThree(v: nat, sep: string)
    requires v >= 1000
    ensures Render(v, sep, 1) == Render(v / 1000, sep, 4) + LastThree(v)
  {
    var a, b := v / 10, v / 100;
    assert a / 10 == b && b / 10 == v / 1000;
    assert Render(v, sep, 1) == Render(a, sep, 2) + [Digit(v % 10)];
    assert Render(a, sep, 2) == Render(b, sep, 3) + [Digit(a % 10)];
    assert Render(b, sep, 3) == Render(v / 1000, sep, 4) + [Digit(b % 10)];
  }

  function LastThree(v: nat): string {
    [Digit(v / 100 % 10), Digit(v / 10 % 10), Digit(v % 10)]
  }

  lemma DecimalThree(v: nat)
    requires v >= 1000
    ensures Decimal(v) == Decimal(v / 1000) + LastThree(v)
  {
    var a, b := v / 10, v / 100;
    assert a / 10 == b && b / 10 == v / 1000;
    assert Decimal(v) == Decimal(a) + [Digit(v % 10)];
    assert Decimal(a) == Decimal(b) + [Digit(a % 10)];
    assert Decimal(b) == Decimal(v / 1000) + [Digit(b % 10)];
  }

  lemma RenderSmall(v: nat, sep: string)
    requires v < 1000
    ensures Render(v, sep, 1) == Decimal(v) && |Decimal(v)| <= 3
  {
    var a, b := v / 10, v / 100;
    assert a / 10 == b;
    assert Render(b, sep, 3) == [Digit(b)] == Decimal(b);
    if v >= 100 {
      assert Render(a, sep, 2) == Render(b, sep, 3) + [Digit(a % 10)];
    }
  }

  /** With a separator of one byte, or five, nine, ..., the printer groups by threes. */
  lemma {:induction false} PrintsGrouped(v: nat, sep: string)
    requires |sep| % 4 == 1
    ensures Render(v, sep, 1) == Grouped(Decimal(v), sep)
    decreases v
  {
    if v < 1000 {
      RenderSmall(v, sep);
    } else {
      hide Render, Decimal;
      var top := v / 1000;
      RenderThree(v, sep);
      RenderAtGap(top, sep);
      PrintsGrouped(top, sep);
      DecimalThree(v);
      var d := Decimal(v);
      assert d[..|d| - 3] == Decimal(top) && d[|d| - 3..] == LastThree(v);
    }
  }

  /** Without a separator the printer writes the canonical decimal numeral. */
  lemma {:induction false} PrintsDecimal(v: nat, count: nat)
    ensures Render(v, "", count) == Decimal(v)
    decreases v
  {
    if v >= 10 {
      PrintsDecimal(v / 10, count + 1);
    }
  }

  lemma {:induction false} GroupedByNothing(d: string)
    ensures Grouped(d, "") == d
  {
    if |d| > 3 {
      GroupedByNothing(d[..|d| - 3]);
      assert d == d[..|d| - 3] + d[|d| - 3..];
    }
  }

  lemma {:induction false} GroupedLength(d: string, sep: string)
    requires d != ""
    ensures |Grouped(d, sep)| == |d| + (|d| - 1) / 3 * |sep|
  {
    if |d| > 3 {
      GroupedLength(d[..|d| - 3], sep);
      assert (|d| - 1) / 3 == (|d| - 4) / 3 + 1;
      assert ((|d| - 4) / 3 + 1) * |sep| == (|d| - 4) / 3 * |sep| + |sep|;
    }
  }

  /** The smallest value on which a separator of the wrong length goes wrong. */
  function Witness(len: nat): nat {
    if len % 4 == 3 then 1_0000 else if len % 4 == 2 then 10_0000 else 100_0000
  }

  lemma WitnessLengths(len: nat)
    requires len % 4 != 1
    ensures |Decimal(Witness(len))| == if len % 4 == 3 then 5 else if len % 4 == 2 then 6 else 7
  {
    hide Decimal;
    var k, v := if len % 4 == 3 then 5 else if len % 4 == 2 then 6 else 7, Witness(len);
    assert Pow10(4) == 1_0000 && Pow10(5) == 10_0000 && Pow10(6) == 100_0000 && Pow10(7) == 1000_0000;
    DecimalLength(v, k);
    DecimalLength(v, k - 1);
  }

  lemma WitnessRendered(sep: string)
    requires sep != "" && |sep| % 4 != 1
    ensures var n := |sep|;
            |Render(Witness(n), sep, 1)| == if n % 4 == 3 then 5 + 2 * n else if n % 4 == 2 then 6 + 2 * n else 7 + n
  {
    hide Render;
    var n := |sep|;
    RenderThree(Witness(n), sep);
    if n % 4 == 3 {
      AtGap(10, sep, 4);
      assert (n + 5) % 4 == 0;
      AtGap(1, sep, n + 5);
    } else if n % 4 == 2 {
      AtGap(100, sep, 4);
      assert (n + 5) % 4 == 3 && (n + 6) % 4 == 0;
      NoGap(10, sep, n + 5);
      AtGap(1, sep, n + 6);
    } else {
      AtGap(1000, sep, 4);
      assert n % 4 == 0;
      assert (n + 5) % 4 == 1 && (n + 6) % 4 == 2 && (n + 7) % 4 == 3;
      NoGap(100, sep, n + 5);
      NoGap(10, sep, n + 6);
      NoGap(1, sep, n + 7);
    }
  }

  lemma WrongLength(sep: string)
    requires sep != "" && |sep| % 4 != 1
    ensures |Render(Witness(|sep|), sep, 1)| != |Grouped(Decimal(Witness(|sep|)), sep)|
  {
    hide Render, Grouped, Decimal, Witness;
    WitnessRendered(sep);
    WitnessLengths(|sep|);
    GroupedLength(Decimal(Witness(|sep|)), sep);
  }

  lemma AtGap(v: nat, sep: string, count: nat)
    requires count % 4 == 0
    ensures |Render(v, sep, count)| == 1 + |sep| + (if v < 10 then 0 else |Render(v / 10, sep, count + |sep| + 1)|)
  {}

  lemma NoGap(v: nat, sep: string, count: nat)
    requires count % 4 != 0
    ensures |Render(v, sep, count)| == 1 + (if v < 10 then 0 else |Render(v / 10, sep, count + 1)|)
  {}

  /** The printer groups every 128-bit value by threes exactly for the separators whose
      length is zero or one modulo four; other lengths disturb its position count. */
  lemma GroupsCorrectlyIff(sep: string)
    ensures (forall v: nat :: v < TWO128 ==> Render(v, sep, 1) == Grouped(Decimal(v), sep))
            <==> sep == "" || |sep| % 4 == 1
  {
    hide Render, Grouped;
    if sep == "" {
      forall v: nat ensures Render(v, sep, 1) == Grouped(Decimal(v), sep) {
        PrintsDecimal(v, 1);
        GroupedByNothing(Decimal(v));
      }
    } else if |sep| % 4 == 1 {
      forall v: nat ensures Render(v, sep, 1) == Grouped(Decimal(v), sep) {
        PrintsGrouped(v, sep);
      }
    } else {
      WrongLength(sep);
      assert Witness(|sep|) < TWO128;
    }
  }

  lemma ThirtyNineDigits(v: nat)
    requires v < TWO128
    ensures |Decimal(v)| <= 39
  {
    assert Pow10(10) == 100_0000_0000;
    assert Pow10(20) == 100_0000_0000 * 100_0000_0000;
    assert Pow10(30) == 100_0000_0000 * 100_0000_0000 * 100_0000_0000;
    assert Pow10(39) == 100_0000_0000 * 100_0000_0000 * 100_0000_0000 * 10_0000_0000;
    DecimalLength(v, 39);
  }

  /** With at most one byte of separator every 128-bit value fits the buffer. */
  lemma AlwaysFits(v: nat, sep: string)
    requires v < TWO128 && |sep| <= 1
    ensures |Render(v, sep, 1)| <= 51
  {
    hide Render, Grouped;
    ThirtyNineDigits(v);
    if sep == "" {
      PrintsDecimal(v, 1);
    } else {
      PrintsGrouped(v, sep);
      GroupedLength(Decimal(v), sep);
    }
  }

  // ---------------------------------------------------------------- separators that are too long

  /** Among four digits at least one carries a separator. */
  lemma FourDigits(v: nat, sep: string, c: nat) returns (c': nat)
    requires v >= 10000
    ensures |Render(v, sep, c)| >= 4 + |sep| + |Render(v / 10000, sep, c')|
  {
    hide Render;
    var n := |sep|;
    RenderLength(v, sep, c);
    var c1 := Next(n, c);
    RenderLength(v / 10, sep, c1);
    var c2 := Next(n, c1);
    RenderLength(v / 10 / 10, sep, c2);
    var c3 := Next(n, c2);
    RenderLength(v / 10 / 10 / 10, sep, c3);
    c' := Next(n, c3);
    assert v / 10 / 10 / 10 / 10 == v / 10000;
  }

  /** The count after one more digit. */
  function Next(n: nat, count: nat): nat {
    if count % 4 == 0 then count + n + 1 else count + 1
  }

  lemma RenderLength(v: nat, sep: string, c: nat)
    requires v >= 10
    ensures |Render(v, sep, c)| == Next(|sep|, c) - c + |Render(v / 10, sep, Next(|sep|, c))|
  {
    hide Render;
    if c % 4 == 0 {
      AtGap(v, sep, c);
    } else {
      NoGap(v, sep, c);
    }
  }

  lemma {:induction false} ManyDigits(v: nat, sep: string, c: nat, k: nat)
    requires v >= Pow10(4 * k) && |sep| >= 3
    ensures |Render(v, sep, c)| >= 7 * k
  {
    hide Render;
    if k > 0 {
      Pow10Four(4 * k - 4);
      assert 4 * k - 4 + 4 == 4 * k && 4 * (k - 1) == 4 * k - 4;
      var c' := FourDigits(v, sep, c);
      ManyDigits(v / 10000, sep, c', k - 1);
    }
  }

  /** With two bytes, once the position is right, among three digits one carries a separator. */
  lemma ThreeDigits(v: nat, sep: string, c: nat) returns (c': nat)
    requires v >= 1000 && |sep| == 2 && c % 4 != 1
    ensures c' % 4 != 1 && |Render(v, sep, c)| >= 5 + |Render(v / 1000, sep, c')|
  {
    hide Render;
    RenderLength(v, sep, c);
    var c1 := Next(2, c);
    RenderLength(v / 10, sep, c1);
    var c2 := Next(2, c1);
    RenderLength(v / 10 / 10, sep, c2);
    c' := Next(2, c2);
    assert v / 10 / 10 / 10 == v / 1000;
  }

  lemma {:induction false} ManyThrees(v: nat, sep: string, c: nat, k: nat)
    requires v >= Pow10(3 * k) && |sep| == 2 && c % 4 != 1
    ensures |Render(v, sep, c)| >= 5 * k
  {
    hide Render;
    if k > 0 {
      Pow10Three(3 * k - 3);
      assert 3 * k - 3 + 3 == 3 * k && 3 * (k - 1) == 3 * k - 3;
      var c' := ThreeDigits(v, sep, c);
      ManyThrees(v / 1000, sep, c', k - 1);
    }
  }

  lemma Pow10Four(n: nat)
    ensures Pow10(n + 4) == 10000 * Pow10(n)
  {
    assert Pow10(n + 4) == 10 * Pow10(n + 3) && Pow10(n + 3) == 10 * Pow10(n + 2);
    assert Pow10(n + 2) == 10 * Pow10(n + 1);
  }

  lemma Pow10Three(n: nat)
    ensures Pow10(n + 3) == 1000 * Pow10(n)
  {
    assert Pow10(n + 3) == 10 * Pow10(n + 2) && Pow10(n + 2) == 10 * Pow10(n + 1);
  }

  /** A number of 39 digits. */
  const LARGE := 100_0000_0000_0000_0000_0000_0000_0000_0000_0000

  lemma LargeDigits()
    ensures LARGE < TWO128 && LARGE >= Pow10(36) && LARGE / 10 >= Pow10(36)
  {
    assert Pow10(6) == 1000000 && Pow10(12) == 1000000000000 && Pow10(18) == 1000000000000000000;
    assert Pow10(24) == 1000000_000000_000000_000000 && Pow10(30) == 1000000_000000_000000_000000_000000;
  }

  /** Exactly then: longer separators make a 39-digit number run over the buffer. */
  lemma FitsIff(sep: string)
    ensures (forall v: nat :: v < TWO128 ==> |Render(v, sep, 1)| < 60) <==> |sep| <= 1
  {
    hide Render;
    if |sep| <= 1 {
      forall v: nat | v < TWO128 ensures |Render(v, sep, 1)| < 60 { AlwaysFits(v, sep); }
    } else {
      LargeDigits();
      if |sep| == 2 {
        RenderLength(LARGE, sep, 1);
        ManyThrees(LARGE / 10, sep, 2, 12);
      } else {
        ManyDigits(LARGE, sep, 1, 9);
      }
      assert |Render(LARGE, sep, 1)| >= 60;
    }
  }

  /** The digits of a text, without anything else. */
  function OnlyDigits(s: string): string {
    if s == "" then "" else OnlyDigits(s[..|s| - 1]) + (if IsDigit(s[|s| - 1]) then [s[|s| - 1]] else "")
  }

  lemma {:induction false} OnlyDigitsConcat(s: string, t: string)
    ensures OnlyDigits(s + t) == OnlyDigits(s) + OnlyDigits(t)
  {
    if t == "" {
      assert s + t == s;
    } else {
      assert (s + t)[..|s + t| - 1] == s + t[..|t| - 1];
      OnlyDigitsConcat(s, t[..|t| - 1]);
    }
  }

  lemma {:induction false} DigitsOnly(s: string)
    requires AllDigits(s)
    ensures OnlyDigits(s) == s
  {
    if s != "" {
      DigitsOnly(s[..|s| - 1]);
    }
  }

  lemma SeparatorDropped(c: char)
    requires !IsDigit(c)
    ensures OnlyDigits([c]) == ""
  {}

  lemma {:induction false} StripSeparators(d: string, c: char)
    requires AllDigits(d) && !IsDigit(c)
    ensures OnlyDigits(Grouped(d, [c])) == d
    ensures d != "" ==> Grouped(d, [c]) != "" && Grouped(d, [c])[0] == d[0]
  {
    hide OnlyDigits;
    if |d| <= 3 {
      DigitsOnly(d);
    } else {
      var top, low := d[..|d| - 3], d[|d| - 3..];
      StripSeparators(top, c);
      OnlyDigitsConcat(Grouped(top, [c]) + [c], low);
      OnlyDigitsConcat(Grouped(top, [c]), [c]);
      SeparatorDropped(c);
      DigitsOnly(low);
      assert d == top + low;
    }
  }

  /** Model of `uint128_t_to_string` applied to `le128_to_cpu`: sixteen bytes to numeral. */
  method BytesToString(data: array<u8>, str: array<char>) returns (idx: nat)
    requires data.Length >= 16 && str.Length == 60
    requires data as object != str as object
    modifies str
    ensures idx < 60 && str[59] == '\0'
    ensures str[idx..59] == Decimal(FromLe(old(data[..16])))
    ensures forall s | PlainDigits(s) && DecimalValue(s) == FromLe(old(data[..16])) :: s == str[idx..59]
  {
    var u := Le128ToCpu(data);
    ValueBound(u);
    AlwaysFits(Value(u), "");
    PrintsDecimal(Value(u), 1);
    idx := Uint128ToString(u, false, "", str);
    forall s | PlainDigits(s) && DecimalValue(s) == Value(u) ensures s == Decimal(Value(u)) {
      NumeralUnique(s);
    }
  }

  /** Model of `uint128_t_to_l10n_string` with a one-byte separator. */
  method BytesToLocalString(data: array<u8>, sep: char, str: array<char>) returns (idx: nat)
    requires data.Length >= 16 && str.Length == 60
    requires data as object != str as object
    modifies str
    ensures idx < 60 && str[59] == '\0'
    ensures str[idx..59] == Grouped(Decimal(FromLe(old(data[..16]))), [sep])
  {
    var u := Le128ToCpu(data);
    ValueBound(u);
    AlwaysFits(Value(u), [sep]);
    PrintsGrouped(Value(u), [sep]);
    idx := Uint128ToString(u, true, [sep], str);
  }
}

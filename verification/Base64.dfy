/** Model of nvme-cli/util/base64.c.

The reference is section 4 of RFC 4648: three bytes form one 24-bit group, written as
four symbols of six bits each, and a short last group is completed with '='. The source
instead pushes bytes through a 32-bit accumulator that silently loses its top bits.
*/
module Base64 {
  import opened Common

  const UPPER := "ABCDEFGHIJKLMNOPQRSTUVWXYZ"
  const LOWER := "abcdefghijklmnopqrstuvwxyz"
  const DIGITS := "0123456789"
  const BASE64_TABLE: string := UPPER + LOWER + DIGITS + "+/"

  // ---------------------------------------------------------------- symbols

  /** Position of c in the table, -1 if it is not there: what `strchr` finds. */
  function IndexOf(c: char): (i: int)
    ensures -1 <= i < 64
  {
    if 'A' <= c <= 'Z' then c as int - 'A' as int
    else if 'a' <= c <= 'z' then c as int - 'a' as int + 26
    else if '0' <= c <= '9' then c as int - '0' as int + 52
    else if c == '+' then 62
    else if c == '/' then 63
    else -1
  }

  predicate InAlphabet(c: char) {
    IndexOf(c) >= 0
  }

  lemma UpperAt(i: nat)
    requires i < 26
    ensures UPPER[i] == 'A' + i as char
  {}

  lemma LowerAt(i: nat)
    requires i < 26
    ensures LOWER[i] == 'a' + i as char
  {}

  lemma DigitAt(i: nat)
    requires i < 10
    ensures DIGITS[i] == '0' + i as char
  {}

  lemma TableAt(i: nat)
    requires i < 64
    ensures |BASE64_TABLE| == 64
    ensures BASE64_TABLE[i] == if i < 26 then 'A' + i as char else if i < 52 then 'a' + (i - 26) as char
                               else if i < 62 then '0' + (i - 52) as char else if i == 62 then '+' else '/'
  {
    assert |UPPER| == 26 && |LOWER| == 26 && |DIGITS| == 10;
    if i < 26 { UpperAt(i); } else if i < 52 { LowerAt(i - 26); } else if i < 62 { DigitAt(i - 52); } else {}
  }

  /** The table holds every symbol once, and `IndexOf` is its inverse. */
  lemma TableInverse(i: nat)
    requires i < 64
    ensures |BASE64_TABLE| == 64
    ensures IndexOf(BASE64_TABLE[i]) == i
    ensures BASE64_TABLE[i] != '='
  {
    TableAt(i);
  }

  /** The symbol for a six-bit value. */
  function Symbol(v: bv6): char {
    TableAt(v as nat);
    BASE64_TABLE[v as nat]
  }

  /** The six-bit value of a symbol; padding counts as zero. */
  function Value(c: char): bv6
    requires ValidChar(c)
  {
    if c == '=' then 0 else IndexOf(c) as bv6
  }

  lemma NatOfBv(k: nat)
    requires k < 64
    ensures (k as bv6) as nat == k
  {}

  lemma BvOfNat(v: bv6)
    ensures (v as nat) as bv6 == v
  {}

  lemma SymbolIndex(v: bv6)
    ensures InAlphabet(Symbol(v)) && Symbol(v) != '=' && IndexOf(Symbol(v)) == v as nat
  {
    TableInverse(v as nat);
  }

  lemma ValueOfSymbol(v: bv6)
    ensures InAlphabet(Symbol(v)) && Symbol(v) != '='
    ensures Value(Symbol(v)) == v
  {
    hide Symbol, IndexOf;
    SymbolIndex(v);
    BvOfNat(v);
  }

  lemma IndexInjective(c: char, d: char)
    requires IndexOf(c) == IndexOf(d) >= 0
    ensures c == d
  {}

  lemma PadIsNoSymbol()
    ensures !InAlphabet('=')
  {}

  lemma SymbolOfValue(c: char)
    requires InAlphabet(c)
    ensures Symbol(Value(c)) == c
  {
    hide IndexOf, Symbol;
    PadIsNoSymbol();
    NatOfBv(IndexOf(c));
    SymbolIndex(Value(c));
    IndexInjective(Symbol(Value(c)), c);
  }

  // ---------------------------------------------------------------- encoding: reference

  /** A 24-bit group. */
  function Group(a: bv8, b: bv8, c: bv8): bv32 {
    (a as bv32 << 16) | (b as bv32 << 8) | c as bv32
  }

  lemma SixFit(x: bv32)
    ensures x & 0x3f < 64
  {}

  function Low6(x: bv32): bv6 {
    SixFit(x);
    (x & 0x3f) as bv6
  }

  /** Six bits of a group, k = 0 for the most significant ones. */
  function Six(g: bv32, k: nat): bv6
    requires k < 4
  {
    if k == 0 then Low6(g >> 18) else if k == 1 then Low6(g >> 12) else if k == 2 then Low6(g >> 6) else Low6(g)
  }

  /** One to three bytes as one group of four characters. */
  function Text(b: seq<bv8>): (t: string)
    requires 1 <= |b| <= 3
    ensures |t| == 4
  {
    var g := Group(b[0], if |b| >= 2 then b[1] else 0, if |b| >= 3 then b[2] else 0);
    [Symbol(Six(g, 0)), Symbol(Six(g, 1)),
     if |b| >= 2 then Symbol(Six(g, 2)) else '=', if |b| >= 3 then Symbol(Six(g, 3)) else '=']
  }

  /** Section 4 of RFC 4648. */
  function Encode(b: seq<bv8>): string {
    if b == [] then "" else if |b| <= 3 then Text(b) else Text(b[..3]) + Encode(b[3..])
  }

  /** Four symbols for every three bytes begun. */
  lemma {:induction false} EncodedLength(b: seq<bv8>)
    ensures |Encode(b)| == (|b| + 2) / 3 * 4
  {
    hide Text;
    if |b| > 3 {
      EncodedLength(b[3..]);
    }
  }

  // ---------------------------------------------------------------- encoding: the loop

  /** The symbols written once every bit of b that completes a symbol has been written. */
  function Complete(b: seq<bv8>): string {
    if b == [] then "" else if |b| <= 3 then Text(b)[..if |b| == 3 then 4 else |b|] else Text(b[..3]) + Complete(b[3..])
  }

  /** Six bits of the accumulator, `bits` places up. */
  function Take(ac: bv32, bits: nat): bv6
    requires bits <= 8
  {
    Low6(ac >> bits)
  }

  /** The low `bits` bits of the accumulator, filled up with zeros to six. */
  function Fill(ac: bv32, bits: nat): bv6
    requires bits <= 6
  {
    Low6(ac << (6 - bits))
  }

  function Push(ac: bv32, x: bv8): bv32 {
    (ac << 8) | x as bv32
  }

  function LowByte(ac: bv32): bv8 {
    LowByteFits(ac);
    (ac & 0xff) as bv8
  }

  lemma LowByteFits(ac: bv32)
    ensures ac & 0xff < 256
  {}

  /** The last byte pushed is the low byte of the accumulator. */
  ghost predicate Holds(ac: bv32, b: seq<bv8>) {
    |b| > 0 ==> LowByte(ac) == b[|b| - 1]
  }

  lemma PushHolds(ac: bv32, x: bv8)
    ensures LowByte(Push(ac, x)) == x
  {}

  /** The symbols that the byte pushed last completes after n earlier ones. */
  function Pushed(n: nat, ac: bv32): string {
    if n % 3 == 0 then [Symbol(Take(ac, 2))]
    else if n % 3 == 1 then [Symbol(Take(ac, 4))]
    else [Symbol(Take(ac, 6)), Symbol(Take(ac, 0))]
  }

  lemma FirstSix(ac: bv32, x: bv8)
    ensures Six(Group(x, 0, 0), 0) == Take(Push(ac, x), 2)
  {}

  lemma SecondSix(ac: bv32, a: bv8, x: bv8)
    requires LowByte(ac) == a
    ensures Six(Group(a, x, 0), 0) == Six(Group(a, 0, 0), 0)
    ensures Six(Group(a, x, 0), 1) == Take(Push(ac, x), 4)
  {}

  lemma LastSixes(ac: bv32, a: bv8, b: bv8, x: bv8)
    requires LowByte(ac) == b
    ensures Six(Group(a, b, x), 0) == Six(Group(a, b, 0), 0)
    ensures Six(Group(a, b, x), 1) == Six(Group(a, b, 0), 1)
    ensures Six(Group(a, b, x), 2) == Take(Push(ac, x), 6)
    ensures Six(Group(a, b, x), 3) == Take(Push(ac, x), 0)
  {}

  lemma PushFirst(x: bv8, ac: bv32)
    ensures Text([x])[..1] == Pushed(0, Push(ac, x))
  {
    hide Six, Group, Symbol, Take, Push;
    FirstSix(ac, x);
  }

  lemma PushSecond(a: bv8, x: bv8, ac: bv32)
    requires LowByte(ac) == a
    ensures Text([a, x])[..2] == Text([a])[..1] + Pushed(1, Push(ac, x))
  {
    hide Six, Group, Symbol, Take, Push, LowByte;
    SecondSix(ac, a, x);
  }

  lemma PushThird(a: bv8, b: bv8, x: bv8, ac: bv32)
    requires LowByte(ac) == b
    ensures Text([a, b, x]) == Text([a, b])[..2] + Pushed(2, Push(ac, x))
  {
    hide Six, Group, Symbol, Take, Push, LowByte;
    LastSixes(ac, a, b, x);
  }

  /** Pushing one more byte appends exactly the symbols read off the accumulator, however
      many bits the accumulator has lost at its top. */
  lemma {:induction false} CompleteSnoc(b: seq<bv8>, x: bv8, ac: bv32)
    requires Holds(ac, b)
    ensures Complete(b + [x]) == Complete(b) + Pushed(|b|, Push(ac, x))
    decreases |b|
  {
    hide Text, Pushed, Push, Holds, LowByte;
    PushedMod(|b|, Push(ac, x));
    if |b| == 0 {
      PushFirst(x, ac);
      assert b + [x] == [x];
    } else if |b| == 1 {
      HeldSuffix(ac, b, 0);
      PushSecond(b[0], x, ac);
      assert b == [b[0]] && b + [x] == [b[0], x];
    } else if |b| == 2 {
      HeldSuffix(ac, b, 0);
      PushThird(b[0], b[1], x, ac);
      assert b == [b[0], b[1]] && b + [x] == [b[0], b[1], x];
    } else {
      assert (b + [x])[3..] == b[3..] + [x] && (b + [x])[..3] == b[..3];
      HeldSuffix(ac, b, 3);
      CompleteSnoc(b[3..], x, ac);
      PushedMod(|b| - 3, Push(ac, x));
      ThreeMore(b);
    }
  }

  lemma HeldSuffix(ac: bv32, b: seq<bv8>, k: nat)
    requires Holds(ac, b) && b != [] && k <= |b|
    ensures LowByte(ac) == b[|b| - 1] && Holds(ac, b[k..])
  {}

  lemma PushedMod(n: nat, ac: bv32)
    ensures Pushed(n, ac) == Pushed(n % 3, ac)
  {}

  lemma ThreeMore(b: seq<bv8>)
    requires |b| >= 3
    ensures Complete(b) == Text(b[..3]) + Complete(b[3..])
  {
    hide Text;
    assert |b| == 3 ==> b[..3] == b && Text(b)[..4] == Text(b);
  }

  /** What the source appends after the loop. */
  function Tail(n: nat, ac: bv32): string {
    if n % 3 == 0 then ""
    else if n % 3 == 1 then [Symbol(Fill(ac, 2))] + "=="
    else [Symbol(Fill(ac, 4))] + "="
  }

  lemma TailSixes(ac: bv32, a: bv8, b: bv8)
    ensures LowByte(ac) == a ==> Six(Group(a, 0, 0), 1) == Fill(ac, 2)
    ensures LowByte(ac) == b ==> Six(Group(a, b, 0), 2) == Fill(ac, 4)
  {}

  lemma TailOne(a: bv8, ac: bv32)
    requires LowByte(ac) == a
    ensures Text([a]) == Text([a])[..1] + Tail(1, ac)
  {
    hide Six, Group, Symbol, Fill, LowByte;
    TailSixes(ac, a, a);
  }

  lemma TailTwo(a: bv8, b: bv8, ac: bv32)
    requires LowByte(ac) == b
    ensures Text([a, b]) == Text([a, b])[..2] + Tail(2, ac)
  {
    hide Six, Group, Symbol, Fill, LowByte;
    TailSixes(ac, a, b);
  }

  lemma TailMod(n: nat, ac: bv32)
    ensures Tail(n, ac) == Tail(n % 3, ac)
    ensures n % 3 == 0 ==> Tail(n, ac) == ""
  {}

  lemma {:induction false} CompleteTail(b: seq<bv8>, ac: bv32)
    requires Holds(ac, b)
    ensures Encode(b) == Complete(b) + Tail(|b|, ac)
    decreases |b|
  {
    hide Text, Tail, LowByte;
    TailMod(|b|, ac);
    if |b| == 0 {
    } else if |b| == 1 {
      TailOne(b[0], ac);
      assert b == [b[0]];
    } else if |b| == 2 {
      TailTwo(b[0], b[1], ac);
      assert b == [b[0], b[1]];
    } else if |b| == 3 {
      assert Text(b)[..4] == Text(b);
    } else {
      CompleteTail(b[3..], ac);
      TailMod(|b| - 3, ac);
    }
  }

  lemma {:induction false} CompleteLength(b: seq<bv8>)
    ensures |Complete(b)| <= |Encode(b)| == (|b| + 2) / 3 * 4
  {
    hide Text;
    EncodedLength(b);
    if |b| > 3 {
      CompleteLength(b[3..]);
    }
  }

  /** The inner do-while loop: write every symbol that is complete. */
  method PutComplete(ghost n: nat, ac: bv32, pending: nat, dst: array<char>, start: nat) returns (bits: nat, cp: nat)
    requires pending == 2 * (n % 3) + 8
    requires start + |Pushed(n, ac)| <= dst.Length
    modifies dst
    ensures bits == 2 * ((n + 1) % 3)
    ensures cp == start + |Pushed(n, ac)|
    ensures dst[..cp] == old(dst[..start]) + Pushed(n, ac)
    ensures forall k :: cp <= k < dst.Length ==> dst[k] == old(dst[k])
  {
    hide Symbol, Take;
    ghost var out := Pushed(n, ac);
    bits := pending - 6;
    dst[start] := Symbol(Take(ac, bits));
    cp := start + 1;
    while bits >= 6
      invariant start < cp <= start + |out| && bits == 2 * ((n + 1) % 3) + 6 * (start + |out| - cp)
      invariant dst[..cp] == old(dst[..start]) + out[..cp - start]
      invariant forall k :: cp <= k < dst.Length ==> dst[k] == old(dst[k])
    {
      bits := bits - 6;
      dst[cp] := Symbol(Take(ac, bits));
      cp := cp + 1;
    }
    assert out[..|out|] == out;
  }

  /** The code after the loop: the last symbol, if bits are left over, and the padding. */
  method PutTail(ghost n: nat, ac: bv32, pending: nat, dst: array<char>, start: nat) returns (cp: nat)
    requires pending == 2 * (n % 3)
    requires start + |Tail(n, ac)| <= dst.Length
    modifies dst
    ensures cp == start + |Tail(n, ac)|
    ensures dst[..cp] == old(dst[..start]) + Tail(n, ac)
    ensures forall k :: cp <= k < dst.Length ==> dst[k] == old(dst[k])
  {
    hide Symbol, Fill;
    ghost var tail := Tail(n, ac);
    var bits: int := pending;
    cp := start;
    if bits != 0 {
      dst[cp] := Symbol(Fill(ac, bits));
      cp := cp + 1;
      bits := bits - 6;
    }
    while bits < 0
      invariant start <= cp <= start + |tail| && bits == 2 * (cp - start - |tail|)
      invariant dst[..cp] == old(dst[..start]) + tail[..cp - start]
      invariant forall k :: cp <= k < dst.Length ==> dst[k] == old(dst[k])
    {
      dst[cp] := '=';
      cp := cp + 1;
      bits := bits + 2;
    }
    assert tail[..|tail|] == tail;
  }

  /** Model of `base64_encode`. The accumulator is 32 bits wide and overflows silently. */
  method Base64Encode(src: array<bv8>, srclen: nat, dst: array<char>) returns (n: nat)
    requires srclen <= src.Length
    requires (srclen + 2) / 3 * 4 <= dst.Length
    requires src as object != dst as object
    modifies dst
    ensures n == (srclen + 2) / 3 * 4
    ensures dst[..n] == Encode(src[..srclen])
    ensures forall k :: n <= k < dst.Length ==> dst[k] == old(dst[k])
  {
    hide *;
    var bits := 0;
    var ac: bv32 := 0;
    var cp := 0;
    var i := 0;
    ghost var msg := src[..srclen];
    EncodeNothing();
    assert msg[..0] == [];
    NothingHeld(ac);
    while i < srclen
      invariant 0 <= i <= srclen
      invariant src[..srclen] == msg
      invariant bits == 2 * (i % 3)
      invariant Holds(ac, msg[..i])
      invariant 0 <= cp <= dst.Length && dst[..cp] == Complete(msg[..i])
      invariant forall k :: cp <= k < dst.Length ==> dst[k] == old(dst[k])
    {
      ghost var done := msg[..i];
      assert msg[..i + 1] == done + [src[i]];
      CompleteSnoc(done, src[i], ac);
      CompleteLength(done + [src[i]]);
      PushHolds(ac, src[i]);
      ac := Push(ac, src[i]);
      HeldLast(ac, done, src[i]);
      bits, cp := PutComplete(i, ac, bits + 8, dst, cp);
      i := i + 1;
    }
    assert msg[..srclen] == msg;
    CompleteTail(msg, ac);
    EncodedLength(msg);
    n := PutTail(srclen, ac, bits, dst, cp);
  }

  lemma EncodeNothing()
    ensures Complete([]) == "" && Encode([]) == ""
  {}

  lemma NothingHeld(ac: bv32)
    ensures Holds(ac, [])
  {}

  lemma HeldLast(ac: bv32, b: seq<bv8>, x: bv8)
    requires LowByte(ac) == x
    ensures Holds(ac, b + [x])
  {}

  // ---------------------------------------------------------------- decoding: specification

  datatype Decoded = Ok(bytes: seq<bv8>) | Invalid | Again

  predicate ValidChar(c: char) {
    InAlphabet(c) || c == '='
  }

  predicate ValidText(s: string) {
    forall i :: 0 <= i < |s| ==> ValidChar(s[i])
  }

  /** The 24-bit group spelled by four six-bit values. */
  function Join(a: bv6, b: bv6, c: bv6, d: bv6): bv32 {
    (a as bv32 << 18) | (b as bv32 << 12) | (c as bv32 << 6) | d as bv32
  }

  function Low8(x: bv32): bv8 {
    LowByteFits(x);
    (x & 0xff) as bv8
  }

  /** One byte of a 24-bit group, k = 0 for the most significant one. */
  function Octet(g: bv32, k: nat): bv8 {
    if k == 0 then Low8(g >> 16) else if k == 1 then Low8(g >> 8) else Low8(g)
  }

  /** Eight bits of the accumulator, `bits` places up. */
  function Pop(ac: bv32, bits: nat): bv8
    requires bits <= 8
  {
    Low8(ac >> bits)
  }

  /** The byte that the character at position `at` of its group of four completes, if any:
      the first character completes none, and padding stands for none. */
  function Completes(at: nat, c: char, byte: bv8): seq<bv8> {
    if at % 4 == 0 || c == '=' then [] else [byte]
  }

  /** The bytes spelled by at most four characters; missing ones count as zero. */
  function Spell(s: string): seq<bv8>
    requires |s| <= 4 && ValidText(s)
  {
    if |s| <= 1 then [] else
      var g := Join(Value(s[0]), Value(s[1]), if |s| >= 3 then Value(s[2]) else 0, if |s| >= 4 then Value(s[3]) else 0);
      Completes(1, s[1], Octet(g, 0))
      + (if |s| >= 3 then Completes(2, s[2], Octet(g, 1)) else [])
      + (if |s| >= 4 then Completes(3, s[3], Octet(g, 2)) else [])
  }

  /** The bytes spelled by a text, group by group. */
  function Bytes(s: string): seq<bv8>
    requires ValidText(s)
  {
    if |s| <= 4 then Spell(s) else Spell(s[..4]) + Bytes(s[4..])
  }

  /** The last 32 bits of the six-bit values of a text. */
  function Last32(s: string): bv32
    requires ValidText(s)
  {
    if s == "" then 0 else Shove(Last32(s[..|s| - 1]), Value(s[|s| - 1]))
  }

  function Shove(ac: bv32, v: bv6): bv32 {
    (ac << 6) | v as bv32
  }

  function Decode(s: string): Decoded {
    if !ValidText(s) then Invalid
    else if |s| % 4 != 0 && Last32(s) != 0 then Again
    else Ok(Bytes(s))
  }

  // ---------------------------------------------------------------- decoding: the loop

  ghost predicate HoldsValue(ac: bv32, s: string)
    requires ValidText(s)
  {
    s != "" ==> Low6(ac) == Value(s[|s| - 1])
  }

  lemma ShoveHolds(ac: bv32, v: bv6)
    ensures Low6(Shove(ac, v)) == v
  {}

  /** The byte read off the accumulator after n + 1 characters. */
  function Popped(n: nat, ac: bv32): bv8 {
    if n % 4 == 1 then Pop(ac, 4) else if n % 4 == 2 then Pop(ac, 2) else Pop(ac, 0)
  }

  lemma SecondChar(ac: bv32, a: bv6, b: bv6)
    requires Low6(ac) == a
    ensures Octet(Join(a, b, 0, 0), 0) == Pop(Shove(ac, b), 4)
  {}

  lemma ThirdChar(ac: bv32, a: bv6, b: bv6, c: bv6)
    requires Low6(ac) == b
    ensures Octet(Join(a, b, c, 0), 0) == Octet(Join(a, b, 0, 0), 0)
    ensures Octet(Join(a, b, c, 0), 1) == Pop(Shove(ac, c), 2)
  {}

  lemma FourthChar(ac: bv32, a: bv6, b: bv6, c: bv6, d: bv6)
    requires Low6(ac) == c
    ensures Octet(Join(a, b, c, d), 0) == Octet(Join(a, b, c, 0), 0)
    ensures Octet(Join(a, b, c, d), 1) == Octet(Join(a, b, c, 0), 1)
    ensures Octet(Join(a, b, c, d), 2) == Pop(Shove(ac, d), 0)
  {}

  /** What the character after the n characters already seen adds. */
  function Added(n: nat, c: char, ac: bv32): seq<bv8>
    requires ValidChar(c)
  {
    Completes(n, c, Popped(n, Shove(ac, Value(c))))
  }

  lemma AddedMod(n: nat, c: char, ac: bv32)
    requires ValidChar(c)
    ensures Added(n, c, ac) == Added(n % 4, c, ac)
    ensures n % 4 == 0 ==> Added(n, c, ac) == []
  {}

  lemma SpellSecond(a: char, c: char, ac: bv32)
    requires ValidChar(a) && ValidChar(c) && Low6(ac) == Value(a)
    ensures Spell([a, c]) == Spell([a]) + Added(1, c, ac)
  {
    hide Value, Join, Shove, Low6, Octet, Pop, ValidChar;
    SecondChar(ac, Value(a), Value(c));
  }

  lemma SpellThird(a: char, b: char, c: char, ac: bv32)
    requires ValidChar(a) && ValidChar(b) && ValidChar(c) && Low6(ac) == Value(b)
    ensures Spell([a, b, c]) == Spell([a, b]) + Added(2, c, ac)
  {
    hide Value, Join, Shove, Low6, Octet, Pop, ValidChar;
    ThirdChar(ac, Value(a), Value(b), Value(c));
  }

  lemma SpellFourth(a: char, b: char, c: char, d: char, ac: bv32)
    requires ValidChar(a) && ValidChar(b) && ValidChar(c) && ValidChar(d) && Low6(ac) == Value(c)
    ensures Spell([a, b, c, d]) == Spell([a, b, c]) + Added(3, d, ac)
  {
    hide Value, Join, Shove, Low6, Octet, Pop, ValidChar;
    FourthChar(ac, Value(a), Value(b), Value(c), Value(d));
  }

  lemma SpellSnoc(s: string, c: char, ac: bv32)
    requires |s| <= 3 && ValidText(s) && ValidChar(c) && HoldsValue(ac, s)
    ensures ValidText(s + [c]) && Spell(s + [c]) == Spell(s) + Added(|s|, c, ac)
  {
    hide Spell, Added, Low6, Value, ValidChar;
    if |s| == 0 {
      AddedMod(0, c, ac);
      SpellFew(s);
      SpellFew(s + [c]);
    } else if |s| == 1 {
      assert s == [s[0]] && s + [c] == [s[0], c];
      SpellSecond(s[0], c, ac);
    } else if |s| == 2 {
      assert s == [s[0], s[1]] && s + [c] == [s[0], s[1], c];
      SpellThird(s[0], s[1], c, ac);
    } else {
      assert s == [s[0], s[1], s[2]] && s + [c] == [s[0], s[1], s[2], c];
      SpellFourth(s[0], s[1], s[2], c, ac);
    }
  }

  lemma SpellFew(s: string)
    requires |s| <= 1 && ValidText(s)
    ensures Spell(s) == []
  {}

  lemma BytesCut(s: string)
    requires ValidText(s)
    ensures |s| <= 4 ==> Bytes(s) == Spell(s)
    ensures |s| > 4 ==> ValidText(s[4..]) && Bytes(s) == Spell(s[..4]) + Bytes(s[4..])
  {
    hide Spell, ValidChar;
  }

  lemma {:induction false} BytesSnoc(s: string, c: char, ac: bv32)
    requires ValidText(s) && ValidChar(c)
    requires HoldsValue(ac, s)
    ensures ValidText(s + [c])
    ensures Bytes(s + [c]) == Bytes(s) + Added(|s|, c, ac)
    decreases |s|
  {
    hide Spell, Added, HoldsValue, ValidChar, Bytes;
    var t := s + [c];
    BytesCut(s);
    BytesCut(t);
    BytesCut([c]);
    if |s| <= 3 {
      SpellSnoc(s, c, ac);
    } else if |s| == 4 {
      assert t[..4] == s && t[4..] == [c];
      AddedMod(4, c, ac);
      SpellFew([c]);
    } else {
      assert t[4..] == s[4..] + [c] && t[..4] == s[..4];
      HoldsSuffix(ac, s);
      BytesSnoc(s[4..], c, ac);
      AddedMod(|s|, c, ac);
      AddedMod(|s| - 4, c, ac);
    }
  }

  lemma HoldsSuffix(ac: bv32, s: string)
    requires ValidText(s) && |s| > 4 && HoldsValue(ac, s)
    ensures ValidText(s[4..]) && HoldsValue(ac, s[4..])
  {
    hide Value, Low6, ValidChar;
  }

  lemma SpellLength(s: string)
    requires |s| <= 4 && ValidText(s)
    ensures |Spell(s)| <= |s| * 3 / 4
  {}

  lemma {:induction false} BytesLength(s: string)
    requires ValidText(s)
    ensures |Bytes(s)| <= |s| * 3 / 4
  {
    hide Spell, ValidChar;
    SpellLength(s[..if |s| <= 4 then |s| else 4]);
    if |s| > 4 {
      BytesLength(s[4..]);
      assert |s| * 3 / 4 == |s[4..]| * 3 / 4 + 3;
    } else {
      assert s[..|s|] == s;
    }
  }

  /** Decoding s writes at most `room` bytes, even if it stops at an invalid character. */
  ghost predicate StaysInside(s: string, room: nat) {
    forall i :: 0 <= i <= |s| && ValidText(s[..i]) ==> |Bytes(s[..i])| <= room
  }

  /** All texts of n characters stay inside exactly if three quarters of n do. */
  lemma StaysInsideIff(n: nat, room: nat)
    ensures (forall s: string :: |s| == n ==> StaysInside(s, room)) <==> n * 3 / 4 <= room
  {
    hide Bytes;
    if n * 3 / 4 <= room {
      forall s: string, i | |s| == n && 0 <= i <= n && ValidText(s[..i]) ensures |Bytes(s[..i])| <= room {
        BytesLength(s[..i]);
      }
    } else {
      var s := As(n);
      AsLength(n);
      assert s[..n] == s;
      assert !StaysInside(s, room);
    }
  }

  function As(n: nat): string {
    seq(n, i => 'A')
  }

  lemma {:induction false} AsLength(n: nat)
    ensures ValidText(As(n)) && |Bytes(As(n))| == n * 3 / 4
  {
    hide Value, Join, Octet;
    if n > 4 {
      AsLength(n - 4);
      assert As(n)[..4] == As(4) && As(n)[4..] == As(n - 4);
    }
  }

  /** Bits of n characters that do not yet make a byte: 6 * n modulo 8. */
  function Spare(n: nat): nat {
    if n % 4 == 0 then 0 else if n % 4 == 1 then 6 else if n % 4 == 2 then 4 else 2
  }

  /** The loop body for a valid character: shift it in and write the byte it completes. */
  method PutChar(ghost n: nat, c: char, acc: bv32, pending: nat, dst: array<bv8>, start: nat)
    returns (ac: bv32, bits: nat, bp: nat)
    requires ValidChar(c)
    requires pending == Spare(n)
    requires start + |Completes(n, c, 0)| <= dst.Length
    modifies dst
    ensures ac == Shove(acc, Value(c))
    ensures bits == Spare(n + 1)
    ensures bp == start + |Completes(n, c, 0)|
    ensures dst[..bp] == old(dst[..start]) + Completes(n, c, Popped(n, ac))
  {
    hide Value, Shove, Pop, ValidChar;
    PadValue();
    bits, bp := pending, start;
    if c == '=' {
      ac := Shove(acc, 0);
      bits := bits + 6;
      if bits >= 8 {
        bits := bits - 8;
      }
      return;
    }
    ac := Shove(acc, Value(c));
    bits := bits + 6;
    if bits >= 8 {
      bits := bits - 8;
      dst[bp] := Pop(ac, bits);
      bp := bp + 1;
    }
  }

  /** Model of `base64_decode`. */
  method Base64Decode(src: array<char>, srclen: nat, dst: array<bv8>) returns (r: int)
    requires srclen <= src.Length
    requires StaysInside(src[..srclen], dst.Length)
    requires src as object != dst as object
    modifies dst
    ensures match Decode(src[..srclen])
            case Invalid => r == -EINVAL
            case Again => r == -EAGAIN
            case Ok(bytes) => r == |bytes| && r <= dst.Length && dst[..r] == bytes
  {
    hide Value, InAlphabet, ValidChar, Shove, Popped, Bytes, Last32, HoldsValue, Completes;
    var ac: bv32 := 0;
    var bits := 0;
    var bp := 0;
    var i := 0;
    ghost var text := src[..srclen];
    SpellNothing();
    assert text[..0] == "";
    while i < srclen
      invariant 0 <= i <= srclen
      invariant src[..srclen] == text
      invariant ValidText(text[..i])
      invariant ac == Last32(text[..i]) && HoldsValue(ac, text[..i])
      invariant bits == Spare(i)
      invariant 0 <= bp <= dst.Length && dst[..bp] == Bytes(text[..i])
    {
      if !ValidChar(src[i]) {
        assert !ValidChar(text[i]);
        return -EINVAL;
      }
      ghost var done := text[..i];
      assert text[..i + 1] == done + [src[i]];
      BytesSnoc(done, src[i], ac);
      assert |Bytes(text[..i + 1])| <= dst.Length;
      SameCount(i, src[i], 0, Popped(i, Shove(ac, Value(src[i]))));
      Last32Snoc(done, src[i]);
      KeepsLast(ac, done, src[i]);
      ac, bits, bp := PutChar(i, src[i], ac, bits, dst, bp);
      i := i + 1;
    }
    assert text[..srclen] == text;
    if ac != 0 && bits != 0 {
      return -EAGAIN;
    }
    return bp;
  }

  lemma SameCount(n: nat, c: char, x: bv8, y: bv8)
    ensures |Completes(n, c, x)| == |Completes(n, c, y)|
  {}

  lemma SpellNothing()
    ensures Bytes("") == [] && Last32("") == 0 && HoldsValue(0, "")
  {}

  lemma KeepsLast(ac: bv32, s: string, c: char)
    requires ValidText(s) && ValidChar(c)
    ensures ValidText(s + [c]) && HoldsValue(Shove(ac, Value(c)), s + [c])
  {
    hide Value, Shove, Low6, ValidChar;
    ShoveHolds(ac, Value(c));
  }

  lemma Last32Snoc(s: string, c: char)
    requires ValidText(s) && ValidChar(c)
    ensures ValidText(s + [c]) && Last32(s + [c]) == Shove(Last32(s), Value(c))
  {
    hide Shove, Value, ValidChar;
    assert (s + [c])[..|s|] == s;
  }

  // ---------------------------------------------------------------- round trips

  lemma PackUnpack(a: bv8, b: bv8, c: bv8)
    ensures var g := Group(a, b, c); Join(Six(g, 0), Six(g, 1), Six(g, 2), Six(g, 3)) == g
    ensures Octet(Group(a, b, c), 0) == a && Octet(Group(a, b, c), 1) == b && Octet(Group(a, b, c), 2) == c
  {}

  lemma ShortGroups(a: bv8, b: bv8)
    ensures Six(Group(a, 0, 0), 2) == 0 && Six(Group(a, 0, 0), 3) == 0
    ensures Six(Group(a, b, 0), 3) == 0
  {}

  lemma SymbolFacts(v: bv6)
    ensures InAlphabet(Symbol(v)) && ValidChar(Symbol(v)) && Symbol(v) != '=' && Value(Symbol(v)) == v
  {
    ValueOfSymbol(v);
  }

  lemma RoundTripOne(a: bv8)
    ensures ValidText(Text([a])) && Spell(Text([a])) == [a]
  {
    hide Symbol, Value, IndexOf, Six, InAlphabet, Join, Octet, Group;
    var g := Group(a, 0, 0);
    SymbolFacts(Six(g, 0));
    SymbolFacts(Six(g, 1));
    PadValue();
    ShortGroups(a, 0);
    PackUnpack(a, 0, 0);
  }

  lemma RoundTripTwo(a: bv8, b: bv8)
    ensures ValidText(Text([a, b])) && Spell(Text([a, b])) == [a, b]
  {
    hide Symbol, Value, IndexOf, Six, InAlphabet, Join, Octet, Group;
    var g := Group(a, b, 0);
    SymbolFacts(Six(g, 0));
    SymbolFacts(Six(g, 1));
    SymbolFacts(Six(g, 2));
    PadValue();
    ShortGroups(a, b);
    PackUnpack(a, b, 0);
  }

  lemma RoundTripThree(a: bv8, b: bv8, c: bv8)
    ensures ValidText(Text([a, b, c])) && Spell(Text([a, b, c])) == [a, b, c]
  {
    hide Symbol, Value, IndexOf, Six, InAlphabet, Join, Octet, Group;
    var g := Group(a, b, c);
    SymbolFacts(Six(g, 0));
    SymbolFacts(Six(g, 1));
    SymbolFacts(Six(g, 2));
    SymbolFacts(Six(g, 3));
    PackUnpack(a, b, c);
  }

  lemma RoundTripGroup(b: seq<bv8>)
    requires 1 <= |b| <= 3
    ensures ValidText(Text(b)) && Spell(Text(b)) == b
  {
    hide Text, Spell;
    if |b| == 1 {
      assert b == [b[0]];
      RoundTripOne(b[0]);
    } else if |b| == 2 {
      assert b == [b[0], b[1]];
      RoundTripTwo(b[0], b[1]);
    } else {
      assert b == [b[0], b[1], b[2]];
      RoundTripThree(b[0], b[1], b[2]);
    }
  }

  /** Decoding an encoded message returns the message, whatever its length. */
  lemma {:induction false} RoundTrip(b: seq<bv8>)
    ensures ValidText(Encode(b)) && Bytes(Encode(b)) == b
  {
    hide Text, Spell, ValidChar;
    if b == [] {
      SpellFew("");
    } else if |b| <= 3 {
      RoundTripGroup(b);
    } else {
      RoundTripGroup(b[..3]);
      RoundTrip(b[3..]);
      EncodedLength(b[3..]);
      assert Encode(b)[..4] == Text(b[..3]) && Encode(b)[4..] == Encode(b[3..]);
      assert b == b[..3] + b[3..];
    }
  }

  lemma PadValue()
    ensures Value('=') == 0
  {}

  lemma DecodeEncode(b: seq<bv8>)
    ensures Decode(Encode(b)) == Ok(b)
  {
    hide Encode, Bytes, Last32;
    EncodedLength(b);
    RoundTrip(b);
  }

  // ---------------------------------------------------------------- which texts survive

  /** The texts section 4 of RFC 4648 produces: whole groups of symbols, the last one
      possibly padded, and then with its unused bits zero. */
  predicate Canonical(t: string) {
    if t == "" then true
    else if |t| < 4 then false
    else if |t| == 4 then Full(t) || PaddedOne(t) || PaddedTwo(t)
    else Full(t[..4]) && Canonical(t[4..])
  }

  predicate Full(q: string)
    requires |q| == 4
  {
    InAlphabet(q[0]) && InAlphabet(q[1]) && InAlphabet(q[2]) && InAlphabet(q[3])
  }

  predicate PaddedOne(q: string)
    requires |q| == 4
  {
    InAlphabet(q[0]) && InAlphabet(q[1]) && InAlphabet(q[2]) && q[3] == '=' && Value(q[2]) & 3 == 0
  }

  predicate PaddedTwo(q: string)
    requires |q| == 4
  {
    InAlphabet(q[0]) && InAlphabet(q[1]) && q[2] == '=' && q[3] == '=' && Value(q[1]) & 15 == 0
  }

  lemma UnusedBits(a: bv8, b: bv8)
    ensures Six(Group(a, 0, 0), 1) & 15 == 0
    ensures Six(Group(a, b, 0), 2) & 3 == 0
  {}

  lemma TextIsCanonical(b: seq<bv8>)
    requires 1 <= |b| <= 3
    ensures Full(Text(b)) || PaddedOne(Text(b)) || PaddedTwo(Text(b))
    ensures |b| == 3 ==> Full(Text(b))
  {
    hide Symbol, Value, IndexOf, Six, InAlphabet, Group;
    var g := Group(b[0], if |b| >= 2 then b[1] else 0, if |b| >= 3 then b[2] else 0);
    SymbolFacts(Six(g, 0));
    SymbolFacts(Six(g, 1));
    SymbolFacts(Six(g, 2));
    SymbolFacts(Six(g, 3));
    UnusedBits(b[0], if |b| >= 2 then b[1] else 0);
  }

  lemma {:induction false} EncodeIsCanonical(b: seq<bv8>)
    ensures Canonical(Encode(b))
  {
    hide Text, Full, PaddedOne, PaddedTwo;
    if b == [] {
    } else if |b| <= 3 {
      TextIsCanonical(b);
    } else {
      TextIsCanonical(b[..3]);
      EncodeIsCanonical(b[3..]);
      EncodedLength(b[3..]);
      assert Encode(b)[..4] == Text(b[..3]) && Encode(b)[4..] == Encode(b[3..]);
    }
  }

  lemma UnpackPack(a: bv6, b: bv6, c: bv6, d: bv6)
    ensures var g := Join(a, b, c, d); Group(Octet(g, 0), Octet(g, 1), Octet(g, 2)) == g
    ensures Six(Join(a, b, c, d), 0) == a && Six(Join(a, b, c, d), 1) == b
    ensures Six(Join(a, b, c, d), 2) == c && Six(Join(a, b, c, d), 3) == d
  {}

  lemma UnpackPackTwo(a: bv6, b: bv6, c: bv6)
    requires c & 3 == 0
    ensures var g := Join(a, b, c, 0); Group(Octet(g, 0), Octet(g, 1), 0) == g
  {}

  lemma UnpackPackOne(a: bv6, b: bv6)
    requires b & 15 == 0
    ensures var g := Join(a, b, 0, 0); Group(Octet(g, 0), 0, 0) == g
  {}

  lemma FullSurvives(q: string)
    requires |q| == 4 && Full(q)
    ensures ValidText(q) && |Spell(q)| == 3 && Text(Spell(q)) == q
  {
    hide Symbol, Value, IndexOf, Six, InAlphabet, Group, Join, Octet;
    PadIsNoSymbol();
    SymbolOfValue(q[0]);
    SymbolOfValue(q[1]);
    SymbolOfValue(q[2]);
    SymbolOfValue(q[3]);
    UnpackPack(Value(q[0]), Value(q[1]), Value(q[2]), Value(q[3]));
  }

  lemma PaddedOneSurvives(q: string)
    requires |q| == 4 && PaddedOne(q)
    ensures ValidText(q) && |Spell(q)| == 2 && Text(Spell(q)) == q
  {
    hide Symbol, Value, IndexOf, Six, InAlphabet, Group, Join, Octet;
    PadIsNoSymbol();
    PadValue();
    SymbolOfValue(q[0]);
    SymbolOfValue(q[1]);
    SymbolOfValue(q[2]);
    UnpackPack(Value(q[0]), Value(q[1]), Value(q[2]), 0);
    UnpackPackTwo(Value(q[0]), Value(q[1]), Value(q[2]));
  }

  lemma PaddedTwoSurvives(q: string)
    requires |q| == 4 && PaddedTwo(q)
    ensures ValidText(q) && |Spell(q)| == 1 && Text(Spell(q)) == q
  {
    hide Symbol, Value, IndexOf, Six, InAlphabet, Group, Join, Octet;
    PadIsNoSymbol();
    PadValue();
    SymbolOfValue(q[0]);
    SymbolOfValue(q[1]);
    UnpackPack(Value(q[0]), Value(q[1]), 0, 0);
    UnpackPackOne(Value(q[0]), Value(q[1]));
  }

  lemma {:induction false} CanonicalSurvives(t: string)
    requires Canonical(t)
    ensures |t| % 4 == 0 && ValidText(t)
    ensures Encode(Bytes(t)) == t
  {
    hide Text, Spell, ValidChar, Full, PaddedOne, PaddedTwo;
    if t == "" {
      SpellFew(t);
    } else if |t| == 4 {
      if Full(t) { FullSurvives(t); } else if PaddedOne(t) { PaddedOneSurvives(t); } else { PaddedTwoSurvives(t); }
    } else {
      FullSurvives(t[..4]);
      CanonicalSurvives(t[4..]);
      EncodedLength(Bytes(t[4..]));
      assert t == t[..4] + t[4..];
      assert Bytes(t)[..3] == Spell(t[..4]) && Bytes(t)[3..] == Bytes(t[4..]);
    }
  }

  /** Exactly the canonical texts come back unchanged when decoded and encoded again. */
  lemma ReencodesIffCanonical(t: string)
    ensures Canonical(t) <==> Decode(t).Ok? && Encode(Decode(t).bytes) == t
  {
    hide Canonical, Encode, Bytes, Last32;
    if Canonical(t) {
      CanonicalSurvives(t);
    }
    if Decode(t).Ok? && Encode(Decode(t).bytes) == t {
      EncodeIsCanonical(Decode(t).bytes);
    }
  }

  // ---------------------------------------------------------------- the final test

  /** The last five values are zero, and so are the two low bits of the one before them. */
  predicate TailZero(s: string)
    requires ValidText(s)
  {
    var n := |s|;
    && (n >= 1 ==> Value(s[n - 1]) == 0) && (n >= 2 ==> Value(s[n - 2]) == 0) && (n >= 3 ==> Value(s[n - 3]) == 0)
    && (n >= 4 ==> Value(s[n - 4]) == 0) && (n >= 5 ==> Value(s[n - 5]) == 0) && (n >= 6 ==> Value(s[n - 6]) & 3 == 0)
  }

  lemma SixShoves(ac: bv32, a: bv6, b: bv6, c: bv6, d: bv6, e: bv6, f: bv6)
    ensures Shove(Shove(Shove(Shove(Shove(Shove(ac, a), b), c), d), e), f) == 0
            <==> a & 3 == 0 && b == 0 && c == 0 && d == 0 && e == 0 && f == 0
  {}

  lemma FewShoves(a: bv6, b: bv6, c: bv6, d: bv6, e: bv6)
    ensures Shove(Shove(Shove(Shove(Shove(0, a), b), c), d), e) == 0
            <==> a == 0 && b == 0 && c == 0 && d == 0 && e == 0
    ensures Shove(0, 0) == 0
  {}

  lemma LastStep(s: string, k: nat)
    requires ValidText(s) && k < |s|
    ensures ValidText(s[..k]) && ValidText(s[..k + 1])
    ensures Last32(s[..k + 1]) == Shove(Last32(s[..k]), Value(s[k]))
  {
    hide Shove, Value, ValidChar;
    Last32Snoc(s[..k], s[k]);
    assert s[..k + 1] == s[..k] + [s[k]];
  }

  lemma LongIsZero(s: string)
    requires ValidText(s) && |s| >= 6
    ensures Last32(s) == 0 <==> TailZero(s)
  {
    hide Shove, Value, ValidChar, Last32;
    var n := |s|;
    assert s[..n] == s;
    LastStep(s, n - 1);
    LastStep(s, n - 2);
    LastStep(s, n - 3);
    LastStep(s, n - 4);
    LastStep(s, n - 5);
    LastStep(s, n - 6);
    SixShoves(Last32(s[..n - 6]), Value(s[n - 6]), Value(s[n - 5]), Value(s[n - 4]), Value(s[n - 3]), Value(s[n - 2]), Value(s[n - 1]));
  }

  lemma ShortIsZero(s: string)
    requires ValidText(s) && |s| < 6
    ensures Last32(s) == 0 <==> TailZero(s)
  {
    hide Shove, Value, ValidChar, Last32;
    var n := |s|;
    SpellNothing();
    assert s[..n] == s && s[..0] == "";
    if n >= 1 { LastStep(s, n - 1); }
    if n >= 2 { LastStep(s, n - 2); }
    if n >= 3 { LastStep(s, n - 3); }
    if n >= 4 { LastStep(s, n - 4); }
    if n >= 5 { LastStep(s, n - 5); }
    FewShoves(if n >= 5 then Value(s[n - 5]) else 0, if n >= 4 then Value(s[n - 4]) else 0, if n >= 3 then Value(s[n - 3]) else 0,
              if n >= 2 then Value(s[n - 2]) else 0, if n >= 1 then Value(s[n - 1]) else 0);
  }

  /** The accumulator is zero at the end exactly when the last 32 bits shifted in were. */
  lemma Last32IsZero(s: string)
    requires ValidText(s)
    ensures Last32(s) == 0 <==> TailZero(s)
  {
    hide *;
    if |s| >= 6 { LongIsZero(s); } else { ShortIsZero(s); }
  }

  /** What the closing test `ac && ((1 << bits) - 1)` amounts to: a text of a wrong length
      is refused unless the last 32 bits shifted in are all zero, whatever its spare bits. */
  lemma RefusedExactly(s: string)
    ensures Decode(s).Invalid? <==> !ValidText(s)
    ensures Decode(s).Again? <==> ValidText(s) && |s| % 4 != 0 && !TailZero(s)
  {
    hide Last32, TailZero, ValidText, Bytes;
    if ValidText(s) {
      Last32IsZero(s);
    }
  }

  /** A single character passes as the empty message, and "AB==", whose spare bits are set,
      as the byte that "AA==" spells. */
  lemma LaxDecoding()
    ensures |"A"| % 4 != 0 && Decode("A") == Ok([])
    ensures Decode("AB==") == Ok([0]) && Encode([0]) == "AA=="
  {
    assert "A"[..0] == "";
    assert Last32("A") == 0;
    assert Decode("AB==").Ok?;
    assert Octet(Join(0, 1, 0, 0), 0) == 0;
    TableAt(0);
    assert Six(Group(0, 0, 0), 0) == 0 && Six(Group(0, 0, 0), 1) == 0;
  }
}

/** Model of nvme-cli/util/crc32.c.

The reference is the bit-serial CRC-32 of section 8 of RFC 1952: the message is a
stream of bits, least significant bit of each byte first, and every bit is fed to
the 32-bit register on its own. The source instead looks up one byte at a time in a
table of 256 constants.
*/
module Crc32 {

  // ---------------------------------------------------------------- reference

  /** One step of the division register: divide by x, reflected polynomial 0xEDB88320. */
  function Shift(c: bv32): bv32 {
    if c & 1 == 1 then 0xEDB8_8320 ^ (c >> 1) else c >> 1
  }

  function ShiftN(c: bv32, n: nat): bv32
    decreases n
  {
    if n == 0 then c else ShiftN(Shift(c), n - 1)
  }

  /** Addition of polynomials over GF(2). */
  function Add(a: bv32, b: bv32): bv32 {
    a ^ b
  }

  function BitValue(b: bool): bv32 {
    if b then 1 else 0
  }

  /** The register after the bits have been fed one by one. */
  function Feed(c: bv32, bits: seq<bool>): bv32
    decreases |bits|
  {
    if bits == [] then c else Feed(Shift(Add(c, BitValue(bits[0]))), bits[1..])
  }

  function ByteBits(b: bv8): (bits: seq<bool>)
    ensures |bits| == 8
  {
    [b & 1 != 0, b & 2 != 0, b & 4 != 0, b & 8 != 0, b & 16 != 0, b & 32 != 0, b & 64 != 0, b & 128 != 0]
  }

  /** The bits of a message, in the order in which the CRC consumes them. */
  function Bits(msg: seq<bv8>): (bits: seq<bool>)
    ensures |bits| == 8 * |msg|
  {
    if msg == [] then [] else ByteBits(msg[0]) + Bits(msg[1..])
  }

  function Flip(c: bv32): bv32 {
    !c
  }

  /** Bit-serial CRC-32 of a message, continuing from the CRC `seed`. */
  function Crc(seed: bv32, msg: seq<bv8>): bv32 {
    Flip(Feed(Flip(seed), Bits(msg)))
  }

  // ---------------------------------------------------------------- the table

  // The table of 256 constants, sixteen to a row.

  const ROW0: seq<bv32> := [
    0x00000000, 0x77073096, 0xee0e612c, 0x990951ba, 0x076dc419, 0x706af48f, 0xe963a535, 0x9e6495a3,
    0x0edb8832, 0x79dcb8a4, 0xe0d5e91e, 0x97d2d988, 0x09b64c2b, 0x7eb17cbd, 0xe7b82d07, 0x90bf1d91]
  const ROW1: seq<bv32> := [
    0x1db71064, 0x6ab020f2, 0xf3b97148, 0x84be41de, 0x1adad47d, 0x6ddde4eb, 0xf4d4b551, 0x83d385c7,
    0x136c9856, 0x646ba8c0, 0xfd62f97a, 0x8a65c9ec, 0x14015c4f, 0x63066cd9, 0xfa0f3d63, 0x8d080df5]
  const ROW2: seq<bv32> := [
    0x3b6e20c8, 0x4c69105e, 0xd56041e4, 0xa2677172, 0x3c03e4d1, 0x4b04d447, 0xd20d85fd, 0xa50ab56b,
    0x35b5a8fa, 0x42b2986c, 0xdbbbc9d6, 0xacbcf940, 0x32d86ce3, 0x45df5c75, 0xdcd60dcf, 0xabd13d59]
  const ROW3: seq<bv32> := [
    0x26d930ac, 0x51de003a, 0xc8d75180, 0xbfd06116, 0x21b4f4b5, 0x56b3c423, 0xcfba9599, 0xb8bda50f,
    0x2802b89e, 0x5f058808, 0xc60cd9b2, 0xb10be924, 0x2f6f7c87, 0x58684c11, 0xc1611dab, 0xb6662d3d]
  const ROW4: seq<bv32> := [
    0x76dc4190, 0x01db7106, 0x98d220bc, 0xefd5102a, 0x71b18589, 0x06b6b51f, 0x9fbfe4a5, 0xe8b8d433,
    0x7807c9a2, 0x0f00f934, 0x9609a88e, 0xe10e9818, 0x7f6a0dbb, 0x086d3d2d, 0x91646c97, 0xe6635c01]
  const ROW5: seq<bv32> := [
    0x6b6b51f4, 0x1c6c6162, 0x856530d8, 0xf262004e, 0x6c0695ed, 0x1b01a57b, 0x8208f4c1, 0xf50fc457,
    0x65b0d9c6, 0x12b7e950, 0x8bbeb8ea, 0xfcb9887c, 0x62dd1ddf, 0x15da2d49, 0x8cd37cf3, 0xfbd44c65]
  const ROW6: seq<bv32> := [
    0x4db26158, 0x3ab551ce, 0xa3bc0074, 0xd4bb30e2, 0x4adfa541, 0x3dd895d7, 0xa4d1c46d, 0xd3d6f4fb,
    0x4369e96a, 0x346ed9fc, 0xad678846, 0xda60b8d0, 0x44042d73, 0x33031de5, 0xaa0a4c5f, 0xdd0d7cc9]
  const ROW7: seq<bv32> := [
    0x5005713c, 0x270241aa, 0xbe0b1010, 0xc90c2086, 0x5768b525, 0x206f85b3, 0xb966d409, 0xce61e49f,
    0x5edef90e, 0x29d9c998, 0xb0d09822, 0xc7d7a8b4, 0x59b33d17, 0x2eb40d81, 0xb7bd5c3b, 0xc0ba6cad]
  const ROW8: seq<bv32> := [
    0xedb88320, 0x9abfb3b6, 0x03b6e20c, 0x74b1d29a, 0xead54739, 0x9dd277af, 0x04db2615, 0x73dc1683,
    0xe3630b12, 0x94643b84, 0x0d6d6a3e, 0x7a6a5aa8, 0xe40ecf0b, 0x9309ff9d, 0x0a00ae27, 0x7d079eb1]
  const ROW9: seq<bv32> := [
    0xf00f9344, 0x8708a3d2, 0x1e01f268, 0x6906c2fe, 0xf762575d, 0x806567cb, 0x196c3671, 0x6e6b06e7,
    0xfed41b76, 0x89d32be0, 0x10da7a5a, 0x67dd4acc, 0xf9b9df6f, 0x8ebeeff9, 0x17b7be43, 0x60b08ed5]
  const ROWA: seq<bv32> := [
    0xd6d6a3e8, 0xa1d1937e, 0x38d8c2c4, 0x4fdff252, 0xd1bb67f1, 0xa6bc5767, 0x3fb506dd, 0x48b2364b,
    0xd80d2bda, 0xaf0a1b4c, 0x36034af6, 0x41047a60, 0xdf60efc3, 0xa867df55, 0x316e8eef, 0x4669be79]
  const ROWB: seq<bv32> := [
    0xcb61b38c, 0xbc66831a, 0x256fd2a0, 0x5268e236, 0xcc0c7795, 0xbb0b4703, 0x220216b9, 0x5505262f,
    0xc5ba3bbe, 0xb2bd0b28, 0x2bb45a92, 0x5cb36a04, 0xc2d7ffa7, 0xb5d0cf31, 0x2cd99e8b, 0x5bdeae1d]
  const ROWC: seq<bv32> := [
    0x9b64c2b0, 0xec63f226, 0x756aa39c, 0x026d930a, 0x9c0906a9, 0xeb0e363f, 0x72076785, 0x05005713,
    0x95bf4a82, 0xe2b87a14, 0x7bb12bae, 0x0cb61b38, 0x92d28e9b, 0xe5d5be0d, 0x7cdcefb7, 0x0bdbdf21]
  const ROWD: seq<bv32> := [
    0x86d3d2d4, 0xf1d4e242, 0x68ddb3f8, 0x1fda836e, 0x81be16cd, 0xf6b9265b, 0x6fb077e1, 0x18b74777,
    0x88085ae6, 0xff0f6a70, 0x66063bca, 0x11010b5c, 0x8f659eff, 0xf862ae69, 0x616bffd3, 0x166ccf45]
  const ROWE: seq<bv32> := [
    0xa00ae278, 0xd70dd2ee, 0x4e048354, 0x3903b3c2, 0xa7672661, 0xd06016f7, 0x4969474d, 0x3e6e77db,
    0xaed16a4a, 0xd9d65adc, 0x40df0b66, 0x37d83bf0, 0xa9bcae53, 0xdebb9ec5, 0x47b2cf7f, 0x30b5ffe9]
  const ROWF: seq<bv32> := [
    0xbdbdf21c, 0xcabac28a, 0x53b39330, 0x24b4a3a6, 0xbad03605, 0xcdd70693, 0x54de5729, 0x23d967bf,
    0xb3667a2e, 0xc4614ab8, 0x5d681b02, 0x2a6f2b94, 0xb40bbe37, 0xc30c8ea1, 0x5a05df1b, 0x2d02ef8d]

  function Row(h: nat): (row: seq<bv32>)
    requires h < 16
    ensures |row| == 16
  {
    match h
    case 0 => ROW0
    case 1 => ROW1
    case 2 => ROW2
    case 3 => ROW3
    case 4 => ROW4
    case 5 => ROW5
    case 6 => ROW6
    case 7 => ROW7
    case 8 => ROW8
    case 9 => ROW9
    case 10 => ROWA
    case 11 => ROWB
    case 12 => ROWC
    case 13 => ROWD
    case 14 => ROWE
    case _ => ROWF
  }

  function TableEntry(i: bv32): bv32
    requires i < 256
  {
    assert (i >> 4) < 16 && (i & 0xf) < 16;
    Row((i >> 4) as nat)[(i & 0xf) as nat]
  }

  // ---------------------------------------------------------------- register algebra

  lemma ShiftAddBothOdd(a: bv32, b: bv32)
    requires a & 1 == 1 && b & 1 == 1
    ensures Shift(Add(a, b)) == Add(Shift(a), Shift(b))
  {}

  lemma ShiftAddOddEven(a: bv32, b: bv32)
    requires a & 1 == 1 && b & 1 == 0
    ensures Shift(Add(a, b)) == Add(Shift(a), Shift(b))
  {}

  lemma ShiftAddEvenOdd(a: bv32, b: bv32)
    requires a & 1 == 0 && b & 1 == 1
    ensures Shift(Add(a, b)) == Add(Shift(a), Shift(b))
  {}

  lemma ShiftAddBothEven(a: bv32, b: bv32)
    requires a & 1 == 0 && b & 1 == 0
    ensures Shift(Add(a, b)) == Add(Shift(a), Shift(b))
  {}

  /** The register step is linear over GF(2). */
  lemma ShiftAdd(a: bv32, b: bv32)
    ensures Shift(Add(a, b)) == Add(Shift(a), Shift(b))
  {
    hide Shift, Add;
    if a & 1 == 1 {
      if b & 1 == 1 { ShiftAddBothOdd(a, b); } else { ShiftAddOddEven(a, b); }
    } else {
      if b & 1 == 1 { ShiftAddEvenOdd(a, b); } else { ShiftAddBothEven(a, b); }
    }
  }

  lemma {:induction false} ShiftNAdd(a: bv32, b: bv32, n: nat)
    ensures ShiftN(Add(a, b), n) == Add(ShiftN(a, n), ShiftN(b, n))
    decreases n
  {
    hide Shift, Add;
    if n > 0 {
      ShiftAdd(a, b);
      ShiftNAdd(Shift(a), Shift(b), n - 1);
    }
  }

  /** The register step loses nothing: the top bit tells whether the polynomial was added. */
  lemma ShiftInjective(a: bv32, b: bv32)
    requires Shift(a) == Shift(b)
    ensures a == b
  {}

  lemma {:induction false} ShiftNInjective(a: bv32, b: bv32, n: nat)
    requires ShiftN(a, n) == ShiftN(b, n)
    ensures a == b
    decreases n
  {
    hide Shift;
    if n > 0 {
      ShiftNInjective(Shift(a), Shift(b), n - 1);
      ShiftInjective(a, b);
    }
  }

  lemma AddCancel(a: bv32, b: bv32, x: bv32)
    ensures Add(a, x) == Add(b, x) ==> a == b
    ensures Add(x, a) == Add(x, b) ==> a == b
  {}

  lemma AddAssoc(a: bv32, b: bv32, c: bv32)
    ensures Add(a, Add(b, c)) == Add(Add(a, b), c)
  {}

  lemma {:induction false} FeedInjective(a: bv32, b: bv32, bits: seq<bool>)
    requires Feed(a, bits) == Feed(b, bits)
    ensures a == b
    decreases |bits|
  {
    hide Shift, Add;
    if bits != [] {
      var x := BitValue(bits[0]);
      FeedInjective(Shift(Add(a, x)), Shift(Add(b, x)), bits[1..]);
      ShiftInjective(Add(a, x), Add(b, x));
      AddCancel(a, b, x);
    }
  }

  lemma {:induction false} FeedConcat(c: bv32, x: seq<bool>, y: seq<bool>)
    ensures Feed(c, x + y) == Feed(Feed(c, x), y)
    decreases |x|
  {
    hide Shift, Add;
    if x == [] {
      assert x + y == y;
    } else {
      assert (x + y)[1..] == x[1..] + y;
      FeedConcat(Shift(Add(c, BitValue(x[0]))), x[1..], y);
    }
  }

  lemma {:induction false} BitsConcat(a: seq<bv8>, b: seq<bv8>)
    ensures Bits(a + b) == Bits(a) + Bits(b)
    decreases |a|
  {
    hide ByteBits;
    if a == [] {
      assert a + b == b;
    } else {
      assert (a + b)[1..] == a[1..] + b;
      BitsConcat(a[1..], b);
    }
  }

  // ---------------------------------------------------------------- words

  function Double(w: bv32): bv32 {
    w << 1
  }

  /** The bits as a number, the first one least significant. */
  function Word(bits: seq<bool>): bv32 {
    if bits == [] then 0 else Add(BitValue(bits[0]), Double(Word(bits[1..])))
  }

  /** All ones in the low n bits. */
  function Mask(n: nat): bv32 {
    if n == 0 then 0 else Grow(Mask(n - 1))
  }

  function Grow(mask: bv32): bv32 {
    (mask << 1) | 1
  }

  lemma {:induction false} MaskGrows(j: nat, k: nat)
    requires j <= k
    ensures Mask(j) & !Mask(k) == 0
    decreases k
  {
    if j > 0 {
      MaskGrows(j - 1, k - 1);
    }
  }

  predicate Within(w: bv32, mask: bv32) {
    w & !mask == 0
  }

  lemma DoubleWithin(w: bv32, mask: bv32)
    requires Within(w, mask)
    ensures Within(Double(w), Grow(mask))
  {
    assert w & mask == w;
  }

  lemma OddWithin(x: bv32, mask: bv32)
    requires Within(x, Grow(mask))
    ensures Within(Add(1, x), Grow(mask))
  {}

  lemma WithinStep(h: bool, w: bv32, mask: bv32)
    requires Within(w, mask)
    ensures Within(Add(BitValue(h), Double(w)), Grow(mask))
  {
    hide Within, Add, Double, Grow;
    DoubleWithin(w, mask);
    if h {
      OddWithin(Double(w), mask);
    } else {
      ZeroAdd(Double(w));
    }
  }

  lemma NothingWithin(mask: bv32)
    ensures Within(0, mask)
  {}

  lemma {:induction false} WordMasked(bits: seq<bool>)
    ensures Within(Word(bits), Mask(|bits|))
  {
    hide Within, Add, Double, BitValue, Grow;
    if bits == [] {
      NothingWithin(Mask(0));
    } else {
      WordMasked(bits[1..]);
      WithinStep(bits[0], Word(bits[1..]), Mask(|bits| - 1));
    }
  }

  lemma Mask31()
    ensures Mask(31) == 0x7FFF_FFFF
  {
    assert Mask(8) == 0xFF;
    assert Mask(16) == 0xFFFF;
    assert Mask(24) == 0xFF_FFFF;
  }

  /** The top bit of a word is clear, so that doubling it loses nothing. */
  predicate TopClear(w: bv32) {
    w & 0x8000_0000 == 0
  }

  lemma ShortWord(bits: seq<bool>)
    requires |bits| <= 31
    ensures TopClear(Word(bits))
  {
    WordMasked(bits);
    MaskGrows(|bits|, 31);
    Mask31();
  }

  lemma ShiftDoubled(w: bv32)
    requires TopClear(w)
    ensures Shift(Double(w)) == w
  {}

  /** A bit that has to wait for its turn may as well be added now, one place higher. */
  lemma WordStep(c: bv32, x: bv32, w: bv32)
    requires TopClear(w)
    ensures Shift(Add(c, Add(x, Double(w)))) == Add(Shift(Add(c, x)), w)
  {
    hide *;
    AddAssoc(c, x, Double(w));
    ShiftAdd(Add(c, x), Double(w));
    ShiftDoubled(w);
  }

  lemma AddZero(c: bv32)
    ensures Add(c, 0) == c
  {}

  /** Up to 32 bits fed one by one enter the register as one word. */
  lemma {:induction false} FeedWord(c: bv32, bits: seq<bool>)
    requires |bits| <= 32
    ensures Feed(c, bits) == ShiftN(Add(c, Word(bits)), |bits|)
    decreases |bits|
  {
    hide Shift, Add, Double, TopClear, BitValue;
    if bits == [] {
      AddZero(c);
    } else {
      var x, w := BitValue(bits[0]), Word(bits[1..]);
      ShortWord(bits[1..]);
      WordStep(c, x, w);
      FeedWord(Shift(Add(c, x)), bits[1..]);
    }
  }

  lemma WordHead(h: bool, w: bv32, h': bool, w': bv32)
    requires Add(BitValue(h), Double(w)) == Add(BitValue(h'), Double(w'))
    requires TopClear(w) && TopClear(w')
    ensures h == h' && w == w'
  {}

  lemma {:induction false} WordInjective(x: seq<bool>, y: seq<bool>)
    requires |x| == |y| <= 32
    requires Word(x) == Word(y)
    ensures x == y
    decreases |x|
  {
    hide Add, Double, TopClear, BitValue;
    if x != [] {
      ShortWord(x[1..]);
      ShortWord(y[1..]);
      WordHead(x[0], Word(x[1..]), y[0], Word(y[1..]));
      WordInjective(x[1..], y[1..]);
      assert x == [x[0]] + x[1..];
      assert y == [y[0]] + y[1..];
    }
  }

  // ---------------------------------------------------------------- table against reference

  /** Every row is row 0 shifted by its first entry: the table is linear in its index. */
  ghost predicate RowLinear(row: seq<bv32>)
    requires |row| == 16
  {
    && row[1] == Add(row[0], Row(0)[1]) && row[2] == Add(row[0], Row(0)[2])
    && row[3] == Add(row[0], Row(0)[3]) && row[4] == Add(row[0], Row(0)[4])
    && row[5] == Add(row[0], Row(0)[5]) && row[6] == Add(row[0], Row(0)[6])
    && row[7] == Add(row[0], Row(0)[7]) && row[8] == Add(row[0], Row(0)[8])
    && row[9] == Add(row[0], Row(0)[9]) && row[10] == Add(row[0], Row(0)[10])
    && row[11] == Add(row[0], Row(0)[11]) && row[12] == Add(row[0], Row(0)[12])
    && row[13] == Add(row[0], Row(0)[13]) && row[14] == Add(row[0], Row(0)[14])
    && row[15] == Add(row[0], Row(0)[15])
  }

  lemma RowsLinear0(h: nat)
    requires 0 <= h < 4
    ensures RowLinear(Row(h))
  {
    if h == 0 {} else if h == 1 {} else if h == 2 {} else {}
  }

  lemma RowsLinear1(h: nat)
    requires 4 <= h < 8
    ensures RowLinear(Row(h))
  {
    if h == 4 {} else if h == 5 {} else if h == 6 {} else {}
  }

  lemma RowsLinear2(h: nat)
    requires 8 <= h < 12
    ensures RowLinear(Row(h))
  {
    if h == 8 {} else if h == 9 {} else if h == 10 {} else {}
  }

  lemma RowsLinear3(h: nat)
    requires 12 <= h < 16
    ensures RowLinear(Row(h))
  {
    if h == 12 {} else if h == 13 {} else if h == 14 {} else {}
  }

  lemma RowsLinear(h: nat)
    requires h < 16
    ensures RowLinear(Row(h))
  {
    hide *;
    if h < 4 { RowsLinear0(h); } else if h < 8 { RowsLinear1(h); } else if h < 12 { RowsLinear2(h); } else { RowsLinear3(h); }
  }

  lemma LowEntriesBelow8(n: bv32)
    requires n < 8
    ensures LowEntry(n) == ShiftN(n, 8)
  {
    if n == 0 {} else if n == 1 {} else if n == 2 {} else if n == 3 {}
    else if n == 4 {} else if n == 5 {} else if n == 6 {} else { assert n == 7; }
  }

  lemma LowEntriesFrom8(n: bv32)
    requires 8 <= n < 16
    ensures LowEntry(n) == ShiftN(n, 8)
  {
    if n == 8 {} else if n == 9 {} else if n == 10 {} else if n == 11 {}
    else if n == 12 {} else if n == 13 {} else if n == 14 {} else { assert n == 15; }
  }

  lemma FirstEntriesBelow8(n: bv32)
    requires n < 8
    ensures RowStart(n) == ShiftN(n << 4, 8)
  {
    if n == 0 {} else if n == 1 {} else if n == 2 {} else if n == 3 {}
    else if n == 4 {} else if n == 5 {} else if n == 6 {} else { assert n == 7; }
  }

  lemma FirstEntriesFrom8(n: bv32)
    requires 8 <= n < 16
    ensures RowStart(n) == ShiftN(n << 4, 8)
  {
    if n == 8 {} else if n == 9 {} else if n == 10 {} else if n == 11 {}
    else if n == 12 {} else if n == 13 {} else if n == 14 {} else { assert n == 15; }
  }

  lemma SplitByte(i: bv32)
    requires i < 256
    ensures (i >> 4) < 16 && (i & 0xf) < 16
    ensures i == Add((i >> 4) << 4, i & 0xf)
  {}

  /** The first entry of row n, and entry n of the first row. */
  function RowStart(n: bv32): bv32
    requires n < 16
  {
    Row(n as nat)[0]
  }

  function LowEntry(n: bv32): bv32
    requires n < 16
  {
    Row(0)[n as nat]
  }

  lemma RowLinearAt(h: nat, j: nat)
    requires h < 16 && j < 16
    ensures Row(h)[j] == Add(Row(h)[0], Row(0)[j])
  {
    hide Row, Add;
    RowsLinear(h);
    FirstOfAll();
    AddZero(Row(h)[0]);
  }

  lemma FirstOfAll()
    ensures Row(0)[0] == 0
  {}

  lemma EntryLinear(i: bv32)
    requires i < 256
    ensures (i >> 4) < 16 && (i & 0xf) < 16
    ensures TableEntry(i) == Add(RowStart(i >> 4), LowEntry(i & 0xf))
  {
    hide Row, Add;
    SplitByte(i);
    RowLinearAt((i >> 4) as nat, (i & 0xf) as nat);
  }

  /** All 256 constants are right: entry i is the register after eight steps from i. */
  lemma TableCorrect(i: bv32)
    requires i < 256
    ensures TableEntry(i) == ShiftN(i, 8)
  {
    hide *;
    var hi, lo := i >> 4, i & 0xf;
    EntryLinear(i);
    SplitByte(i);
    if lo < 8 { LowEntriesBelow8(lo); } else { LowEntriesFrom8(lo); }
    if hi < 8 { FirstEntriesBelow8(hi); } else { FirstEntriesFrom8(hi); }
    ShiftNAdd(hi << 4, lo, 8);
  }

  lemma ShiftNHigh(y: bv32)
    requires y & 0xff == 0
    ensures ShiftN(y, 8) == y >> 8
  {}

  lemma SplitWord(x: bv32)
    ensures x & 0xff < 256
    ensures x == Add(x & 0xff, x & 0xFFFF_FF00)
    ensures (x & 0xFFFF_FF00) & 0xff == 0
    ensures (x & 0xFFFF_FF00) >> 8 == x >> 8
  {}

  /** The body of the source's loop: one table lookup. */
  function TableStep(c: bv32, b: bv8): bv32 {
    LowByteSmall(Add(c, b as bv32));
    Add(TableEntry(Add(c, b as bv32) & 0xff), c >> 8)
  }

  lemma LowByteSmall(x: bv32)
    ensures x & 0xff < 256
  {}

  lemma ByteLeavesHigh(c: bv32, b: bv8)
    ensures Add(c, b as bv32) >> 8 == c >> 8
  {}

  lemma ByteValue(b: bv8)
    ensures b as bv32 == Add(BitValue(b & 1 != 0), Double(Add(BitValue(b & 2 != 0), Double(Add(BitValue(b & 4 != 0),
                         Double(Add(BitValue(b & 8 != 0), Double(Add(BitValue(b & 16 != 0), Double(Add(BitValue(b & 32 != 0),
                         Double(Add(BitValue(b & 64 != 0), Double(Add(BitValue(b & 128 != 0), Double(0))))))))))))))))
  {}

  lemma WordSlice(s: seq<bool>, k: nat)
    requires k < |s|
    ensures Word(s[k..]) == Add(BitValue(s[k]), Double(Word(s[k + 1..])))
  {
    hide Add, Double, BitValue;
    assert s[k..][1..] == s[k + 1..];
  }

  lemma WordEmpty()
    ensures Word([]) == 0
  {}

  lemma Word8(s: seq<bool>)
    requires |s| == 8
    ensures Word(s) == Add(BitValue(s[0]), Double(Add(BitValue(s[1]), Double(Add(BitValue(s[2]), Double(Add(BitValue(s[3]),
                       Double(Add(BitValue(s[4]), Double(Add(BitValue(s[5]), Double(Add(BitValue(s[6]),
                       Double(Add(BitValue(s[7]), Double(0))))))))))))))))
  {
    hide *;
    WordEmpty();
    assert s[8..] == [];
    WordSlice(s, 7);
    WordSlice(s, 6);
    WordSlice(s, 5);
    WordSlice(s, 4);
    WordSlice(s, 3);
    WordSlice(s, 2);
    WordSlice(s, 1);
    WordSlice(s, 0);
    assert s[0..] == s;
  }

  lemma ByteBitsWord(b: bv8)
    ensures Word(ByteBits(b)) == b as bv32
  {
    hide Word, Add, Double, BitValue;
    ByteValue(b);
    Word8(ByteBits(b));
  }

  lemma LookupSplits(x: bv32)
    ensures x & 0xff < 256
    ensures ShiftN(x, 8) == Add(TableEntry(x & 0xff), x >> 8)
  {
    hide *;
    var lo, hi := x & 0xff, x & 0xFFFF_FF00;
    SplitWord(x);
    TableCorrect(lo);
    ShiftNHigh(hi);
    ShiftNAdd(lo, hi, 8);
  }

  /** One table lookup does what feeding the byte's eight bits does. */
  lemma TableStepCorrect(c: bv32, b: bv8)
    ensures TableStep(c, b) == Feed(c, ByteBits(b))
  {
    hide TableEntry, Add, Feed, Word, ByteBits, ShiftN;
    LookupSplits(Add(c, b as bv32));
    ByteLeavesHigh(c, b);
    FeedWord(c, ByteBits(b));
    ByteBitsWord(b);
  }

  lemma FeedByte(c: bv32, msg: seq<bv8>, b: bv8)
    ensures Feed(c, Bits(msg + [b])) == TableStep(Feed(c, Bits(msg)), b)
  {
    hide Feed, TableStep, ByteBits;
    BitsConcat(msg, [b]);
    assert Bits([b]) == ByteBits(b);
    FeedConcat(c, Bits(msg), ByteBits(b));
    TableStepCorrect(Feed(c, Bits(msg)), b);
  }

  /** Model of `crc32`: the loop walks the buffer and updates `crc` from the table. */
  method Crc32(seed: bv32, buf: array<bv8>, len: nat) returns (r: bv32)
    requires len <= buf.Length
    ensures r == Crc(seed, buf[..len])
  {
    var crc := Flip(seed);
    var p := 0;
    while p < len
      invariant 0 <= p <= len
      invariant crc == Feed(Flip(seed), Bits(buf[..p]))
    {
      crc := TableStep(crc, buf[p]);
      FeedByte(Flip(seed), buf[..p], buf[p]);
      assert buf[..p + 1] == buf[..p] + [buf[p]];
      p := p + 1;
    }
    r := Flip(crc);
  }

  // ---------------------------------------------------------------- theorems

  lemma FlipFlip(c: bv32)
    ensures Flip(Flip(c)) == c
  {}

  /** Buffers may be fed piecewise: the CRC of a prefix continues over the rest. */
  lemma Streams(seed: bv32, a: seq<bv8>, b: seq<bv8>)
    ensures Crc(Crc(seed, a), b) == Crc(seed, a + b)
  {
    hide Feed, Bits, Flip;
    BitsConcat(a, b);
    FeedConcat(Flip(seed), Bits(a), Bits(b));
    FlipFlip(Feed(Flip(seed), Bits(a)));
  }

  /** Two windows of at most 32 bits that differ leave the register in different states. */
  lemma WindowInjective(c: bv32, x: seq<bool>, y: seq<bool>)
    requires |x| == |y| <= 32
    requires Feed(c, x) == Feed(c, y)
    ensures x == y
  {
    hide *;
    FeedWord(c, x);
    FeedWord(c, y);
    ShiftNInjective(Add(c, Word(x)), Add(c, Word(y)), |x|);
    AddCancel(Word(x), Word(y), c);
    WordInjective(x, y);
  }

  /** Outside the 32 bits from position w on, the two bit streams agree. */
  ghost predicate AgreeOutside(x: seq<bool>, y: seq<bool>, w: nat) {
    && |x| == |y|
    && forall p :: 0 <= p < |x| && !(w <= p < w + 32) ==> x[p] == y[p]
  }

  /** Streams that differ, but only inside 32 consecutive bits, end in different states. */
  lemma BurstChangesRegister(c: bv32, x: seq<bool>, y: seq<bool>, w: nat)
    requires AgreeOutside(x, y, w)
    requires Feed(c, x) == Feed(c, y)
    ensures x == y
  {
    hide Feed;
    var n := |x|;
    var lo := if w <= n then w else n;
    var hi := if w + 32 <= n then w + 32 else n;
    assert x == x[..lo] + (x[lo..hi] + x[hi..]);
    assert y == y[..lo] + (y[lo..hi] + y[hi..]);
    assert x[..lo] == y[..lo];
    assert x[hi..] == y[hi..];
    var d := Feed(c, x[..lo]);
    FeedConcat(c, x[..lo], x[lo..hi] + x[hi..]);
    FeedConcat(c, y[..lo], y[lo..hi] + y[hi..]);
    FeedConcat(d, x[lo..hi], x[hi..]);
    FeedConcat(d, y[lo..hi], y[hi..]);
    FeedInjective(Feed(d, x[lo..hi]), Feed(d, y[lo..hi]), x[hi..]);
    WindowInjective(d, x[lo..hi], y[lo..hi]);
  }

  lemma ByteBitsInjective(a: bv8, b: bv8)
    requires ByteBits(a) == ByteBits(b)
    ensures a == b
  {
    hide ByteBits;
    ByteBitsWord(a);
    ByteBitsWord(b);
    assert a as bv32 == b as bv32;
  }

  lemma {:induction false} BitsInjective(a: seq<bv8>, b: seq<bv8>)
    requires Bits(a) == Bits(b)
    ensures a == b
    decreases |a|
  {
    hide ByteBits;
    assert |a| == |b|;
    if a != [] {
      assert ByteBits(a[0]) == Bits(a)[..8] == Bits(b)[..8] == ByteBits(b[0]);
      assert Bits(a[1..]) == Bits(a)[8..] == Bits(b)[8..] == Bits(b[1..]);
      ByteBitsInjective(a[0], b[0]);
      BitsInjective(a[1..], b[1..]);
      assert a == [a[0]] + a[1..];
      assert b == [b[0]] + b[1..];
    }
  }

  /** Every corruption confined to 32 consecutive bits, at any alignment, in a message of
      any length and from any seed, changes the CRC. */
  lemma DetectsBurst(seed: bv32, a: seq<bv8>, b: seq<bv8>, w: nat)
    requires a != b
    requires AgreeOutside(Bits(a), Bits(b), w)
    ensures Crc(seed, a) != Crc(seed, b)
  {
    hide Feed, Bits, Flip;
    if Crc(seed, a) == Crc(seed, b) {
      FlipFlip(Feed(Flip(seed), Bits(a)));
      FlipFlip(Feed(Flip(seed), Bits(b)));
      BurstChangesRegister(Flip(seed), Bits(a), Bits(b), w);
      BitsInjective(a, b);
    }
  }

  lemma {:induction false} BitsAt(a: seq<bv8>, p: nat)
    requires p < 8 * |a|
    ensures Bits(a)[p] == ByteBits(a[p / 8])[p % 8]
    decreases |a|
  {
    hide ByteBits;
    if p >= 8 {
      BitsAt(a[1..], p - 8);
      assert (p - 8) / 8 == p / 8 - 1 && (p - 8) % 8 == p % 8;
      assert a[p / 8] == a[1..][(p - 8) / 8];
    } else {
      assert p / 8 == 0 && p % 8 == p;
    }
  }

  /** Byte strings that agree outside the four bytes from position k on. */
  ghost predicate AgreeOutsideFour(a: seq<bv8>, b: seq<bv8>, k: nat) {
    && |a| == |b|
    && forall i :: 0 <= i < |a| && !(k <= i < k + 4) ==> a[i] == b[i]
  }

  lemma FourBytesAreABurst(a: seq<bv8>, b: seq<bv8>, k: nat)
    requires AgreeOutsideFour(a, b, k)
    ensures AgreeOutside(Bits(a), Bits(b), 8 * k)
  {
    hide Bits, ByteBits;
    forall p | 0 <= p < |Bits(a)| && !(8 * k <= p < 8 * k + 32)
      ensures Bits(a)[p] == Bits(b)[p]
    {
      BitsAt(a, p);
      BitsAt(b, p);
      assert a[p / 8] == b[p / 8];
    }
  }

  /** Every corruption confined to four consecutive bytes changes the CRC. */
  lemma DetectsFourBytes(seed: bv32, a: seq<bv8>, b: seq<bv8>, k: nat)
    requires a != b
    requires AgreeOutsideFour(a, b, k)
    ensures Crc(seed, a) != Crc(seed, b)
  {
    hide *;
    FourBytesAreABurst(a, b, k);
    DetectsBurst(seed, a, b, 8 * k);
  }

  // ---------------------------------------------------------------- trailing CRC

  /** The four bytes of x, least significant first. */
  function Le4(x: bv32): (b: seq<bv8>)
    ensures |b| == 4
  {
    LowByteSmall(x);
    LowByteSmall(x >> 8);
    LowByteSmall(x >> 16);
    LowByteSmall(x >> 24);
    [(x & 0xff) as bv8, ((x >> 8) & 0xff) as bv8, ((x >> 16) & 0xff) as bv8, ((x >> 24) & 0xff) as bv8]
  }

  /** The number whose four bytes, least significant first, are b. */
  function FromLe4(b: seq<bv8>): bv32
    requires |b| == 4
  {
    b[0] as bv32 | (b[1] as bv32 << 8) | (b[2] as bv32 << 16) | (b[3] as bv32 << 24)
  }

  lemma Le4RoundTrip(x: bv32)
    ensures FromLe4(Le4(x)) == x
  {}

  lemma DoubleAdd(a: bv32, b: bv32)
    ensures Double(Add(a, b)) == Add(Double(a), Double(b))
  {}

  function DoubleN(w: bv32, n: nat): bv32 {
    if n == 0 then w else Double(DoubleN(w, n - 1))
  }

  lemma {:induction false} WordConcat(x: seq<bool>, y: seq<bool>)
    ensures Word(x + y) == Add(Word(x), DoubleN(Word(y), |x|))
    decreases |x|
  {
    hide Add, Double, BitValue;
    if x == [] {
      assert x + y == y;
      ZeroAdd(Word(y));
    } else {
      var h, r := BitValue(x[0]), DoubleN(Word(y), |x| - 1);
      assert (x + y)[1..] == x[1..] + y;
      WordConcat(x[1..], y);
      DoubleAdd(Word(x[1..]), r);
      AddAssoc(h, Double(Word(x[1..])), Double(r));
    }
  }

  lemma ZeroAdd(c: bv32)
    ensures Add(0, c) == c
  {}

  lemma DoubleN8(w: bv32)
    ensures DoubleN(w, 8) == Up8(w)
  {
    hide Double, Up8;
    assert DoubleN(w, 1) == Double(w);
    assert DoubleN(w, 2) == Double(Double(w));
    assert DoubleN(w, 4) == Double(Double(DoubleN(w, 2)));
    assert DoubleN(w, 6) == Double(Double(DoubleN(w, 4)));
    EightDoublings(w);
  }

  lemma EightDoublings(w: bv32)
    ensures Up8(w) == Double(Double(Double(Double(Double(Double(Double(Double(w))))))))
  {}

  function Up8(w: bv32): bv32 {
    w << 8
  }

  lemma WordFirstByte(t: seq<bv8>)
    requires t != []
    ensures Word(Bits(t)) == Add(t[0] as bv32, Up8(Word(Bits(t[1..]))))
  {
    hide Word, Add, ByteBits, DoubleN, Up8;
    WordConcat(ByteBits(t[0]), Bits(t[1..]));
    ByteBitsWord(t[0]);
    DoubleN8(Word(Bits(t[1..])));
  }

  lemma NestedBytes(b0: bv8, b1: bv8, b2: bv8, b3: bv8)
    ensures Add(b0 as bv32, Up8(Add(b1 as bv32, Up8(Add(b2 as bv32, Up8(Add(b3 as bv32, Up8(0))))))))
         == FromLe4([b0, b1, b2, b3])
  {}

  lemma WordOfFourBytes(t: seq<bv8>)
    requires |t| == 4
    ensures Word(Bits(t)) == FromLe4(t)
  {
    hide *;
    WordFirstByte(t);
    WordFirstByte(t[1..]);
    assert t[1..][1..] == t[2..];
    WordFirstByte(t[2..]);
    assert t[2..][1..] == t[3..];
    WordFirstByte(t[3..]);
    assert t[3..][1..] == [];
    NoBits();
    NestedBytes(t[0], t[1], t[2], t[3]);
    assert t == [t[0], t[1], t[2], t[3]];
  }

  lemma NoBits()
    ensures Word(Bits([])) == 0
  {}

  const ALL_ONES: bv32 := 0xFFFF_FFFF

  lemma AddFlipped(s: bv32)
    ensures Add(s, Flip(s)) == ALL_ONES
  {}

  lemma AddFlip(s: bv32, x: bv32)
    ensures Add(s, x) == ALL_ONES <==> x == Flip(s)
  {
    hide *;
    AddFlipped(s);
    AddCancel(x, Flip(s), s);
  }

  /** The last four bytes are the CRC of what precedes them. */
  predicate TrailerMatches(m: seq<bv8>)
    requires |m| >= 4
  {
    FromLe4(m[|m| - 4..]) == Crc(0, m[..|m| - 4])
  }

  /** A message carries its own CRC exactly when the register over the whole message,
      trailer included, ends in one fixed state. */
  lemma TrailerIffResidue(m: seq<bv8>)
    requires |m| >= 4
    ensures TrailerMatches(m) <==> Feed(Flip(0), Bits(m)) == ShiftN(ALL_ONES, 32)
  {
    hide Feed, Flip, Bits, ShiftN, FromLe4, Add;
    var d, t := m[..|m| - 4], m[|m| - 4..];
    assert m == d + t;
    BitsConcat(d, t);
    var s := Feed(Flip(0), Bits(d));
    FeedConcat(Flip(0), Bits(d), Bits(t));
    FeedWord(s, Bits(t));
    WordOfFourBytes(t);
    AddFlip(s, FromLe4(t));
    if ShiftN(Add(s, FromLe4(t)), 32) == ShiftN(ALL_ONES, 32) {
      ShiftNInjective(Add(s, FromLe4(t)), ALL_ONES, 32);
    }
  }

  /** No two messages that both carry their own CRC differ in four consecutive bytes only,
      wherever those bytes lie: in the body, in the trailer or across the seam. */
  lemma TrailerDetectsFourBytes(a: seq<bv8>, b: seq<bv8>, k: nat)
    requires AgreeOutsideFour(a, b, k) && |a| == |b| >= 4
    requires TrailerMatches(a) && TrailerMatches(b)
    ensures a == b
  {
    hide *;
    TrailerIffResidue(a);
    TrailerIffResidue(b);
    FourBytesAreABurst(a, b, k);
    BurstChangesRegister(Flip(0), Bits(a), Bits(b), 8 * k);
    BitsInjective(a, b);
  }
}

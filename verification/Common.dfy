/** Small definitions that several modules share. */
module Common {

  datatype Option<+T> = None | Some(value: T)

  /** Error numbers of the C library. */
  const EAGAIN := 11
  const EINVAL := 22

  const TWO32 := 0x1_0000_0000
  const TWO64 := 0x1_0000_0000_0000_0000

  function Pow2(n: nat): (p: nat)
    ensures p > 0
  {
    if n == 0 then 1 else 2 * Pow2(n - 1)
  }

  // ---------------------------------------------------------------- products and quotients

  lemma LessFromTimes(d: nat, a: int, b: int)
    requires d * a < d * b
    ensures a < b
  {}

  lemma DivUnique(f: nat, d: nat, q: nat, r: nat)
    requires d > 0 && f == d * q + r && r < d
    ensures f / d == q && f % d == r
  {
    var q' := f / d;
    assert f == d * q' + f % d;
    assert d * q < d * q' + d == d * (q' + 1);
    LessFromTimes(d, q, q' + 1);
    assert d * q' < d * q + d == d * (q + 1);
    LessFromTimes(d, q', q + 1);
  }

  lemma TimesGrows(a: nat, b: nat, c: nat)
    requires a <= b
    ensures a * c <= b * c
  {}
}

/** The fixed-width integers of the timing code, and the two's-complement
    conversions that the C++ casts perform. */
module MachineInts {
  const TWO_31 := 0x8000_0000
  const TWO_32 := 0x1_0000_0000
  const TWO_64 := 0x1_0000_0000_0000_0000
  const INT_MAX := 0x7fff_ffff
  const INT_MIN := -0x8000_0000

  type Uint32 = x: int | 0 <= x < TWO_32
  type Int32 = x: int | INT_MIN <= x <= INT_MAX

  predicate FitsInt32(x: int) {
    INT_MIN <= x <= INT_MAX
  }

  /** The value of `static_cast<uint32_t>` on an integer of any width. */
  function ToUint32(x: int): Uint32 {
    x % TWO_32
  }

  /** The value of `static_cast<int32_t>` on an integer of any width. */
  function ToInt32(x: int): Int32 {
    var u := x % TWO_32;
    if u < TWO_31 then u else u - TWO_32
  }

  /** Two integers name the same 32-bit pattern. */
  predicate Congruent(x: int, y: int) {
    x % TWO_32 == y % TWO_32
  }

  lemma CongruentShift(x: int, k: int)
    ensures Congruent(x + TWO_32 * k, x)
  {
  }

  lemma CongruentSum(a: int, b: int, c: int, d: int)
    requires Congruent(a, b) && Congruent(c, d)
    ensures Congruent(a + c, b + d)
    ensures Congruent(a - c, b - d)
  {
    var k, l := a / TWO_32 - b / TWO_32, c / TWO_32 - d / TWO_32;
    assert a == b + TWO_32 * k && c == d + TWO_32 * l;
    CongruentShift(b + d, k + l);
    CongruentShift(b - d, k - l);
  }

  lemma ToInt32Congruent(x: int)
    ensures Congruent(ToInt32(x), x)
    ensures FitsInt32(x) <==> ToInt32(x) == x
  {
    var k := x / TWO_32;
    assert x == x % TWO_32 + TWO_32 * k;
    CongruentShift(x, -1);
  }

  /** Each residue class modulo 2^32 has exactly one int32 member. */
  lemma Int32Unique(a: Int32, b: Int32)
    requires Congruent(a, b)
    ensures a == b
  {
  }

  lemma CongruentToInt32(x: int, y: int)
    requires Congruent(x, y)
    ensures ToInt32(x) == ToInt32(y)
  {
  }

  lemma UnsignedCongruent(x: int)
    ensures Congruent(ToUint32(x), x)
  {
  }

  lemma ToInt32OfToUint32(x: int)
    ensures ToInt32(ToUint32(x)) == ToInt32(x)
  {
  }

  /** add_int32_wraparound: addition on the unsigned patterns, reinterpreted as
      signed. */
  function AddInt32Wraparound(a: Int32, b: Int32): Int32 {
    ToInt32(ToUint32(ToUint32(a) + ToUint32(b)))
  }

  /** The body of the delta loop: subtraction on the unsigned patterns,
      reinterpreted as signed. */
  function SubInt32Wraparound(a: Int32, b: Int32): Int32 {
    ToInt32(ToUint32(ToUint32(a) - ToUint32(b)))
  }

  /** The wrapped sum is the only int32 congruent to the exact sum, so it is the
      exact sum exactly when that sum fits. */
  lemma AddInt32WraparoundExact(a: Int32, b: Int32)
    ensures AddInt32Wraparound(a, b) == ToInt32(a + b)
    ensures Congruent(AddInt32Wraparound(a, b), a + b)
    ensures AddInt32Wraparound(a, b) == a + b <==> FitsInt32(a + b)
  {
    var u := ToUint32(a) + ToUint32(b);
    UnsignedCongruent(a);
    UnsignedCongruent(b);
    CongruentSum(ToUint32(a), a, ToUint32(b), b);
    ToInt32OfToUint32(u);
    CongruentToInt32(u, a + b);
    ToInt32Congruent(a + b);
  }

  lemma SubInt32WraparoundExact(a: Int32, b: Int32)
    ensures SubInt32Wraparound(a, b) == ToInt32(a - b)
    ensures Congruent(SubInt32Wraparound(a, b), a - b)
    ensures SubInt32Wraparound(a, b) == a - b <==> FitsInt32(a - b)
  {
    var u := ToUint32(a) - ToUint32(b);
    UnsignedCongruent(a);
    UnsignedCongruent(b);
    CongruentSum(ToUint32(a), a, ToUint32(b), b);
    ToInt32OfToUint32(u);
    CongruentToInt32(u, a - b);
    ToInt32Congruent(a - b);
  }

  /** Adding a wrapped difference back undoes it, whatever wrapped. */
  lemma AddUndoesSub(a: Int32, b: Int32)
    ensures AddInt32Wraparound(b, SubInt32Wraparound(a, b)) == a
  {
    var d := SubInt32Wraparound(a, b);
    SubInt32WraparoundExact(a, b);
    AddInt32WraparoundExact(b, d);
    CongruentSum(b, b, d, a - b);
    Int32Unique(AddInt32Wraparound(b, d), a);
  }
}

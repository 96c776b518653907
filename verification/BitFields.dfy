/**
 * The CWSetField32 and CWGetField32 macros of CWProtocol.h. A 32-bit header
 * word is a natural number below 2^32; a field is named, as in the header
 * file, by the position of its first bit counted from the most significant
 * one and by its length.
 */
module BitFields {

  function Pow2(k: nat): (p: nat)
    ensures p > 0
  {
    if k == 0 then 1 else 2 * Pow2(k - 1)
  }

  lemma {:induction false} Pow2Sum(j: nat, k: nat)
    ensures Pow2(j + k) == Pow2(j) * Pow2(k)
  {
    if j > 0 {
      Pow2Sum(j - 1, k);
      Double(Pow2(j - 1), Pow2(k));
    }
  }

  lemma Double(a: nat, b: nat)
    ensures 2 * (a * b) == (2 * a) * b
  {
  }

  /** Bitwise inclusive or. */
  function Or(a: nat, b: nat): nat {
    if a == 0 && b == 0 then 0
    else (if a % 2 == 1 || b % 2 == 1 then 1 else 0) + 2 * Or(a / 2, b / 2)
  }

  /** Or-ing a number into bits that are all zero adds it. */
  lemma {:induction false} OrIntoZeroBits(q: nat, b: nat, k: nat)
    requires b < Pow2(k)
    ensures Or(q * Pow2(k), b) == q * Pow2(k) + b
  {
    var a := q * Pow2(k);
    if k == 0 {
      OrZero(a);
    } else {
      assert a == 2 * (q * Pow2(k - 1));
      assert a % 2 == 0 && a / 2 == q * Pow2(k - 1);
      OrIntoZeroBits(q, b / 2, k - 1);
    }
  }

  lemma {:induction false} OrZero(a: nat)
    ensures Or(a, 0) == a
  {
    if a > 0 {
      OrZero(a / 2);
    }
  }

  /** src |= ((~(0xFFFFFFFF << len)) & val) << (32 - start - len) */
  function SetField32(src: nat, start: nat, len: nat, val: int): nat
    requires start + len <= 32
  {
    Or(src, val % Pow2(len) * Pow2(32 - start - len))
  }

  /** (~(0xFFFFFFFF << len)) & (src >> (32 - start - len)) */
  function GetField32(src: nat, start: nat, len: nat): nat
    requires start + len <= 32
  {
    src / Pow2(32 - start - len) % Pow2(len)
  }

  /** The bits of src from position `start` on are still zero. */
  ghost predicate ZeroFrom(src: nat, start: nat)
    requires start <= 32
  {
    src % Pow2(32 - start) == 0
  }

  /**
   * Writing a field into a word whose remaining bits are zero adds it in
   * place, and leaves the bits after the field zero.
   */
  lemma SetAppends(src: nat, start: nat, len: nat, val: int)
    requires start + len <= 32 && ZeroFrom(src, start)
    ensures SetField32(src, start, len, val) == src + val % Pow2(len) * Pow2(32 - start - len)
    ensures ZeroFrom(SetField32(src, start, len, val), start + len)
  {
    hide Or;
    var low, size, top := Pow2(32 - start - len), Pow2(len), Pow2(32 - start);
    var field := val % size;
    Pow2Sum(len, 32 - start - len);
    PlaceField(src, size, low, top, field);
    OrIntoZeroBits(src / top, field * low, 32 - start);
  }

  /** The arithmetic of writing field * low below a multiple of size * low. */
  lemma PlaceField(src: nat, size: nat, low: nat, top: nat, field: nat)
    requires size > 0 && low > 0 && field < size && top == size * low && src % top == 0
    ensures 0 <= field * low < top
    ensures src == src / top * top
    ensures (src + field * low) % low == 0
  {
    var q := src / top;
    FieldFits(field, size, low);
    ExactQuotient(src, top);
    Regroup(q, size, low, field);
    MultipleModZero(q * size + field, low);
  }

  lemma FieldFits(field: nat, size: nat, low: nat)
    requires field < size
    ensures 0 <= field * low && field * low + low <= size * low
  {
    ProductNonNegative(size - field - 1, low);
    ProductNonNegative(field, low);
  }

  lemma ProductNonNegative(a: nat, b: nat)
    ensures a * b >= 0
  {
  }

  lemma Regroup(q: int, size: int, low: int, field: int)
    ensures q * (size * low) + field * low == (q * size + field) * low
  {
  }

  lemma ExactQuotient(n: int, m: int)
    requires m > 0 && n % m == 0
    ensures n == n / m * m
  {
  }

  lemma MultipleModZero(q: nat, m: nat)
    requires m > 0
    ensures q * m % m == 0
  {
    DivModUnique(q * m, m, q, 0);
  }

  lemma DivModUnique(n: int, m: int, q: int, r: int)
    requires m > 0 && n == q * m + r && 0 <= r < m
    ensures n / m == q && n % m == r
  {
    var d := n / m - q;
    assert d * m == r - n % m;
    MultipleOutside(d, m);
  }

  lemma MultipleOutside(d: int, m: int)
    requires m >= 0
    ensures d >= 1 ==> d * m >= m
    ensures d <= -1 ==> d * m <= -m
  {
    if d >= 1 {
      FieldFits(0, d, m);
    } else if d <= -1 {
      FieldFits(0, -d, m);
    }
  }

  /**
   * A field can be read back whatever was written before it (high) and after
   * it (low), as long as the writes after it stay within their own bits.
   */
  lemma GetReadsBack(w: nat, high: nat, val: int, low: nat, start: nat, len: nat)
    requires start + len <= 32 && low < Pow2(32 - start - len)
    requires w == high * Pow2(32 - start) + val % Pow2(len) * Pow2(32 - start - len) + low
    ensures GetField32(w, start, len) == val % Pow2(len)
  {
    hide Or, Pow2;
    var m, size := Pow2(32 - start - len), Pow2(len);
    Pow2Sum(len, 32 - start - len);
    MiddleDigit(w, high, val % size, low, size, m);
  }

  lemma MiddleDigit(w: nat, high: nat, field: nat, low: nat, size: nat, m: nat)
    requires field < size && low < m && w == high * (size * m) + field * m + low
    ensures w / m % size == field
  {
    Regroup(high, size, m, field);
    DivModUnique(w, m, high * size + field, low);
    DivModUnique(high * size + field, size, high, field);
  }
}

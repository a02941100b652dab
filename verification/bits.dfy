// Bytes, C strings and the bitwise operators of unsigned integers.
module Bits {

  type byte = x: int | 0 <= x < 256

  /** A std::string or std::vector<uint8_t>: a sequence of bytes. */
  type Bytes = seq<byte>

  const TWO_POW_32: nat := 0x1_0000_0000
  const TWO_POW_64: nat := 0x1_0000_0000_0000_0000

  function Pow2(k: nat): (r: nat)
    ensures r > 0
  {
    if k == 0 then 1 else 2 * Pow2(k - 1)
  }

  /** x shifted left by k bits. */
  function Shl(x: nat, k: nat): nat {
    if k == 0 then x else 2 * Shl(x, k - 1)
  }

  /** x shifted right by k bits. */
  function Shr(x: nat, k: nat): nat {
    if k == 0 then x else Shr(x, k - 1) / 2
  }

  lemma Shifts(x: nat)
    ensures Shl(x, 2) == 4 * x && Shl(x, 4) == 16 * x && Shl(x, 6) == 64 * x
    ensures Shr(x, 2) == x / 4 && Shr(x, 4) == x / 16 && Shr(x, 6) == x / 64
  {
    assert Shl(x, 2) == 2 * Shl(x, 1) && Shl(x, 4) == 2 * Shl(x, 3) && Shl(x, 6) == 2 * Shl(x, 5);
    assert Shl(x, 3) == 2 * Shl(x, 2) && Shl(x, 5) == 2 * Shl(x, 4);
    assert Shr(x, 1) == x / 2;
    assert Shr(x, 2) == Shr(x, 1) / 2 && Shr(x, 4) == Shr(x, 3) / 2 && Shr(x, 6) == Shr(x, 5) / 2;
    assert Shr(x, 3) == Shr(x, 2) / 2 && Shr(x, 5) == Shr(x, 4) / 2;
  }

  /** Bitwise or, bit by bit. */
  function Or(a: nat, b: nat): nat {
    if a == 0 && b == 0 then 0
    else (if a % 2 == 1 || b % 2 == 1 then 1 else 0) + 2 * Or(a / 2, b / 2)
  }

  /** Bitwise and, bit by bit. */
  function And(a: nat, b: nat): nat {
    if a == 0 || b == 0 then 0
    else (if a % 2 == 1 && b % 2 == 1 then 1 else 0) + 2 * And(a / 2, b / 2)
  }

  /** A conversion to uint8_t keeps the low eight bits. */
  function ToUint8(x: nat): byte {
    x % 256
  }

  lemma {:induction false} OrZero(a: nat)
    ensures Or(a, 0) == a && Or(0, a) == a
  {
    if a != 0 {
      OrZero(a / 2);
    }
  }

  // Where the operands have no bit in common, or is addition.
  lemma {:induction false} OrDisjoint(hi: nat, lo: nat, k: nat)
    requires lo < Pow2(k)
    ensures Or(hi * Pow2(k), lo) == hi * Pow2(k) + lo
  {
    if k == 0 {
      OrZero(hi);
    } else {
      var a := hi * Pow2(k - 1);
      assert hi * Pow2(k) == 2 * a;
      OrDisjoint(hi, lo / 2, k - 1);
      assert Or(2 * a, lo) == lo % 2 + 2 * Or(a, lo / 2);
    }
  }

  // A mask of k ones takes the remainder modulo 2 to the k.
  lemma {:induction false} AndMask(a: nat, k: nat)
    ensures And(a, Pow2(k) - 1) == a % Pow2(k)
  {
    hide And;
    if k > 0 {
      var p: nat := Pow2(k - 1);
      assert Pow2(k) == 2 * p;
      hide Pow2;
      AndMask(a / 2, k - 1);
      HalvedAnd(a, p);
      HalvedRemainder(a, p);
    } else {
      AndZero(a);
      assert Pow2(k) == 1;
    }
  }

  lemma AndZero(a: nat)
    ensures And(a, 0) == 0 == a % 1
  {
  }

  lemma HalvedAnd(a: nat, p: nat)
    requires p > 0
    ensures And(a, 2 * p - 1) == a % 2 + 2 * And(a / 2, p - 1)
  {
    assert (2 * p - 1) % 2 == 1 && (2 * p - 1) / 2 == p - 1;
  }

  lemma HalvedRemainder(a: nat, p: nat)
    requires p > 0
    ensures a % (2 * p) == a % 2 + 2 * ((a / 2) % p)
  {
    var q, r := (a / 2) / p, (a / 2) % p;
    assert a / 2 == q * p + r;
    assert a == q * (2 * p) + (a % 2 + 2 * r);
    RemainderUnique(a, 2 * p, q, a % 2 + 2 * r);
  }

  lemma RemainderUnique(a: nat, d: nat, q: int, r: nat)
    requires d > 0 && a == q * d + r && r < d
    ensures a % d == r && a / d == q
  {
    var q', r' := a / d, a % d;
    assert d * (q' - q) == r - r';
    if q < q' {
      AtLeastOnce(d, q' - q);
    } else if q' < q {
      AtLeastOnce(d, q - q');
    }
  }

  lemma AtLeastOnce(d: nat, n: int)
    requires n >= 1
    ensures d * n >= d
  {
  }
}

/** The binary digits of numbers, and the exclusive or. */
module BinaryDigits {
  /** Exclusive or of the binary digits of two numbers. */
  function BitXor(x: nat, y: nat): nat {
    if x == 0 && y == 0 then 0 else 2 * BitXor(x / 2, y / 2) + (x % 2 + y % 2) % 2
  }

  function Pow2(k: nat): (p: nat)
    ensures p > 0
  {
    if k == 0 then 1 else 2 * Pow2(k - 1)
  }

  /** Binary digit j of x. */
  function Bit(x: nat, j: nat): nat {
    x / Pow2(j) % 2
  }

  /** A digit further up is a digit of the half. */
  lemma BitOfHalf(x: nat, j: nat)
    ensures Bit(x, j + 1) == Bit(x / 2, j)
  {
    DivTwice(x, Pow2(j));
  }

  lemma DivTwice(x: nat, p: nat)
    requires p > 0
    ensures x / (2 * p) == x / 2 / p
  {
    var q, r := x / 2 / p, x / 2 % p;
    assert x / 2 == p * q + r;
    var s := 2 * r + x % 2;
    assert x == 2 * p * q + s && 0 <= s < 2 * p;
    DivUnique(x, 2 * p, q, s);
  }

  lemma DivUnique(x: nat, d: nat, q: nat, r: nat)
    requires d > 0 && x == d * q + r && r < d
    ensures x / d == q
  {
    var q', r' := x / d, x % d;
    assert d * (q - q') == r' - r;
    AtLeast(d, q - q');
  }

  lemma AtLeast(d: nat, k: int)
    ensures k > 0 ==> d * k >= d
    ensures k < 0 ==> d * k <= 0 - d
  {
  }

  /** Each digit of the exclusive or is the parity of the two digits. */
  lemma {:induction false} BitXorDigits(x: nat, y: nat, j: nat)
    ensures Bit(BitXor(x, y), j) == (Bit(x, j) + Bit(y, j)) % 2
  {
    if j == 0 {
      assert Pow2(0) == 1;
    } else {
      BitOfHalf(x, j - 1);
      BitOfHalf(y, j - 1);
      BitOfHalf(BitXor(x, y), j - 1);
      BitXorDigits(x / 2, y / 2, j - 1);
      assert BitXor(x, y) / 2 == BitXor(x / 2, y / 2);
    }
  }

  /** The digits of a number decide it. */
  lemma {:induction false} DigitsDecide(x: nat, y: nat)
    requires forall j: nat :: Bit(x, j) == Bit(y, j)
    ensures x == y
    decreases x + y
  {
    assert Pow2(0) == 1 && Bit(x, 0) == Bit(y, 0);
    if x != 0 || y != 0 {
      forall j: nat
        ensures Bit(x / 2, j) == Bit(y / 2, j)
      {
        BitOfHalf(x, j);
        BitOfHalf(y, j);
        assert Bit(x, j + 1) == Bit(y, j + 1);
      }
      DigitsDecide(x / 2, y / 2);
    }
  }

  /** The digits below k are kept modulo the k-th power of two. */
  lemma {:induction false} DigitsBelow(x: nat, k: nat, j: nat)
    requires j < k
    ensures Bit(x % Pow2(k), j) == Bit(x, j)
  {
    var p := Pow2(k - 1);
    ModHalf(x, p);
    if j == 0 {
      assert Pow2(0) == 1;
    } else {
      BitOfHalf(x, j - 1);
      BitOfHalf(x % Pow2(k), j - 1);
      DigitsBelow(x / 2, k - 1, j - 1);
    }
  }

  lemma ModHalf(x: nat, p: nat)
    requires p > 0
    ensures x % (2 * p) / 2 == x / 2 % p && x % (2 * p) % 2 == x % 2
  {
    var q, r := x / 2 / p, x / 2 % p;
    assert x / 2 == p * q + r;
    var s := 2 * r + x % 2;
    assert x == 2 * p * q + s && 0 <= s < 2 * p;
    DivUnique(x, 2 * p, q, s);
    assert x % (2 * p) == s;
  }
}

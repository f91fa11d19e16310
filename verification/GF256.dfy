/** The field of 256 octets of RFC 6330, section 5.7: polynomials over GF(2) modulo
    x^8 + x^4 + x^3 + x^2 + 1. Octet 2 (the polynomial x) generates the 255 non-zero octets, so the
    multiplication and division tables follow from the exponential and logarithm of section 5.7.2. */
module GF256 {
  import opened Octets
  import opened Permutations

  function Xor(a: Octet, b: Octet): Octet {
    a ^ b
  }

  /** Multiplication by the polynomial x. */
  function Xtime(a: Octet): Octet {
    if a & 0x80 != 0 then (a << 1) ^ 0x1D else a << 1
  }

  /** OCT_EXP of section 5.7.3: the k-th power of x. */
  function Exp(k: nat): Octet {
    if k == 0 then 1 else Xtime(Exp(k - 1))
  }

  /** Multiplication by the k-th power of x. */
  ghost function Shift(k: nat, a: Octet): Octet {
    if k == 0 then a else Xtime(Shift(k - 1, a))
  }

  lemma ShiftXor(a: Octet, b: Octet)
    ensures (a ^ b) << 1 == (a << 1) ^ (b << 1)
  {
  }

  lemma TopXor(a: Octet, b: Octet)
    ensures (a ^ b) & 0x80 == (a & 0x80) ^ (b & 0x80)
    ensures a & 0x80 == 0 || a & 0x80 == 0x80
  {
  }

  lemma XtimeXor(a: Octet, b: Octet)
    ensures Xtime(a ^ b) == Xtime(a) ^ Xtime(b)
  {
    ShiftXor(a, b);
    TopXor(a, b);
    TopXor(b, a);
    if a & 0x80 == 0 {
      if b & 0x80 == 0 {
      } else {
      }
    } else {
      if b & 0x80 == 0 {
      } else {
      }
    }
  }

  lemma XtimeAdd(a: Octet, b: Octet)
    ensures Xtime(Xor(a, b)) == Xor(Xtime(a), Xtime(b))
  {
    XtimeXor(a, b);
  }

  lemma XtimeInjective(a: Octet, b: Octet)
    requires Xtime(a) == Xtime(b)
    ensures a == b
  {
  }

  function Xtime5(a: Octet): Octet {
    Xtime(Xtime(Xtime(Xtime(Xtime(a)))))
  }

  function Xtime15(a: Octet): Octet {
    Xtime5(Xtime5(Xtime5(a)))
  }

  lemma Advance5(k: nat)
    ensures Exp(k + 5) == Xtime5(Exp(k))
  {
    assert Exp(k + 2) == Xtime(Xtime(Exp(k)));
    assert Exp(k + 4) == Xtime(Xtime(Exp(k + 2)));
  }

  lemma Advance15(k: nat)
    ensures Exp(k + 15) == Xtime15(Exp(k))
  {
    Advance5(k);
    Advance5(k + 5);
    Advance5(k + 10);
  }

  /** x has order dividing 255, and none of the proper divisors of 255. */
  lemma OrderOfX()
    ensures Exp(255) == 1
    ensures Exp(1) != 1 && Exp(3) != 1 && Exp(5) != 1 && Exp(15) != 1 && Exp(17) != 1 && Exp(51) != 1 && Exp(85) != 1
  {
    Advance15(0); assert Exp(15) == 0x26;
    Advance15(15); assert Exp(30) == 0x60;
    Advance15(30); assert Exp(45) == 0xc1;
    Advance15(45); assert Exp(60) == 0xb9;
    Advance15(60); assert Exp(75) == 0xf;
    Advance15(75); assert Exp(90) == 0xdf;
    Advance15(90); assert Exp(105) == 0x1a;
    Advance15(105); assert Exp(120) == 0x3b;
    Advance15(120); assert Exp(135) == 0xa9;
    Advance15(135); assert Exp(150) == 0x55;
    Advance15(150); assert Exp(165) == 0x91;
    Advance15(165); assert Exp(180) == 0x96;
    Advance15(180); assert Exp(195) == 0x64;
    Advance15(195); assert Exp(210) == 0x59;
    Advance15(210); assert Exp(225) == 0x24;
    Advance15(225); assert Exp(240) == 0x2c;
    Advance15(240); assert Exp(255) == 0x1;
    Advance5(0);
    assert Exp(17) == Xtime(Xtime(Exp(15)));
    assert Exp(47) == Xtime(Xtime(Exp(45)));
    assert Exp(49) == Xtime(Xtime(Exp(47)));
    assert Exp(51) == Xtime(Xtime(Exp(49)));
    Advance5(75);
    Advance5(80);
  }

  lemma {:induction false} ExpAdd(j: nat, k: nat)
    ensures Exp(j + k) == Shift(j, Exp(k))
  {
    if j > 0 {
      ExpAdd(j - 1, k);
    }
  }

  lemma {:induction false} ShiftAdd(k: nat, a: Octet, b: Octet)
    ensures Shift(k, Xor(a, b)) == Xor(Shift(k, a), Shift(k, b))
  {
    if k > 0 {
      ShiftAdd(k - 1, a, b);
      XtimeAdd(Shift(k - 1, a), Shift(k - 1, b));
    }
  }

  lemma {:induction false} ShiftInjective(k: nat, a: Octet, b: Octet)
    requires Shift(k, a) == Shift(k, b)
    ensures a == b
  {
    if k > 0 {
      XtimeInjective(Shift(k - 1, a), Shift(k - 1, b));
      ShiftInjective(k - 1, a, b);
    }
  }

  lemma {:induction false} ExpNonZero(k: nat)
    ensures Exp(k) != 0
  {
    if k > 0 {
      ExpNonZero(k - 1);
      if Exp(k) == 0 {
        XtimeInjective(Exp(k - 1), 0);
      }
    }
  }

  lemma {:induction false} ExpPeriodic(q: nat, r: nat)
    ensures Exp(255 * q + r) == Exp(r)
  {
    if q > 0 {
      ExpPeriodic(q - 1, r);
      OrderOfX();
      ExpAdd(255 * (q - 1) + r, 255);
      ExpAdd(255 * (q - 1) + r, 0);
    }
  }

  lemma ExpMod(k: nat)
    ensures Exp(k) == Exp(k % 255)
  {
    ExpPeriodic(k / 255, k % 255);
  }

  lemma {:induction false} ExpMultiple(d: nat, m: nat)
    requires Exp(d) == 1
    ensures Exp(d * m) == 1
  {
    if m > 0 {
      ExpMultiple(d, m - 1);
      assert d * m == d * (m - 1) + d;
      ExpAdd(d * (m - 1), d);
      ExpAdd(d * (m - 1), 0);
    }
  }

  lemma ExpDrop(r: nat, e: nat)
    requires Exp(e) == 1
    ensures Exp(r + e) == Exp(r)
  {
    ExpAdd(r, e);
    ExpAdd(r, 0);
  }

  /** The least positive exponent giving 1 divides every exponent giving 1. */
  lemma OrderDivides(d: nat, n: nat)
    requires 0 < d && Exp(d) == 1 && Exp(n) == 1
    requires forall k :: 0 < k < d ==> Exp(k) != 1
    ensures n % d == 0
  {
    assert n == n % d + d * (n / d);
    RemainderIsZero(d, n / d, n % d);
  }

  lemma RemainderIsZero(d: nat, q: nat, r: nat)
    requires r < d && Exp(d) == 1 && Exp(r + d * q) == 1
    requires forall k :: 0 < k < d ==> Exp(k) != 1
    ensures r == 0
  {
    ExpMultiple(d, q);
    ExpDrop(r, d * q);
  }

  /** The first 255 powers of x are different. */
  lemma ExpInjective(i: nat, j: nat)
    requires i < j < 255
    ensures Exp(i) != Exp(j)
  {
    if Exp(i) == Exp(j) {
      assert Exp(j - i) == 1 by {
        ExpAdd(i, j - i);
        ExpAdd(i, 0);
        ShiftInjective(i, Exp(j - i), 1);
      }
      var d := LeastOrder(j - i);
      OrderIs255(d);
    }
  }

  lemma OrderIs255(d: nat)
    requires 0 < d && Exp(d) == 1
    requires forall k :: 0 < k < d ==> Exp(k) != 1
    ensures d == 255
  {
    OrderOfX();
    OrderDivides(d, 255);
    if d < 255 {
      DivisorOf255(d);
    }
  }

  lemma {:induction false} LeastOrder(n: nat) returns (d: nat)
    requires 0 < n && Exp(n) == 1
    ensures 0 < d <= n && Exp(d) == 1 && forall k :: 0 < k < d ==> Exp(k) != 1
  {
    if k :| 0 < k < n && Exp(k) == 1 {
      d := LeastOrder(k);
    } else {
      d := n;
    }
  }

  lemma DivisorOf255(d: nat)
    requires 0 < d < 255 && 255 % d == 0
    ensures d in {1, 3, 5, 15, 17, 51, 85}
  {
    var q := 255 / d;
    assert d * q == 255;
    if d < 16 {
      assert d in {1, 3, 5, 15};
    } else {
      assert q < 16 by { SmallQuotient(d, q); }
      assert q in {1, 3, 5, 15};
    }
  }

  lemma SmallQuotient(d: nat, q: nat)
    requires d * q == 255 && d >= 16
    ensures q < 16
  {
    if q >= 16 {
      MulMonotone(16, d, q);
    }
  }

  lemma MulMonotone(a: nat, b: nat, c: nat)
    requires a <= b
    ensures a * c <= b * c
  {
  }

  /** Every non-zero octet is a power of x. */
  lemma ExpOnto(a: Octet) returns (k: nat)
    requires a != 0
    ensures k < 255 && Exp(k) == a
  {
    var s: seq<nat> := seq(255, (k: nat) => Code(Exp(k)));
    forall k | 0 <= k < 255
      ensures s[k] < 255
    {
      ExpNonZero(k);
    }
    forall i: nat, j: nat
      ensures Differ(s, i, j)
    {
      if i < 255 && j < 255 && i != j && s[i] == s[j] {
        CodeDiffers(i, j);
      }
    }
    k := Hits(s, Code(a));
    ExpNonZero(k);
    CodeInjective(Exp(k), a);
  }

  lemma CodeDiffers(i: nat, j: nat)
    requires i < 255 && j < 255 && i != j
    ensures Code(Exp(i)) != Code(Exp(j))
  {
    ExpNonZero(i);
    ExpNonZero(j);
    if i < j {
      ExpInjective(i, j);
    } else {
      ExpInjective(j, i);
    }
    if Code(Exp(i)) == Code(Exp(j)) {
      CodeInjective(Exp(i), Exp(j));
    }
  }

  /** The non-zero octets as the numbers 0 to 254. */
  ghost function Code(a: Octet): nat {
    var n := a as int;
    if n < 1 then 255 else n - 1
  }

  lemma CodeInjective(a: Octet, b: Octet)
    requires a != 0 && b != 0 && Code(a) == Code(b)
    ensures a == b
  {
    assert a as nat == b as nat;
    assert (a as nat) as bv8 == a;
  }

  lemma IsPower(a: Octet)
    requires a != 0
    ensures exists k: nat :: k < 255 && Exp(k) == a
  {
    var k := ExpOnto(a);
  }

  /** OCT_LOG of section 5.7.4: the power of x that a non-zero octet is. */
  ghost function Log(a: Octet): (k: nat)
    requires a != 0
    ensures k < 255 && Exp(k) == a
  {
    IsPower(a);
    var k: nat :| k < 255 && Exp(k) == a;
    k
  }

  lemma LogUnique(a: Octet, k: nat)
    requires a != 0 && a == Exp(k)
    ensures Log(a) == k % 255
  {
    ExpMod(k);
    var j := Log(a);
    if j < k % 255 {
      ExpInjective(j, k % 255);
    }
    if j > k % 255 {
      ExpInjective(k % 255, j);
    }
  }

  /** Multiplication of section 5.7.2. */
  ghost function OctetMul(a: Octet, b: Octet): Octet {
    if a == 0 || b == 0 then 0 else Exp(Log(a) + Log(b))
  }

  /** Division of section 5.7.2. */
  ghost function OctetDiv(a: Octet, b: Octet): Octet {
    if a == 0 || b == 0 then 0 else Exp(Log(a) + (255 - Log(b)))
  }

  ghost const Tables: Field := Field((a, b) => Xor(a, b), (a, b) => OctetMul(a, b), (a, b) => OctetDiv(a, b))

  lemma MulOfPowers(j: nat, k: nat)
    ensures OctetMul(Exp(j), Exp(k)) == Exp(j + k)
  {
    var x, y := j % 255, k % 255;
    MulByLogs(Exp(j), Exp(k), x, y) by {
      ExpNonZero(j);
      ExpNonZero(k);
      LogUnique(Exp(j), j);
      LogUnique(Exp(k), k);
    }
    assert Exp(x + y) == Exp(j + k) by {
      ExpMod(x + y);
      ExpMod(j + k);
      ModAdd(j, k);
    }
  }

  lemma MulByLogs(a: Octet, b: Octet, x: nat, y: nat)
    requires a != 0 && b != 0 && Log(a) == x && Log(b) == y
    ensures OctetMul(a, b) == Exp(x + y)
  {
  }

  lemma ModAdd(j: nat, k: nat)
    ensures (j % 255 + k % 255) % 255 == (j + k) % 255
  {
  }

  lemma PowerByPower(k: nat, m: nat)
    ensures OctetMul(Exp(k), Exp(m)) == Shift(k, Exp(m))
  {
    MulOfPowers(k, m);
    ExpAdd(k, m);
  }

  lemma MulByPower(k: nat, a: Octet)
    ensures OctetMul(Exp(k), a) == Shift(k, a)
  {
    if a == 0 {
      ShiftZero(k);
    } else {
      var m := ExpOnto(a);
      PowerByPower(k, m);
    }
  }

  lemma {:induction false} ShiftZero(k: nat)
    ensures Shift(k, 0) == 0
  {
    if k > 0 {
      ShiftZero(k - 1);
    }
  }

  lemma LeftTriple(x: nat, y: nat, z: nat)
    ensures OctetMul(OctetMul(Exp(x), Exp(y)), Exp(z)) == Exp(x + y + z)
  {
    MulOfPowers(x, y);
    MulOfPowers(x + y, z);
  }

  lemma RightTriple(x: nat, y: nat, z: nat)
    ensures OctetMul(Exp(x), OctetMul(Exp(y), Exp(z))) == Exp(x + y + z)
  {
    MulOfPowers(y, z);
    MulOfPowers(x, y + z);
  }

  lemma MulAssociative(a: Octet, b: Octet, c: Octet)
    ensures OctetMul(OctetMul(a, b), c) == OctetMul(a, OctetMul(b, c))
  {
    if a != 0 && b != 0 && c != 0 {
      var x := ExpOnto(a);
      var y := ExpOnto(b);
      var z := ExpOnto(c);
      LeftTriple(x, y, z);
      RightTriple(x, y, z);
    }
  }

  lemma MulDistributive(a: Octet, b: Octet, c: Octet)
    ensures OctetMul(Xor(a, b), c) == Xor(OctetMul(a, c), OctetMul(b, c))
  {
    if c != 0 {
      var z := Log(c);
      MulByPower(z, a);
      MulByPower(z, b);
      MulByPower(z, Xor(a, b));
      ShiftAdd(z, a, b);
      MulCommutes(a, c);
      MulCommutes(b, c);
      MulCommutes(Xor(a, b), c);
    }
  }

  lemma MulCommutes(a: Octet, b: Octet)
    ensures OctetMul(a, b) == OctetMul(b, a)
  {
  }

  /** The k-th bit, the coefficient of the k-th power of x. */
  function Mask(k: nat): Octet {
    if k == 0 then 1 else Mask(k - 1) << 1
  }

  function Term(b: Octet, k: nat, a: Octet): Octet {
    if b & Mask(k) != 0 then a else 0
  }

  /** The product of polynomials: the sum of a times the k-th power of x over the bits of b below n. */
  ghost function Product(a: Octet, b: Octet, n: nat): Octet {
    if n == 0 then 0 else Xor(Product(a, b, n - 1), Term(b, n - 1, Shift(n - 1, a)))
  }

  /** The bits of b below n. */
  ghost function LowBits(b: Octet, n: nat): Octet {
    if n == 0 then 0 else Xor(LowBits(b, n - 1), Term(b, n - 1, Exp(n - 1)))
  }

  lemma {:induction false} ProductOfLowBits(a: Octet, b: Octet, n: nat)
    ensures Product(a, b, n) == OctetMul(LowBits(b, n), a)
  {
    if n > 0 {
      ProductOfLowBits(a, b, n - 1);
      MulDistributive(LowBits(b, n - 1), Term(b, n - 1, Exp(n - 1)), a);
      MulByPower(n - 1, a);
    }
  }

  /** Below degree eight the powers of x are not reduced. */
  lemma PowersAreMasks()
    ensures Exp(0) == Mask(0) == 1 && Exp(1) == Mask(1) == 2 && Exp(2) == Mask(2) == 4 && Exp(3) == Mask(3) == 8
    ensures Exp(4) == Mask(4) == 16 && Exp(5) == Mask(5) == 32 && Exp(6) == Mask(6) == 64 && Exp(7) == Mask(7) == 128
  {
    assert Exp(1) == 2 && Mask(1) == 2;
    assert Exp(2) == 4 && Mask(2) == 4;
    assert Exp(3) == 8 && Mask(3) == 8;
    assert Exp(4) == 16 && Mask(4) == 16;
    assert Exp(5) == 32 && Mask(5) == 32;
    assert Exp(6) == 64 && Mask(6) == 64;
  }

  /** What multiplication by x is: it raises every power of x below the seventh by one, makes x^4 + x^3 + x^2 + 1 of the
      eighth, and is additive. */
  lemma XtimeIs(a: Octet, b: Octet, k: nat)
    requires k < 7
    ensures Xtime(Mask(k)) == Mask(k + 1)
    ensures Xtime(Mask(7)) == Mask(4) ^ Mask(3) ^ Mask(2) ^ Mask(0)
    ensures Xtime(Xor(a, b)) == Xor(Xtime(a), Xtime(b))
  {
    PowersAreMasks();
    XtimeAdd(a, b);
    if k == 0 {
    } else if k == 1 {
    } else if k == 2 {
    } else if k == 3 {
    } else if k == 4 {
    } else if k == 5 {
    }
  }

  function BitOf(b: Octet, m: Octet): Octet {
    if b & m != 0 then m else 0
  }

  lemma BitsTogether(b: Octet)
    ensures 0 ^ BitOf(b, 1) ^ BitOf(b, 2) ^ BitOf(b, 4) ^ BitOf(b, 8) ^ BitOf(b, 16) ^ BitOf(b, 32) ^ BitOf(b, 64) ^ BitOf(b, 128) == b
  {
  }

  lemma LowNext(b: Octet, n: nat, m: Octet)
    requires Exp(n) == Mask(n) == m
    ensures LowBits(b, n + 1) == LowBits(b, n) ^ BitOf(b, m)
  {
  }

  lemma FourLowBits(b: Octet)
    ensures LowBits(b, 4) == 0 ^ BitOf(b, 1) ^ BitOf(b, 2) ^ BitOf(b, 4) ^ BitOf(b, 8)
  {
    PowersAreMasks();
    LowNext(b, 0, 1);
    LowNext(b, 1, 2);
    LowNext(b, 2, 4);
    LowNext(b, 3, 8);
  }

  lemma AllLowBits(b: Octet)
    ensures LowBits(b, 8) == b
  {
    PowersAreMasks();
    FourLowBits(b);
    LowNext(b, 4, 16);
    LowNext(b, 5, 32);
    LowNext(b, 6, 64);
    LowNext(b, 7, 128);
    BitsTogether(b);
  }

  /** Multiplication through the tables is multiplication of polynomials. */
  lemma MulIsProduct(a: Octet, b: Octet)
    ensures OctetMul(a, b) == Product(a, b, 8)
  {
    ProductOfLowBits(a, b, 8);
    AllLowBits(b);
    MulCommutes(a, b);
  }

  lemma DivInverts(a: Octet, b: Octet)
    requires b != 0
    ensures OctetMul(OctetDiv(a, b), b) == a
  {
    if a != 0 {
      var x, y := Log(a), 255 - Log(b);
      assert OctetDiv(a, b) == Exp(x + y);
      assert OctetMul(Exp(x + y), Exp(Log(b))) == Exp(x + 255) by {
        MulOfPowers(x + y, Log(b));
      }
      ExpPeriodic(1, x);
    }
  }

  lemma MulOne(a: Octet)
    ensures OctetMul(1, a) == a
  {
    MulByPower(0, a);
  }

  lemma XorLaws(a: Octet, b: Octet, c: Octet)
    ensures Xor(a, b) == Xor(b, a) && Xor(Xor(a, b), c) == Xor(a, Xor(b, c)) && Xor(a, 0) == a && Xor(a, a) == 0
  {
  }

  lemma MulOnTheRight(a: Octet, b: Octet, c: Octet)
    ensures OctetMul(a, Xor(b, c)) == Xor(OctetMul(a, b), OctetMul(a, c))
  {
    MulDistributive(b, c, a);
    MulCommutes(a, Xor(b, c));
    MulCommutes(a, b);
    MulCommutes(a, c);
  }

  lemma MulUnit(a: Octet)
    ensures OctetMul(a, 1) == a && OctetMul(a, 0) == 0
  {
    MulOne(a);
    MulCommutes(a, 1);
  }

  lemma DivOnTheRight(a: Octet, b: Octet)
    requires b != 0
    ensures OctetMul(b, OctetDiv(a, b)) == a
  {
    DivInverts(a, b);
    MulCommutes(b, OctetDiv(a, b));
  }

  lemma TableAdd(a: Octet, b: Octet, c: Octet)
    ensures Add(Tables, a, b) == Add(Tables, b, a)
    ensures Add(Tables, Add(Tables, a, b), c) == Add(Tables, a, Add(Tables, b, c))
    ensures Add(Tables, a, 0) == a && Add(Tables, a, a) == 0
  {
    XorLaws(a, b, c);
  }

  lemma TableMul(a: Octet, b: Octet, c: Octet)
    ensures Mul(Tables, a, b) == Mul(Tables, b, a)
    ensures Mul(Tables, Mul(Tables, a, b), c) == Mul(Tables, a, Mul(Tables, b, c))
  {
    MulCommutes(a, b);
    MulAssociative(a, b, c);
  }

  lemma TableMulAdd(a: Octet, b: Octet, c: Octet)
    ensures Mul(Tables, a, Add(Tables, b, c)) == Add(Tables, Mul(Tables, a, b), Mul(Tables, a, c))
  {
    MulOnTheRight(a, b, c);
  }

  lemma TableUnits(a: Octet)
    ensures Mul(Tables, a, 1) == a && Mul(Tables, a, 0) == 0
  {
    MulUnit(a);
  }

  lemma TableDiv(a: Octet, b: Octet)
    requires b != 0
    ensures Mul(Tables, b, Div(Tables, a, b)) == a
  {
    DivOnTheRight(a, b);
  }

  /** Exclusive-or and the tables of section 5.7.2 form a field of characteristic two. */
  lemma TablesAreAField()
    ensures Laws(Tables)
  {
    forall a, b, c
      ensures LawsAt(Tables, a, b, c)
    {
      TableAdd(a, b, c);
      TableMul(a, b, c);
      TableMulAdd(a, b, c);
      TableUnits(a);
      if b != 0 {
        TableDiv(a, b);
      }
    }
  }
}

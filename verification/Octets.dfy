/** Octet arithmetic (RFC 6330, section 5.7): addition is exclusive-or; multiplication and division are
    looked up in tables. The operations are a parameter of the model, a Field, together with the laws the
    decoder relies on. Module GF256 builds the field of section 5.7.2 and proves the laws for it. */
module Octets {
  type Octet = bv8

  /** The three operations, each total, as exclusive-or and the two tables are. */
  datatype Field = Field(add: (Octet, Octet) -> Octet, mul: (Octet, Octet) -> Octet, div: (Octet, Octet) -> Octet)

  function Add(F: Field, a: Octet, b: Octet): Octet {
    F.add(a, b)
  }

  function Mul(F: Field, a: Octet, b: Octet): Octet {
    F.mul(a, b)
  }

  function Div(F: Field, a: Octet, b: Octet): Octet {
    F.div(a, b)
  }

  /** The laws of a field of characteristic two, at three elements; division by zero is unconstrained. */
  ghost predicate LawsAt(F: Field, a: Octet, b: Octet, c: Octet) {
    && Add(F, a, b) == Add(F, b, a)
    && Add(F, Add(F, a, b), c) == Add(F, a, Add(F, b, c))
    && Add(F, a, 0) == a
    && Add(F, a, a) == 0
    && Mul(F, a, b) == Mul(F, b, a)
    && Mul(F, Mul(F, a, b), c) == Mul(F, a, Mul(F, b, c))
    && Mul(F, a, Add(F, b, c)) == Add(F, Mul(F, a, b), Mul(F, a, c))
    && Mul(F, a, 1) == a
    && Mul(F, a, 0) == 0
    && (b != 0 ==> Mul(F, b, Div(F, a, b)) == a)
  }

  /** What the operations must satisfy. */
  ghost predicate Laws(F: Field) {
    forall a, b, c {:trigger LawsAt(F, a, b, c)} :: LawsAt(F, a, b, c)
  }

  lemma AddLaws(F: Field, a: Octet, b: Octet, c: Octet)
    requires Laws(F)
    ensures Add(F, a, b) == Add(F, b, a)
    ensures Add(F, Add(F, a, b), c) == Add(F, a, Add(F, b, c))
    ensures Add(F, a, 0) == a && Add(F, 0, a) == a && Add(F, a, a) == 0
  {
    assert LawsAt(F, a, b, c);
    assert LawsAt(F, 0, a, 0);
  }

  lemma MulLaws(F: Field, a: Octet, b: Octet, c: Octet)
    requires Laws(F)
    ensures Mul(F, a, b) == Mul(F, b, a)
    ensures Mul(F, Mul(F, a, b), c) == Mul(F, a, Mul(F, b, c))
    ensures Mul(F, a, Add(F, b, c)) == Add(F, Mul(F, a, b), Mul(F, a, c))
  {
    assert LawsAt(F, a, b, c);
  }

  lemma MulUnits(F: Field, a: Octet)
    requires Laws(F)
    ensures Mul(F, a, 1) == a && Mul(F, 1, a) == a && Mul(F, a, 0) == 0 && Mul(F, 0, a) == 0
  {
    assert LawsAt(F, a, 1, 0);
    assert LawsAt(F, a, 0, 1);
  }

  /** Sums in characteristic two cancel. */
  lemma AddCancels(F: Field, a: Octet, b: Octet)
    requires Laws(F)
    ensures Add(F, Add(F, a, b), b) == a
    ensures Add(F, a, b) == 0 <==> a == b
  {
    AddLaws(F, a, b, b);
    AddLaws(F, b, b, b);
    AddLaws(F, b, 0, 0);
  }

  /** Dividing is multiplying by an inverse that depends on the divisor alone. */
  lemma DivIsMul(F: Field, a: Octet, b: Octet)
    requires Laws(F)
    requires b != 0
    ensures Div(F, a, b) == Mul(F, Div(F, 1, b), a)
    ensures Mul(F, b, Div(F, a, b)) == a
  {
    var c, q := Div(F, 1, b), Div(F, a, b);
    assert LawsAt(F, 1, b, 0);
    assert LawsAt(F, a, b, 0);
    MulLaws(F, c, b, q);
    MulUnits(F, q);
  }

  /** A product is zero only when a factor is. */
  lemma NoZeroDivisors(F: Field, a: Octet, b: Octet)
    requires Laws(F)
    requires b != 0 && Mul(F, b, a) == 0
    ensures a == 0
  {
    var c := Div(F, 1, b);
    assert LawsAt(F, 1, b, 0);
    MulLaws(F, c, b, a);
    MulUnits(F, a);
    MulUnits(F, c);
  }
}

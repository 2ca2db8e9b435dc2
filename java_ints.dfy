/** Java int arithmetic beyond the wrap-around of Words: the truncating
    division and the facts that let a chain of wrapped operations be
    computed on unbounded integers and wrapped once at the end. */
module JavaInts {
  import opened Words

  const Modulus: int := 0x1_0000_0000

  /** Java's `a / d` for a positive divisor: the quotient rounded toward
      zero, so the remainder has the sign of a and is smaller than d. */
  function JavaDiv(a: int, d: int): (q: int)
    requires d > 0
    ensures a >= 0 ==> 0 <= a - q * d < d
    ensures a < 0 ==> -d < a - q * d <= 0
  {
    if a >= 0 then a / d else -((-a) / d)
  }

  /** Math.abs on an int: the negation of Integer.MIN_VALUE wraps back to
      Integer.MIN_VALUE. */
  function Abs32(x: Int32): (r: Int32)
    ensures x > MinInt32 ==> r >= 0 && (r == x || r == -x)
    ensures x == MinInt32 ==> r == MinInt32
  {
    if x < 0 then Wrap32(-(x as int)) else x
  }

  lemma ShiftByModulus(a: int, k: int)
    ensures Wrap32(a + Modulus * k) == Wrap32(a)
  {
    var r, s := Wrap32(a + Modulus * k), Wrap32(a);
    assert (r - s) % Modulus == 0 by {
      assert r - s == (r - (a + Modulus * k)) - (s - a) + Modulus * k;
    }
    SameResidue(r, s);
  }

  /** Two ints in the same residue class modulo 2^32 are equal. */
  lemma SameResidue(r: Int32, s: Int32)
    requires (r - s) % Modulus == 0
    ensures r == s
  {
  }

  /** Wrapping an operand of an addition first changes nothing. */
  lemma WrapAdd(x: int, y: int)
    ensures Wrap32(Wrap32(x) + y) == Wrap32(x + y)
  {
    var k := (Wrap32(x) - x) / Modulus;
    assert Wrap32(x) == x + Modulus * k;
    ShiftByModulus(x + y, k);
  }

  /** Wrapping a factor of a multiplication first changes nothing. */
  lemma WrapMul(x: int, y: int)
    ensures Wrap32(Wrap32(x) * y) == Wrap32(x * y)
  {
    var k := (Wrap32(x) - x) / Modulus;
    assert Wrap32(x) == x + Modulus * k;
    assert Wrap32(x) * y == x * y + Modulus * (k * y);
    ShiftByModulus(x * y, k * y);
  }
}

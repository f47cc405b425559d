/**
  Bitwise exclusive-or on unbounded naturals, and JavaScript's
  `(a ^ b) >>> 0` built from it.
*/
module Bitwise {

  function Pow2(k: nat): (r: nat)
    ensures r >= 1
  {
    if k == 0 then 1 else 2 * Pow2(k - 1)
  }

  /** Bitwise exclusive-or, one binary digit at a time from the least significant. */
  function Xor(a: nat, b: nat): nat
    decreases a + b
  {
    if a == 0 then b
    else if b == 0 then a
    else 2 * Xor(a / 2, b / 2) + (if a % 2 == b % 2 then 0 else 1)
  }

  /** `(a ^ b) >>> 0` for non-negative integers: both operands are taken modulo 2^32. */
  function JsXor(a: nat, b: nat): nat {
    Xor(a % 0x1_0000_0000, b % 0x1_0000_0000)
  }

  /** The low bit of a xor is the parity of the operands; the rest is the xor of the halves. */
  lemma XorHalves(a: nat, b: nat)
    ensures Xor(a, b) / 2 == Xor(a / 2, b / 2)
    ensures Xor(a, b) % 2 == (a + b) % 2
  {
    if a == 0 {
      assert Xor(0, b / 2) == b / 2;
    } else if b == 0 {
      assert Xor(a / 2, 0) == a / 2;
    }
  }

  lemma {:induction false} XorZero(a: nat)
    ensures Xor(a, 0) == a && Xor(0, a) == a
  {
  }

  lemma {:induction false} XorSelf(a: nat)
    ensures Xor(a, a) == 0
    decreases a
  {
    if a > 0 {
      XorSelf(a / 2);
    }
  }

  lemma {:induction false} XorCommutes(a: nat, b: nat)
    ensures Xor(a, b) == Xor(b, a)
    decreases a + b
  {
    if a != 0 && b != 0 {
      XorCommutes(a / 2, b / 2);
    }
  }

  lemma {:induction false} XorAssociates(a: nat, b: nat, c: nat)
    ensures Xor(Xor(a, b), c) == Xor(a, Xor(b, c))
    decreases a + b + c
  {
    var l := Xor(Xor(a, b), c);
    var r := Xor(a, Xor(b, c));
    if a + b + c > 0 {
      XorHalves(Xor(a, b), c);
      XorHalves(a, b);
      XorHalves(a, Xor(b, c));
      XorHalves(b, c);
      assert a / 2 + b / 2 + c / 2 < a + b + c;
      XorAssociates(a / 2, b / 2, c / 2);
      assert l / 2 == r / 2;
      assert l % 2 == r % 2;
    }
  }

  /** Xor-ing the same operand twice restores the value. */
  lemma XorCancels(a: nat, b: nat)
    ensures Xor(Xor(a, b), b) == a
  {
    XorAssociates(a, b, b);
    XorSelf(b);
    XorZero(a);
  }

  /** Xor never sets a bit at or above the width of its operands. */
  lemma {:induction false} XorBound(a: nat, b: nat, k: nat)
    requires a < Pow2(k) && b < Pow2(k)
    ensures Xor(a, b) < Pow2(k)
    decreases k
  {
    if k > 0 {
      XorHalves(a, b);
      XorBound(a / 2, b / 2, k - 1);
    }
  }

  lemma Pow2Values()
    ensures Pow2(8) == 0x100
    ensures Pow2(10) == 0x400
    ensures Pow2(16) == 0x1_0000
    ensures Pow2(21) == 0x20_0000
    ensures Pow2(26) == 0x400_0000
    ensures Pow2(32) == 0x1_0000_0000
  {
    assert Pow2(8) == 0x100;
    assert Pow2(10) == 0x400;
    assert Pow2(16) == 0x1_0000;
    assert Pow2(21) == 0x20_0000;
    assert Pow2(26) == 0x400_0000;
    assert Pow2(32) == 0x1_0000_0000;
  }

  /** On operands below 2^32 the JavaScript operator is plain xor, and stays below 2^32. */
  lemma JsXorIsXor(a: nat, b: nat)
    requires a < 0x1_0000_0000 && b < 0x1_0000_0000
    ensures JsXor(a, b) == Xor(a, b)
    ensures Xor(a, b) < 0x1_0000_0000
  {
    assert a % 0x1_0000_0000 == a && b % 0x1_0000_0000 == b;
    assert Pow2(32) == 0x1_0000_0000 by {
      Pow2Values();
    }
    XorBound(a, b, 32);
  }
}

/** Bitwise operations on natural numbers. */
module Bits {
  function PowerOf2(k: nat): nat {
    if k == 0 then 1 else 2 * PowerOf2(k - 1)
  }

  function BitOr(a: nat, b: nat): nat
    decreases a + b
  {
    if a == 0 then b else if b == 0 then a
    else (if a % 2 == 1 || b % 2 == 1 then 1 else 0) + 2 * BitOr(a / 2, b / 2)
  }

  /** Bit `i` of a number. */
  predicate Bit(a: nat, i: nat) {
    if i == 0 then a % 2 == 1 else Bit(a / 2, i - 1)
  }

  lemma {:induction false} OrBits(a: nat, b: nat, i: nat)
    ensures Bit(BitOr(a, b), i) <==> Bit(a, i) || Bit(b, i)
    decreases i
  {
    if a == 0 || b == 0 {
      NoBits(i);
    } else if i > 0 {
      OrBits(a / 2, b / 2, i - 1);
    }
  }

  lemma {:induction false} NoBits(i: nat)
    ensures !Bit(0, i)
  {
    if i == 0 {
    } else {
      NoBits(i - 1);
    }
  }

  lemma OrShifted(a: nat, c: nat, d: nat)
    requires d < 2
    ensures BitOr(2 * a, 2 * c + d) == 2 * BitOr(a, c) + d
  {
  }

  lemma FourBits(b: nat) returns (b3: nat, b2: nat, b1: nat, b0: nat)
    requires b < 16
    ensures b3 < 2 && b2 < 2 && b1 < 2 && b0 < 2 && b == 2 * (2 * (2 * b3 + b2) + b1) + b0
  {
    b3, b2, b1, b0 := b / 8, b / 4 % 2, b / 2 % 2, b % 2;
  }

  /** Four bits fill the place that a multiple of 16 leaves free. */
  lemma OrSixteen(a: nat, b: nat)
    requires b < 16
    ensures BitOr(16 * a, b) == 16 * a + b
  {
    hide BitOr;
    OrZero(a);
    var b3, b2, b1, b0 := FourBits(b);
    OrShifted(a, 0, b3);
    OrShifted(2 * a, b3, b2);
    OrShifted(4 * a, 2 * b3 + b2, b1);
    OrShifted(8 * a, 2 * (2 * b3 + b2) + b1, b0);
  }

  lemma OrZero(a: nat)
    ensures BitOr(a, 0) == a
  {
  }

  /** A further bit above all others. */
  lemma {:induction false} HighBit(a: nat, k: nat, i: nat)
    requires a < PowerOf2(k) && i <= k
    ensures Bit(a + PowerOf2(k), i) <==> i == k || Bit(a, i)
    ensures !Bit(a, k)
    decreases k
  {
    if k == 0 {
    } else {
      var p := PowerOf2(k);
      assert p / 2 == PowerOf2(k - 1) && (a + p) / 2 == a / 2 + p / 2 && (a + p) % 2 == a % 2;
      HighBit(a / 2, k - 1, if i == 0 then 0 else i - 1);
    }
  }

  lemma FiveBits()
    ensures PowerOf2(5) == 32
  {
    assert PowerOf2(3) == 8;
  }

  lemma {:induction false} OrBound(a: nat, b: nat, k: nat)
    requires a < PowerOf2(k) && b < PowerOf2(k)
    ensures BitOr(a, b) < PowerOf2(k)
  {
    if a == 0 || b == 0 || k == 0 {
    } else {
      OrBound(a / 2, b / 2, k - 1);
    }
  }

  function Xor(a: nat, b: nat): nat
    decreases a + b
  {
    if a + b == 0 then 0 else (if a % 2 == b % 2 then 0 else 1) + 2 * Xor(a / 2, b / 2)
  }

  lemma XorHalf(a: nat, b: nat)
    ensures Xor(a, b) % 2 == (if a % 2 == b % 2 then 0 else 1) && Xor(a, b) / 2 == Xor(a / 2, b / 2)
  {
  }

  lemma {:induction false} XorBits(a: nat, b: nat, i: nat)
    ensures Bit(Xor(a, b), i) <==> Bit(a, i) != Bit(b, i)
    decreases i
  {
    XorHalf(a, b);
    if i == 0 {
    } else {
      XorBits(a / 2, b / 2, i - 1);
    }
  }

  lemma {:induction false} XorTwice(a: nat, b: nat, c: nat)
    ensures Xor(Xor(a, b), c) == Xor(a, Xor(b, c))
    decreases a + b + c
  {
    if a + b + c == 0 {
    } else {
      hide Xor;
      XorTwice(a / 2, b / 2, c / 2);
      XorHalf(a, b);
      XorHalf(Xor(a, b), c);
      XorHalf(b, c);
      XorHalf(a, Xor(b, c));
    }
  }

  lemma {:induction false} XorZero(a: nat)
    ensures Xor(a, 0) == a
  {
    if a == 0 {
    } else {
      XorZero(a / 2);
    }
  }

  lemma {:induction false} XorSelf(a: nat)
    ensures Xor(a, a) == 0
  {
    if a == 0 {
    } else {
      XorSelf(a / 2);
    }
  }

  lemma {:induction false} XorBit(a: nat, k: nat)
    requires a < PowerOf2(k)
    ensures Xor(a, PowerOf2(k)) == a + PowerOf2(k) && Xor(PowerOf2(k), a) == a + PowerOf2(k)
  {
    var p := PowerOf2(k);
    if k == 0 {
      assert Xor(0, 1) == 1 + 2 * Xor(0, 0) && Xor(1, 0) == 1 + 2 * Xor(0, 0);
    } else {
      XorBit(a / 2, k - 1);
      assert p / 2 == PowerOf2(k - 1) && (a + p) / 2 == a / 2 + p / 2 && (a + p) % 2 == a % 2;
    }
  }

  lemma {:induction false} XorBound(a: nat, b: nat, k: nat)
    requires a < PowerOf2(k) && b < PowerOf2(k)
    ensures Xor(a, b) < PowerOf2(k)
    decreases k
  {
    if k == 0 || a + b == 0 {
    } else {
      XorBound(a / 2, b / 2, k - 1);
    }
  }

  lemma {:induction false} ZeroXor(a: nat)
    ensures Xor(0, a) == a
  {
    if a == 0 {
    } else {
      ZeroXor(a / 2);
    }
  }
}

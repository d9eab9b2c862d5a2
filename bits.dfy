/**
 * Permission bitmasks as non-negative integers, with JavaScript's `|` and `&` written out
 * bit by bit.  For operands below 2^31 these agree with JavaScript's 32-bit operators; role
 * bitmasks are positive integers, and this bound is the one a signed 32-bit column imposes.
 */
module Bits {

  /** Bit `i` of `n`. */
  predicate Bit(n: nat, i: nat)
    decreases i
  {
    if i == 0 then n % 2 == 1 else Bit(n / 2, i - 1)
  }

  /** Bitwise OR, `a | b`. */
  function Or(a: nat, b: nat): (r: nat)
    ensures a <= r && b <= r
    decreases a + b
  {
    if a == 0 then b
    else if b == 0 then a
    else 2 * Or(a / 2, b / 2) + (if a % 2 == 1 || b % 2 == 1 then 1 else 0)
  }

  /** Bitwise AND, `a & b`. */
  function And(a: nat, b: nat): (r: nat)
    ensures r <= a && r <= b
    decreases a + b
  {
    if a == 0 || b == 0 then 0
    else 2 * And(a / 2, b / 2) + (if a % 2 == 1 && b % 2 == 1 then 1 else 0)
  }

  /** `1 << i`: the flag with only bit `i` set. */
  function Flag(i: nat): (f: nat)
    ensures f > 0
  {
    if i == 0 then 1 else 2 * Flag(i - 1)
  }

  /** Every bit of `required` is a bit of `held`. */
  ghost predicate Covers(held: nat, required: nat) {
    forall i: nat :: Bit(required, i) ==> Bit(held, i)
  }

  lemma {:induction false} BitOfZero(i: nat)
    ensures !Bit(0, i)
    decreases i
  {
    if i > 0 {
      BitOfZero(i - 1);
    }
  }

  lemma {:induction false} BitOfOr(a: nat, b: nat, i: nat)
    ensures Bit(Or(a, b), i) <==> Bit(a, i) || Bit(b, i)
    decreases i
  {
    if a == 0 || b == 0 {
      BitOfZero(i);
    } else if i > 0 {
      var c := if a % 2 == 1 || b % 2 == 1 then 1 else 0;
      assert Or(a, b) == 2 * Or(a / 2, b / 2) + c;
      BitOfOr(a / 2, b / 2, i - 1);
    }
  }

  lemma {:induction false} BitOfAnd(a: nat, b: nat, i: nat)
    ensures Bit(And(a, b), i) <==> Bit(a, i) && Bit(b, i)
    decreases i
  {
    if a == 0 || b == 0 {
      BitOfZero(i);
    } else if i > 0 {
      var c := if a % 2 == 1 && b % 2 == 1 then 1 else 0;
      assert And(a, b) == 2 * And(a / 2, b / 2) + c;
      BitOfAnd(a / 2, b / 2, i - 1);
    }
  }

  lemma {:induction false} BitOfFlag(i: nat, j: nat)
    ensures Bit(Flag(i), j) <==> i == j
    decreases i
  {
    if i == 0 {
      if j > 0 {
        BitOfZero(j - 1);
      }
    } else if j > 0 {
      assert Flag(i) / 2 == Flag(i - 1);
      BitOfFlag(i - 1, j - 1);
    }
  }

  /** A number is determined by its bits. */
  lemma {:induction false} BitsDetermine(a: nat, b: nat)
    requires forall i: nat :: Bit(a, i) <==> Bit(b, i)
    ensures a == b
    decreases a + b
  {
    if a != 0 || b != 0 {
      assert Bit(a, 0) <==> Bit(b, 0);
      forall i: nat
        ensures Bit(a / 2, i) <==> Bit(b / 2, i)
      {
        assert Bit(a, i + 1) <==> Bit(b, i + 1);
      }
      BitsDetermine(a / 2, b / 2);
    }
  }

  lemma OrCommutes(a: nat, b: nat)
    ensures Or(a, b) == Or(b, a)
  {
    forall i: nat
      ensures Bit(Or(a, b), i) <==> Bit(Or(b, a), i)
    {
      BitOfOr(a, b, i);
      BitOfOr(b, a, i);
    }
    BitsDetermine(Or(a, b), Or(b, a));
  }

  lemma OrAssociates(a: nat, b: nat, c: nat)
    ensures Or(Or(a, b), c) == Or(a, Or(b, c))
  {
    forall i: nat
      ensures Bit(Or(Or(a, b), c), i) <==> Bit(Or(a, Or(b, c)), i)
    {
      BitOfOr(Or(a, b), c, i);
      BitOfOr(a, b, i);
      BitOfOr(a, Or(b, c), i);
      BitOfOr(b, c, i);
    }
    BitsDetermine(Or(Or(a, b), c), Or(a, Or(b, c)));
  }

  /** The bitwise subset test `(held & required) === required` is "every required bit is held". */
  lemma SubsetIffCovers(held: nat, required: nat)
    ensures And(held, required) == required <==> Covers(held, required)
  {
    forall i: nat
      ensures Bit(And(held, required), i) <==> Bit(held, i) && Bit(required, i)
    {
      BitOfAnd(held, required, i);
    }
    if Covers(held, required) {
      BitsDetermine(And(held, required), required);
    }
  }

  /** OR of two numbers with no common bit is their sum. */
  lemma {:induction false} OrOfDisjointIsSum(a: nat, b: nat)
    requires And(a, b) == 0
    ensures Or(a, b) == a + b
    decreases a + b
  {
    if a != 0 && b != 0 {
      assert And(a / 2, b / 2) == 0;
      OrOfDisjointIsSum(a / 2, b / 2);
    }
  }

  /** Two numbers whose bits never coincide have AND 0. */
  lemma AndOfBitDisjoint(a: nat, b: nat)
    requires forall i: nat :: !(Bit(a, i) && Bit(b, i))
    ensures And(a, b) == 0
  {
    forall i: nat
      ensures Bit(And(a, b), i) <==> Bit(0, i)
    {
      BitOfAnd(a, b, i);
      BitOfZero(i);
    }
    BitsDetermine(And(a, b), 0);
  }
}

/**
  Laws of the Peano integer algebra: well-formedness, the integer meaning
  of each operation, the exact domain of addition on well-formed values,
  the ill-formed results of cancelling addition, and the order laws.
 */
module PeanoLaws {
  import opened Peano

  /** k successors stacked on v. */
  ghost function Succs(k: nat, v: P): P
  {
    if k == 0 then v else S(Succs(k - 1, v))
  }

  /** The numeral for n: n successors of Z. */
  ghost function FromNat(n: nat): P
  {
    Succs(n, Z)
  }

  // ---------------------------------------------------------------------
  // Numerals and well-formedness

  lemma {:induction false} FromNatIsNatural(n: nat)
    ensures IsNatural(FromNat(n)) && ToInt(FromNat(n)) == n
    ensures n > 0 ==> IsPositive(FromNat(n))
  {
    if n > 0 {
      FromNatIsNatural(n - 1);
    }
  }

  /** The ten named constants are the numerals 0 to 10. */
  lemma {:induction false} NamedConstants()
    ensures Zero == FromNat(0) && One == FromNat(1) && Two == FromNat(2)
    ensures Three == FromNat(3) && Four == FromNat(4) && Five == FromNat(5)
    ensures Six == FromNat(6) && Seven == FromNat(7) && Eight == FromNat(8)
    ensures Nine == FromNat(9) && Ten == FromNat(10)
    ensures ToInt(Ten) == 10 && WF(Ten)
  {
    FromNatIsNatural(10);
  }

  /** Every natural is the numeral of its integer. */
  lemma {:induction false} NaturalIsNumeral(v: P)
    requires IsNatural(v)
    ensures v == FromNat(ToInt(v))
  {
    FromNatIsNatural(ToInt(v));
    ToIntInjective(v, FromNat(ToInt(v)));
  }

  /** Every well-formed value is a numeral or the negation of a positive one. */
  lemma {:induction false} WellFormedIsNumeral(v: P)
    requires WF(v)
    ensures v == if ToInt(v) >= 0 then FromNat(ToInt(v)) else NEG(FromNat(-ToInt(v)))
  {
    if ToInt(v) >= 0 {
      FromNatIsNatural(ToInt(v));
      ToIntInjective(v, FromNat(ToInt(v)));
    } else {
      FromNatIsNatural(-ToInt(v));
      ToIntInjective(v, NEG(FromNat(-ToInt(v))));
    }
  }

  // ---------------------------------------------------------------------
  // Negation

  /** Negation is an involution on every shape that has a negation. */
  lemma NegateInvolutive(v: P)
    requires HasNegation(v)
    ensures Negate(Negate(v)) == v
  {
  }

  // ---------------------------------------------------------------------
  // Equality

  /** Off the well-formed values, equal integers need not be identical. */
  lemma EqualIsStructural()
    ensures AddDefined(One, Negate(One))
    ensures ToInt(Add(One, Negate(One))) == ToInt(Zero)
    ensures !Equal(Add(One, Negate(One)), Zero)
  {
  }

  // ---------------------------------------------------------------------
  // Comparison

  /** Swapping the operands swaps LESS and GREATER, on every value. */
  lemma {:induction false} CompareAntisymmetric(a: P, b: P)
    ensures Compare(a, b) == LESS <==> Compare(b, a) == GREATER
    ensures Compare(a, b) == EQUAL <==> Compare(b, a) == EQUAL
    decreases Size(a) + Size(b)
  {
    match (a, b)
    case (NEG(a'), NEG(b')) => CompareAntisymmetric(b', a');
    case (NEG(_), _) =>
    case (_, NEG(_)) =>
    case (Z, Z) =>
    case (Z, S(_)) =>
    case (S(_), Z) =>
    case (S(a'), S(b')) => CompareAntisymmetric(a', b');
  }

  /** Every negation is below every value that is not a negation. */
  lemma NegativeBelowNonNegative(a: P, b: P)
    requires a.NEG? && !b.NEG?
    ensures Compare(a, b) == LESS && Compare(b, a) == GREATER
  {
  }

  /** On well-formed values Compare reports EQUAL exactly for identical values. */
  lemma {:induction false} CompareEqualIffIdentical(a: P, b: P)
    requires WF(a) && WF(b)
    ensures Compare(a, b) == EQUAL <==> a == b
  {
    ToIntInjective(a, b);
  }

  /** Negating both operands and swapping them leaves the comparison unchanged. */
  lemma CompareNegate(a: P, b: P)
    requires WF(a) && WF(b)
    ensures Compare(Negate(b), Negate(a)) == Compare(a, b)
  {
  }

  /** The facets of a comparison outcome. */
  lemma CmpFacets(c: Cmp)
    ensures (c.Less() && !c.Equal() && !c.Greater())
         || (!c.Less() && c.Equal() && !c.Greater())
         || (!c.Less() && !c.Equal() && c.Greater())
    ensures c.Leq() <==> c.Less() || c.Equal()
    ensures c.Geq() <==> c.Greater() || c.Equal()
  {
  }

  /** The relations together: the integer order, and exactly one of less, equal, greater. */
  lemma RelationsMatchIntOrder(a: P, b: P)
    requires WF(a) && WF(b)
    ensures Less(a, b) <==> ToInt(a) < ToInt(b)
    ensures Leq(a, b) <==> ToInt(a) <= ToInt(b)
    ensures Greater(a, b) <==> ToInt(a) > ToInt(b)
    ensures Geq(a, b) <==> ToInt(a) >= ToInt(b)
    ensures (Less(a, b) && !Equal(a, b) && !Greater(a, b))
         || (!Less(a, b) && Equal(a, b) && !Greater(a, b))
         || (!Less(a, b) && !Equal(a, b) && Greater(a, b))
  {
  }

  lemma CompareMinusTwoMinusFive()
    ensures Compare(Negate(Two), Negate(Five)) == GREATER
    ensures Less(Negate(Ten), Zero)
  {
  }

  // ---------------------------------------------------------------------
  // Addition

  lemma AddZeroLeft(b: P)
    ensures AddDefined(Z, b) && Add(Z, b) == b
  {
  }

  /** Addition with a natural left operand never negates, so it is always defined. */
  lemma {:induction false} AddDefinedOnNatural(a: P, b: P)
    requires IsNatural(a)
    ensures AddDefined(a, b)
  {
    match (a, b)
    case (Z, _) =>
    case (S(a'), NEG(S(b'))) => AddDefinedOnNatural(a', NEG(b'));
    case (S(a'), _) => AddDefinedOnNatural(a', b);
  }

  lemma {:induction false} AddNaturals(a: P, b: P)
    requires IsNatural(a) && IsNatural(b)
    ensures AddDefined(a, b) && IsNatural(Add(a, b))
    ensures ToInt(Add(a, b)) == ToInt(a) + ToInt(b)
  {
    match a
    case Z =>
    case S(a') => AddNaturals(a', b);
  }

  lemma {:induction false} AddZeroRightNatural(a: P)
    requires IsNatural(a)
    ensures AddDefined(a, Z) && Add(a, Z) == a
  {
    match a
    case Z =>
    case S(a') => AddZeroRightNatural(a');
  }

  lemma {:induction false} AddZeroRight(a: P)
    requires WF(a)
    ensures AddDefined(a, Z) && Add(a, Z) == a
  {
    match a
    case NEG(p) => AddZeroRightNatural(p);
    case _ => AddZeroRightNatural(a);
  }

  /**
    A numeral plus the raw negation of a numeral. The result is a
    well-formed negation when the negative side is larger; otherwise the
    cancellation reaches NEG(Z), under n - m successors.
   */
  lemma {:induction false} AddNaturalNegative(n: nat, m: nat)
    ensures AddDefined(FromNat(n), NEG(FromNat(m)))
    ensures Add(FromNat(n), NEG(FromNat(m)))
         == if m > n then NEG(FromNat(m - n)) else Succs(n - m, NEG(Z))
  {
    if n > 0 {
      AddNaturalNegative(n - 1, if m > 0 then m - 1 else 0);
    }
  }

  lemma {:induction false} SuccsOverNegZero(k: nat)
    ensures !WF(Succs(k, NEG(Z)))
    ensures HasNegation(Succs(k, NEG(Z))) <==> k > 0
  {
    if k > 0 {
      SuccsOverNegZero(k - 1);
    }
  }

  /** The result is well formed exactly when the negative side is strictly larger. */
  lemma {:induction false} AddNaturalNegativeWF(n: nat, m: nat)
    ensures AddDefined(FromNat(n), NEG(FromNat(m)))
    ensures WF(Add(FromNat(n), NEG(FromNat(m)))) <==> m > n
    ensures ToInt(Add(FromNat(n), NEG(FromNat(m)))) == n - m
  {
    AddNaturalNegative(n, m);
    FromNatIsNatural(n);
    FromNatIsNatural(m);
    var r := Add(FromNat(n), NEG(FromNat(m)));
    if m > n {
      FromNatIsNatural(m - n);
      assert r == NEG(FromNat(m - n));
    } else {
      SuccsOverNegZero(n - m);
      assert r == Succs(n - m, NEG(Z));
    }
  }

  lemma OnePlusMinusOne()
    ensures AddDefined(One, Negate(One)) && Add(One, Negate(One)) == NEG(Z)
    ensures !WF(Add(One, Negate(One)))
  {
  }

  /**
    The raw negation of a positive numeral n plus a positive numeral m. The
    sum is undefined exactly when m == n: then the NEG case of Add, which
    negates the recursive result, has to negate NEG(Z).
   */
  lemma {:induction false} AddNegativeNatural(n: nat, m: nat)
    requires n > 0 && m > 0
    ensures AddDefined(NEG(FromNat(n)), FromNat(m)) <==> m != n
    ensures m > n ==> Add(NEG(FromNat(n)), FromNat(m)) == FromNat(m - n)
    ensures m < n ==> Add(NEG(FromNat(n)), FromNat(m)) == NEG(Succs(n - m, NEG(Z)))
  {
    FromNatIsNatural(n);
    FromNatIsNatural(m);
    AddDefinedOnNatural(FromNat(n), NEG(FromNat(m)));
    AddNaturalNegative(n, m);
    if m > n {
      FromNatIsNatural(m - n);
    } else {
      SuccsOverNegZero(n - m);
    }
  }

  /**
    On well-formed values addition is undefined exactly for a negation plus
    its own magnitude: the case where the NEG case of Add, which negates
    the recursive result, meets NEG(Z).
   */
  lemma {:induction false} AddDefinedOnWF(a: P, b: P)
    requires WF(a) && WF(b)
    ensures AddDefined(a, b) <==> !(a.NEG? && b == a.mag)
    ensures AddDefined(a, b) <==> !(ToInt(a) < 0 && ToInt(a) + ToInt(b) == 0)
  {
    if IsNatural(a) {
      AddDefinedOnNatural(a, b);
    } else {
      var p := a.mag;
      AddDefinedOnNatural(p, Negate(b));
      if b.NEG? {
        AddNaturals(p, Negate(b));
      } else if b == Z {
        AddZeroRightNatural(p);
      } else {
        AddDefinedNegativePositive(a, b);
      }
    }
  }

  /** A well-formed negation plus a positive is undefined exactly for its own magnitude. */
  lemma {:induction false} AddDefinedNegativePositive(a: P, b: P)
    requires a.NEG? && WF(a) && IsPositive(b)
    ensures AddDefined(a, b) <==> b != a.mag
    ensures AddDefined(a, b) <==> ToInt(a) + ToInt(b) != 0
  {
    WellFormedIsNumeral(a);
    WellFormedIsNumeral(b);
    assert a == NEG(FromNat(ToInt(a.mag))) && b == FromNat(ToInt(b));
    AddNegativeNatural(ToInt(a.mag), ToInt(b));
    ToIntInjective(a.mag, b);
  }

  lemma MinusThreePlusThreeUndefined()
    ensures !AddDefined(Negate(Three), Three)
  {
  }

  /**
    On well-formed values the sum is well formed unless the signs differ
    and the sum stays on the left operand's side of zero, or reaches zero
    from a positive left operand: a positive plus a negation no larger than
    it, or a negation plus a smaller positive.
   */
  lemma {:induction false} AddWFIff(a: P, b: P)
    requires WF(a) && WF(b) && AddDefined(a, b)
    ensures WF(Add(a, b)) <==>
      !(ToInt(a) > 0 && ToInt(b) < 0 && ToInt(a) + ToInt(b) >= 0) &&
      !(ToInt(a) < 0 && ToInt(b) > 0 && ToInt(a) + ToInt(b) < 0)
  {
    if IsNatural(a) {
      AddWFLeftNatural(a, b);
    } else {
      AddWFLeftNegative(a, b);
    }
  }

  /** A natural plus the raw negation of a larger natural is a well-formed negation. */
  lemma {:induction false} CancelToNegative(a: P, c: P)
    requires IsNatural(a) && IsNatural(c) && ToInt(c) > ToInt(a)
    ensures AddDefined(a, NEG(c))
    ensures Add(a, NEG(c)).NEG? && IsPositive(Add(a, NEG(c)).mag)
  {
    match (a, c)
    case (Z, _) =>
    case (S(a'), S(c')) =>
      CancelToNegative(a', c');
      assert Add(a, NEG(c)) == Add(a', NEG(c'));
  }

  /**
    A natural plus the raw negation of a natural no larger than it: the
    difference in successors stacked on NEG(Z).
   */
  lemma {:induction false} CancelToNegZero(a: P, c: P)
    requires IsNatural(a) && IsNatural(c) && ToInt(c) <= ToInt(a)
    ensures AddDefined(a, NEG(c))
    ensures Add(a, NEG(c)) == Succs(ToInt(a) - ToInt(c), NEG(Z))
  {
    var k := ToInt(a) - ToInt(c);
    match (a, c)
    case (Z, Z) =>
    case (S(a'), S(c')) =>
      CancelToNegZero(a', c');
      assert k == ToInt(a') - ToInt(c');
      assert Add(a, NEG(c)) == Add(a', NEG(c'));
    case (S(a'), Z) =>
      CancelToNegZero(a', Z);
      assert k - 1 == ToInt(a') - ToInt(Z);
      assert Succs(k, NEG(Z)) == S(Succs(k - 1, NEG(Z)));
      assert Add(a, NEG(c)) == S(Add(a', NEG(Z)));
  }

  lemma {:induction false} AddWFLeftNatural(a: P, b: P)
    requires IsNatural(a) && WF(b)
    ensures AddDefined(a, b)
    ensures WF(Add(a, b)) <==> !(ToInt(b) < 0 && ToInt(a) + ToInt(b) >= 0)
  {
    AddDefinedOnNatural(a, b);
    if IsNatural(b) {
      AddNaturals(a, b);
    } else {
      if ToInt(b.mag) <= ToInt(a) {
        CancelToNegZero(a, b.mag);
        SuccsOverNegZero(ToInt(a) - ToInt(b.mag));
      } else {
        CancelToNegative(a, b.mag);
      }
    }
  }

  lemma {:induction false} AddWFLeftNegative(a: P, b: P)
    requires a.NEG? && WF(a) && WF(b) && AddDefined(a, b)
    ensures WF(Add(a, b)) <==> !(ToInt(b) > 0 && ToInt(a) + ToInt(b) < 0)
  {
    var p := a.mag;
    if b == Z {
      AddZeroRight(a);
    } else if b.NEG? {
      AddNaturals(p, b.mag);
      assert Add(a, b) == Negate(Add(p, b.mag));
    } else {
      var q := Add(p, NEG(b));
      assert Add(a, b) == Negate(q);
      if ToInt(b) <= ToInt(p) {
        CancelToNegZero(p, b);
        SuccsOverNegZero(ToInt(p) - ToInt(b));
        assert !IsNatural(q.pred);
        assert !WF(Add(a, b));
      } else {
        CancelToNegative(p, b);
        assert Add(a, b) == q.mag;
        assert WF(Add(a, b));
      }
    }
  }

  /** Well-formed sums agree whichever way round the operands are given. */
  lemma {:induction false} AddCommutesWhenWellFormed(a: P, b: P)
    requires WF(a) && WF(b) && AddDefined(a, b) && AddDefined(b, a)
    requires WF(Add(a, b)) && WF(Add(b, a))
    ensures Add(a, b) == Add(b, a)
  {
    ToIntInjective(Add(a, b), Add(b, a));
  }

  /** Structurally, addition does not commute. */
  lemma AddDoesNotCommute()
    ensures AddDefined(Two, Negate(One)) && AddDefined(Negate(One), Two)
    ensures Add(Two, Negate(One)) == S(NEG(Z))
    ensures Add(Negate(One), Two) == One
  {
  }

  lemma ThreePlusFour()
    ensures AddDefined(Three, Four) && Add(Three, Four) == Seven
  {
  }

  // ---------------------------------------------------------------------
  // Subtraction

  lemma SubtractIsAddNegate(a: P, b: P)
    requires SubtractDefined(a, b)
    ensures Subtract(a, b) == Add(a, Negate(b))
  {
  }

  /** On well-formed values only a negation minus itself is undefined. */
  lemma {:induction false} SubtractDefinedOnWF(a: P, b: P)
    requires WF(a) && WF(b)
    ensures SubtractDefined(a, b) <==> !(a.NEG? && a == b)
  {
    AddDefinedOnWF(a, Negate(b));
    NegateInvolutive(b);
  }

  lemma TwoMinusFive()
    ensures SubtractDefined(Two, Five) && Subtract(Two, Five) == Negate(Three)
  {
  }

  // ---------------------------------------------------------------------
  // Multiplication

  /** On well-formed values multiplication is defined and well formed. */
  lemma {:induction false} MultiplyWF(a: P, b: P)
    requires WF(a) && WF(b)
    ensures MulDefined(a, b) && WF(Multiply(a, b))
    decreases a, b
  {
    match (a, b)
    case (Z, _) =>
    case (S(_), NEG(b')) => MultiplyWF(a, b');
    case (S(a'), _) =>
      MultiplyWF(a', b);
      var c := Multiply(a', b);
      assert ToInt(c) >= 0 by {
        NonNegativeProduct(ToInt(a'), ToInt(b));
      }
      AddNaturals(b, c);
    case (NEG(a'), _) => MultiplyWF(a', b);
  }

  lemma NonNegativeProduct(x: int, y: int)
    requires x >= 0 && y >= 0
    ensures x * y >= 0
  {
  }

  /** Well-formed products do not depend on the order of the operands. */
  lemma {:induction false} MultiplyCommutes(a: P, b: P)
    requires WF(a) && WF(b)
    ensures MulDefined(a, b) && MulDefined(b, a)
    ensures Multiply(a, b) == Multiply(b, a)
  {
    MultiplyWF(a, b);
    MultiplyWF(b, a);
    ToIntInjective(Multiply(a, b), Multiply(b, a));
  }

  lemma {:induction false} MinusThreeTimesFour()
    ensures MulDefined(Negate(Three), Four)
    ensures ToInt(Multiply(Negate(Three), Four)) == -12
  {
    MultiplyWF(Negate(Three), Four);
  }
}

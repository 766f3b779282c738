/**
  The Peano integer algebra: zero, successor and negation as constructors,
  with negation, projection to an integer, equality, three-way comparison,
  addition, subtraction and multiplication, each defined by structural
  recursion in the order in which the most specialised case is chosen.

  The algebra is partial: negation has no case for NEG(Z) or NEG(NEG(_)),
  so every operation that negates carries a precondition describing exactly
  the inputs on which each negation it performs is defined.
 */
module Peano {

  /** A Peano integer: Z, a successor, or a negation. */
  datatype P = Z | S(pred: P) | NEG(mag: P)

  /** The outcome of a comparison, with its five boolean facets. */
  datatype Cmp = LESS | EQUAL | GREATER {
    /** Each facet, read off the outcome of comparing x with y, is the integer relation. */
    function Less(): (r: bool)
      ensures forall x: int, y: int :: Order(x, y) == this ==> (r <==> x < y)
    {
      this == LESS
    }

    function Leq(): (r: bool)
      ensures forall x: int, y: int :: Order(x, y) == this ==> (r <==> x <= y)
    {
      this == LESS || this == EQUAL
    }

    function Equal(): (r: bool)
      ensures forall x: int, y: int :: Order(x, y) == this ==> (r <==> x == y)
    {
      this == EQUAL
    }

    function Geq(): (r: bool)
      ensures forall x: int, y: int :: Order(x, y) == this ==> (r <==> x >= y)
    {
      this == GREATER || this == EQUAL
    }

    function Greater(): (r: bool)
      ensures forall x: int, y: int :: Order(x, y) == this ==> (r <==> x > y)
    {
      this == GREATER
    }
  }

  /** The integer a value denotes: Z is 0, S adds one, NEG negates. */
  function ToInt(v: P): int
  {
    match v
    case Z => 0
    case S(a) => 1 + ToInt(a)
    case NEG(a) => -ToInt(a)
  }

  /** Z, or S of a natural: the values whose IS_NATURAL member exists. */
  function IsNatural(v: P): (r: bool)
    ensures r ==> ToInt(v) >= 0
  {
    match v
    case Z => true
    case S(a) => IsNatural(a)
    case NEG(_) => false
  }

  /** S of a natural: the values whose IS_POSITIVE member exists. */
  function IsPositive(v: P): (r: bool)
    ensures r ==> IsNatural(v) && ToInt(v) > 0
  {
    v.S? && IsNatural(v.pred)
  }

  /** A well-formed value: a natural, or NEG of a positive. */
  function WF(v: P): (r: bool)
    ensures r ==> (ToInt(v) < 0 <==> v.NEG?)
  {
    IsNatural(v) || (v.NEG? && IsPositive(v.mag))
  }

  /** The shapes for which negation has a case. */
  predicate HasNegation(v: P)
  {
    v.Z? || v.S? || (v.NEG? && v.mag.S?)
  }

  /** Negation: Z stays Z, S(a) becomes NEG(S(a)), NEG(S(a)) becomes S(a). */
  function Negate(v: P): (r: P)
    requires HasNegation(v)
    ensures ToInt(r) == -ToInt(v)
    ensures HasNegation(r)
    ensures WF(v) ==> WF(r)
  {
    match v
    case Z => Z
    case S(a) => NEG(S(a))
    case NEG(S(a)) => S(a)
  }

  const Zero: P := Z
  const One: P := S(Zero)
  const Two: P := S(One)
  const Three: P := S(Two)
  const Four: P := S(Three)
  const Five: P := S(Four)
  const Six: P := S(Five)
  const Seven: P := S(Six)
  const Eight: P := S(Seven)
  const Nine: P := S(Eight)
  const Ten: P := S(Nine)

  /**
    Structural identity: the same value, constructor by constructor. On
    well-formed values it is equality of the integers denoted.
   */
  function Equal(a: P, b: P): (r: bool)
    ensures WF(a) && WF(b) ==> (r <==> ToInt(a) == ToInt(b))
  {
    ToIntInjective(a, b);
    a == b
  }

  /** The three-way order of two integers: the reference for Compare. */
  function Order(x: int, y: int): Cmp
  {
    if x < y then LESS else if x == y then EQUAL else GREATER
  }

  /** A measure that strictly decreases on every recursive comparison. */
  function Size(v: P): nat
  {
    match v
    case Z => 0
    case S(a) => 1 + Size(a)
    case NEG(a) => 1 + Size(a)
  }

  /**
    Three-way comparison. Two negations compare their magnitudes the other
    way round; that case is tried before the two cases with a single
    negation, which make a negation the smaller side.
   */
  function Compare(a: P, b: P): (r: Cmp)
    ensures WF(a) && WF(b) ==> r == Order(ToInt(a), ToInt(b))
    decreases Size(a) + Size(b)
  {
    match (a, b)
    case (NEG(a'), NEG(b')) => Compare(b', a')
    case (NEG(_), _) => LESS
    case (_, NEG(_)) => GREATER
    case (Z, Z) => EQUAL
    case (Z, S(_)) => LESS
    case (S(_), Z) => GREATER
    case (S(a'), S(b')) => Compare(a', b')
  }

  /** The relations read the facets of Compare; on well-formed values they are the integer order. */
  function Less(a: P, b: P): (r: bool)
    ensures WF(a) && WF(b) ==> (r <==> ToInt(a) < ToInt(b))
  {
    Compare(a, b).Less()
  }

  function Leq(a: P, b: P): (r: bool)
    ensures WF(a) && WF(b) ==> (r <==> ToInt(a) <= ToInt(b))
  {
    Compare(a, b).Leq()
  }

  function Greater(a: P, b: P): (r: bool)
    ensures WF(a) && WF(b) ==> (r <==> ToInt(a) > ToInt(b))
  {
    Compare(a, b).Greater()
  }

  function Geq(a: P, b: P): (r: bool)
    ensures WF(a) && WF(b) ==> (r <==> ToInt(a) >= ToInt(b))
  {
    Compare(a, b).Geq()
  }

  /**
    The inputs on which addition is defined: every negation the recursion
    of Add performs (the NEG case negates its right operand and its
    recursive result) is applied to a shape that has a negation.
   */
  predicate AddDefined(a: P, b: P)
    decreases a, 0
  {
    match (a, b)
    case (Z, _) => true
    case (S(a'), NEG(S(b'))) => AddDefined(a', NEG(b'))
    case (S(a'), _) => AddDefined(a', b)
    case (NEG(a'), _) =>
      HasNegation(b) && AddDefined(a', Negate(b)) && HasNegation(Add(a', Negate(b)))
  }

  /**
    Addition. A positive plus NEG(S(b')) takes one unit from each side and
    goes on with the raw NEG(b'), which is NEG(Z) once b' is Z; that case
    is tried before the generic successor case.
   */
  function Add(a: P, b: P): (r: P)
    requires AddDefined(a, b)
    ensures ToInt(r) == ToInt(a) + ToInt(b)
    decreases a, 1
  {
    match (a, b)
    case (Z, _) => b
    case (S(a'), NEG(S(b'))) => Add(a', NEG(b'))
    case (S(a'), _) => S(Add(a', b))
    case (NEG(a'), _) => Negate(Add(a', Negate(b)))
  }

  /** The inputs on which subtraction is defined. */
  predicate SubtractDefined(a: P, b: P)
  {
    HasNegation(b) && AddDefined(a, Negate(b))
  }

  /** Subtraction: addition of the negated right operand. */
  function Subtract(a: P, b: P): (r: P)
    requires SubtractDefined(a, b)
    ensures ToInt(r) == ToInt(a) - ToInt(b)
  {
    Add(a, Negate(b))
  }

  /**
    The inputs on which multiplication is defined: every addition and every
    negation the recursion of Multiply performs is defined.
   */
  predicate MulDefined(a: P, b: P)
    decreases a, b, 0
  {
    match (a, b)
    case (Z, _) => true
    case (S(_), NEG(b')) => MulDefined(a, b') && HasNegation(Multiply(a, b'))
    case (S(a'), _) => MulDefined(a', b) && AddDefined(b, Multiply(a', b))
    case (NEG(a'), _) => MulDefined(a', b) && HasNegation(Multiply(a', b))
  }

  /**
    Multiplication by repeated addition of the right operand. A positive
    times a negation multiplies by the magnitude and negates, tried before
    the generic successor case.
   */
  function Multiply(a: P, b: P): (r: P)
    requires MulDefined(a, b)
    ensures ToInt(r) == ToInt(a) * ToInt(b)
    decreases a, b, 1
  {
    match (a, b)
    case (Z, _) => Z
    case (S(_), NEG(b')) =>
      NegateFactor(ToInt(a), ToInt(b'));
      Negate(Multiply(a, b'))
    case (S(a'), _) =>
      SuccFactor(ToInt(a'), ToInt(b));
      Add(b, Multiply(a', b))
    case (NEG(a'), _) =>
      NegateFactor(ToInt(b), ToInt(a'));
      Negate(Multiply(a', b))
  }

  // ---------------------------------------------------------------------
  // Helpers for Equal and Multiply

  /** A well-formed value is determined by the integer it denotes. */
  lemma {:induction false} ToIntInjective(a: P, b: P)
    ensures WF(a) && WF(b) && ToInt(a) == ToInt(b) ==> a == b
  {
    match (a, b)
    case (S(a'), S(b')) => ToIntInjective(a', b');
    case (NEG(a'), NEG(b')) => ToIntInjective(a', b');
    case _ =>
  }

  /** Distributing a successor factor, for the successor case of Multiply. */
  lemma SuccFactor(x: int, y: int)
    ensures (1 + x) * y == y + x * y
  {
  }

  /** Moving a negation out of a product, for the negation cases of Multiply. */
  lemma NegateFactor(x: int, y: int)
    ensures x * -y == -(x * y) && -y * x == -(y * x)
  {
  }
}

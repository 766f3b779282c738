# Peano integers

A model of the Peano integer algebra of `code/include/Peano.h`. The header builds
integers from three constructors: `Z`, the successor `S<A>` and the negation
`NEG<A>`. Every operation is a template specialised on those shapes: negation,
projection to `int` (`toInt`), structural equality, three-way comparison with its
facets, addition, subtraction and multiplication. Here each template becomes a Dafny
function over the datatype `P = Z | S(pred) | NEG(mag)`. Overlapping
specialisations become an ordered `match`, with the most specialised case first.
The member typedefs `IS_NATURAL`/`IS_POSITIVE` become the predicates
`IsNatural`, `IsPositive` and `WF`.

The algebra is partial. `Negation` has specialisations only for `Z`, `S<A>` and
`NEG<S<A>>`. So `Negate` requires `HasNegation`, and `Add`, `Subtract` and
`Multiply` require `AddDefined`, `SubtractDefined` and `MulDefined`. Each of those
predicates follows its operation's recursion and asks that every negation the
operation performs be defined. This is the exact domain of the templates, not the
set of well-formed values.

Line 75 is modelled as written: it recurses on the raw `NEG<B>`, not on
`Negate<B>`. Because of that, cancelling addition can produce the ill-formed values
`NEG(Z)` and `S(...S(NEG(Z)))`. As a consequence, `Negate` is partial on the results
of `Add`, `Add(v, Negate(v))` is not `Z` for a positive `v`, and `Add` does not
commute structurally. The model proves that
- the integer meaning of `Add` holds everywhere it is defined;
- on well-formed operands, `(-n) + n` is the only undefined sum;
- `Add(One, Negate(One))` is `NEG(Z)`;
- addition does not commute structurally.

Modules: `Peano` (`peano.dfy`) holds the definitions and the contracts of the
operations, with the three lemmas those contracts need. `PeanoLaws`
(`peano_laws.dfy`) holds the laws, stated with the specification-only numerals
`FromNat(n)` and `Succs(k, v)`.

## Model

| member | source | states |
|---|---|---|
| Peano.IsNatural | code/include/Peano.h:10-14 | a natural (`Z` or `S` of a natural) denotes a non-negative integer |
| Peano.IsPositive | code/include/Peano.h:14 | `S` of a natural is a natural that denotes a positive integer |
| Peano.WF | code/include/Peano.h:17 | a well-formed value denotes a negative integer exactly when it is a `NEG` |
| Peano.Negate | code/include/Peano.h:18-22 | defined only on `Z`, `S(_)`, `NEG(S(_))`; negates the integer; result again has a negation; keeps well-formedness |
| PeanoLaws.NegateInvolutive | code/include/Peano.h:19-21 | negating twice gives back the value, on every shape negation accepts |
| PeanoLaws.NamedConstants | code/include/Peano.h:25-35 | `Zero`..`Ten` are the numerals 0..10; `Ten` is well formed and denotes 10 |
| PeanoLaws.FromNatIsNatural | code/include/Peano.h:41-42 | n successors of `Z` form a natural that denotes n, and is positive when n > 0 |
| Peano.ToIntInjective | code/include/Peano.h:38-46 | `toInt` is injective on well-formed values: two of them that denote the same integer are identical |
| PeanoLaws.NaturalIsNumeral | code/include/Peano.h:10-14 | every natural is the numeral of the integer it denotes |
| PeanoLaws.WellFormedIsNumeral | code/include/Peano.h:10-17 | every well-formed value is the numeral of its integer, or `NEG` of the numeral of its magnitude |
| Peano.Equal | code/include/Peano.h:49-51 | on well-formed values, structural `Equal` holds iff the integers are equal |
| PeanoLaws.EqualIsStructural | code/include/Peano.h:49-51 | `Add(One, Negate(One))` denotes 0 yet is not `Equal` to `Zero` |
| Peano.Compare | code/include/Peano.h:57-64 | on well-formed values the outcome is the integer order of the two projections |
| PeanoLaws.CompareAntisymmetric | code/include/Peano.h:58-64 | for all values, `LESS` one way iff `GREATER` the other, `EQUAL` both ways or neither |
| PeanoLaws.NegativeBelowNonNegative | code/include/Peano.h:62-63 | any `NEG` is `LESS` than any non-`NEG` value, which is `GREATER` than it |
| PeanoLaws.CompareEqualIffIdentical | code/include/Peano.h:58-64 | on well-formed values `Compare` is `EQUAL` iff the values are identical |
| PeanoLaws.CompareNegate | code/include/Peano.h:58-64 | on well-formed values `Compare(Negate(b), Negate(a)) == Compare(a, b)` |
| Peano.Cmp.Less | code/include/Peano.h:54-56 | the `less` facet of the outcome of comparing x with y is x < y |
| Peano.Cmp.Leq | code/include/Peano.h:54-56 | the `leq` facet of the outcome of comparing x with y is x <= y |
| Peano.Cmp.Equal | code/include/Peano.h:54-56 | the `equal` facet of the outcome of comparing x with y is x == y |
| Peano.Cmp.Geq | code/include/Peano.h:54-56 | the `geq` facet of the outcome of comparing x with y is x >= y |
| Peano.Cmp.Greater | code/include/Peano.h:54-56 | the `greater` facet of the outcome of comparing x with y is x > y |
| PeanoLaws.CmpFacets | code/include/Peano.h:54-56 | exactly one of less/equal/greater holds; `leq` is less or equal; `geq` is greater or equal |
| Peano.Less | code/include/Peano.h:65 | on well-formed values, `Less` is `<` on the integers |
| Peano.Leq | code/include/Peano.h:66 | on well-formed values, `Leq` is `<=` on the integers |
| Peano.Greater | code/include/Peano.h:67 | on well-formed values, `Greater` is `>` on the integers |
| Peano.Geq | code/include/Peano.h:68 | on well-formed values, `Geq` is `>=` on the integers |
| PeanoLaws.RelationsMatchIntOrder | code/include/Peano.h:65-68 | on well-formed values the four relations are the integer order, and exactly one of `Less`, `Equal`, `Greater` holds |
| PeanoLaws.CompareMinusTwoMinusFive | code/include/Peano.h:64 | `Compare(Negate(Two), Negate(Five))` is `GREATER`; `Negate(Ten)` is below `Zero` |
| Peano.Add | code/include/Peano.h:71-76 | wherever every negation it performs is defined, the sum denotes the sum of the integers |
| PeanoLaws.AddZeroLeft | code/include/Peano.h:72 | `Add(Z, b) == b` for every b |
| PeanoLaws.AddDefinedOnNatural | code/include/Peano.h:72-75 | with a natural left operand, addition is defined for every right operand |
| PeanoLaws.AddNaturals | code/include/Peano.h:72-73 | the sum of naturals is a natural denoting the sum |
| PeanoLaws.AddZeroRightNatural | code/include/Peano.h:72-73 | `Add(a, Z) == a` for natural a |
| PeanoLaws.AddZeroRight | code/include/Peano.h:72-74 | `Add(a, Z) == a` for well-formed a |
| PeanoLaws.AddNaturalNegative | code/include/Peano.h:72-75 | n plus `NEG` of the numeral m is `NEG` of the numeral m - n when m > n, otherwise n - m successors stacked on `NEG(Z)` |
| PeanoLaws.SuccsOverNegZero | code/include/Peano.h:14-17 | successors stacked on `NEG(Z)` are never well formed, and have a negation iff there is at least one |
| PeanoLaws.AddNaturalNegativeWF | code/include/Peano.h:72-75 | n + `NEG`(m) is well formed iff m > n, and always denotes n - m |
| PeanoLaws.AddNegativeNatural | code/include/Peano.h:72-75 | `NEG` of the positive numeral n plus the positive numeral m is undefined iff m == n; it is the numeral m - n when m > n, otherwise `NEG` of n - m successors stacked on `NEG(Z)` |
| PeanoLaws.OnePlusMinusOne | code/include/Peano.h:75 | `Add(One, Negate(One)) == NEG(Z)`, which is not well formed |
| PeanoLaws.AddDefinedOnWF | code/include/Peano.h:71-76 | for well-formed operands, the sum is undefined iff the left is a `NEG` and the right is its own magnitude, that is, iff the left is negative and the sum is 0 |
| PeanoLaws.AddDefinedNegativePositive | code/include/Peano.h:74 | a well-formed `NEG` plus a positive is undefined iff the positive is its own magnitude, that is, iff the sum is 0 |
| PeanoLaws.MinusThreePlusThreeUndefined | code/include/Peano.h:74 | `Add(Negate(Three), Three)` is undefined |
| PeanoLaws.AddWFIff | code/include/Peano.h:72-75 | a defined sum of well-formed operands is well formed unless the signs differ and the sum stays on the left operand's side of zero, or reaches zero from a positive left operand |
| PeanoLaws.CancelToNegative | code/include/Peano.h:72-75 | a natural plus the raw `NEG` of a larger natural is defined and is `NEG` of a positive |
| PeanoLaws.CancelToNegZero | code/include/Peano.h:72-75 | a natural plus the raw `NEG` of a natural no larger than it is defined and is the difference in successors stacked on `NEG(Z)` |
| PeanoLaws.AddWFLeftNatural | code/include/Peano.h:72-75 | a natural plus a well-formed value is defined, and well formed unless the right is a `NEG` no larger in magnitude than the left |
| PeanoLaws.AddWFLeftNegative | code/include/Peano.h:74 | a well-formed `NEG` plus a well-formed value, where defined, is well formed unless the right is positive and smaller than the left's magnitude |
| PeanoLaws.AddCommutesWhenWellFormed | code/include/Peano.h:71-76 | when both orders are defined and well formed, the two orders give the same value |
| PeanoLaws.AddDoesNotCommute | code/include/Peano.h:73-75 | `Add(Two, Negate(One)) == S(NEG(Z))` while `Add(Negate(One), Two) == One` |
| PeanoLaws.ThreePlusFour | code/include/Peano.h:72-73 | `Add(Three, Four) == Seven` |
| Peano.Subtract | code/include/Peano.h:79 | the difference denotes the difference of the integers |
| PeanoLaws.SubtractIsAddNegate | code/include/Peano.h:79 | `Subtract(a, b) == Add(a, Negate(b))` |
| PeanoLaws.SubtractDefinedOnWF | code/include/Peano.h:79 | for well-formed operands, subtraction is undefined exactly for a negative value minus itself |
| PeanoLaws.TwoMinusFive | code/include/Peano.h:79 | `Subtract(Two, Five) == Negate(Three)` |
| Peano.Multiply | code/include/Peano.h:82-87 | wherever every addition and negation it performs is defined, the product denotes the product of the integers |
| PeanoLaws.MultiplyWF | code/include/Peano.h:83-86 | on well-formed operands multiplication is always defined and well formed |
| PeanoLaws.MultiplyCommutes | code/include/Peano.h:82-87 | on well-formed operands `Multiply(a, b) == Multiply(b, a)` structurally |
| PeanoLaws.MinusThreeTimesFour | code/include/Peano.h:85 | `Multiply(Negate(Three), Four)` denotes -12 |

## Left out

- The value-level operators at lines 90-98 only forward to the type aliases. The Dafny functions `Add`, `Negate`, `Subtract`, `Multiply`, `Equal`, `Less`, `Leq`, `Greater` and `Geq` stand for both.
- A C++ compiler rejects `NEG<Z>` or `S<NEG<...>>` when the type is completed and its `IS_NATURAL`/`IS_POSITIVE` typedef is missing. That mechanism is not modelled. The model keeps such shapes as values, as line 75 can produce them, and judges them with `WF`.
- `std::true_type` and `std::false_type` are Dafny `bool`.
- `toInt` stores an `int`. The model uses unbounded integers, since the values are small unary numerals and cannot overflow in practice.
- Peano.Compare: the agreement with integer order is stated only for well-formed operands. The function itself is modelled on every value.
- Structural commutativity of `Add` and the structural additive inverse `Add(v, Negate(v)) == Z` are false for this code, because of line 75. The integer forms, and commutativity for well-formed results, are proved instead.
- Peano.ToInt: has no contract of its own, because it is the integer meaning in which every other contract is stated. Its properties are `ToIntInjective` and `FromNatIsNatural`.

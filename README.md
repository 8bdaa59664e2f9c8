# The `IsGroup` contract and `operate_with_self`

This project models the group abstraction of the `math` crate
(`math/src/cyclic_group.rs`). The model has three parts.

- The contract every group type must meet:
  - `neutral_element`, `operate_with` and `neg` are its primitives.
  - `is_neutral_element` is derived from them.
  - The algebraic laws implementors must satisfy are stated as predicates.
- The two builds of the derived exponentiation `operate_with_self`:
  - The default build is a variable-time double-and-add loop.
  - The `constant-time` feature swaps in a Montgomery ladder that runs once
    per bit of the exponent's type.

  Each build is proved to compute `g` operated with itself `exponent`
  times. From that, the two builds are proved to agree.
- One concrete instance: addition modulo 7. It is proved to meet the laws
  and both builds are proved to return 1 for `3` with exponent 5.

Files:

- `unsigned.dfy` (module `Unsigned`) covers the unsigned exponent types.
  A type is known by its `size_of` in bytes, and a value is a `nat` that
  fits in that many bytes' bits. `&`, `<<` and `>>` are defined
  arithmetically. The lemmas give their meaning:
  shifting right divides by a power of two, and masking with `1 << i`
  keeps bit `i`.
- `cyclic_group.dfy` (module `CyclicGroup`) covers the group contract, the
  reference power `Pow`, the double-and-add method and the ladder method.
  - `Pow(G, g, n)` is `((g ⊕ g) ⊕ …) ⊕ g` with `n` operands, and the
    neutral element when `n == 0`.
  - `LadderStep` is the specification of one ladder round: swap, operate,
    swap back.
  - `LadderState` is the state the ladder reaches after a run of bits.
- `additive_mod7.dfy` (module `AdditiveMod7`) covers the group of
  residues modulo 7.

A group is a value `Group(neutral, op, neg)`. The laws are:

- `Associative`;
- `NeutralIsIdentity`: the neutral element is a two-sided identity;
- `NegIsInverse`: `g ⊕ neg(g)` is neutral.

`IsMonoid` is the first two laws. `IsGroup` is all three. Both builds of
`operate_with_self` need only `IsMonoid`.

## Model

| member | source | states |
|---|---|---|
| CyclicGroup.NeutralElementIsUniqueIdentity | math/src/cyclic_group.rs:14-16 | In a monoid, `is_neutral_element(g)` holds exactly when `g ⊕ x == x` for every `x`. The equality test is therefore the same as "g is a left identity". |
| CyclicGroup.IdempotentIsNeutral | math/src/cyclic_group.rs:14-16 | In a group, `is_neutral_element(g)` holds exactly when `g ⊕ g == g`. |
| CyclicGroup.NegIsLeftInverse | math/src/cyclic_group.rs:54-59 | In a group, `neg(g) ⊕ g` is the neutral element. The contract promises only the right inverse `g ⊕ neg(g)`. |
| CyclicGroup.PowOne | math/src/cyclic_group.rs:22-34 | The reference power with exponent 1 is `g` itself. |
| CyclicGroup.PowAdd | math/src/cyclic_group.rs:22-34 | Exponents add: `g^(a+b) == g^a ⊕ g^b`. |
| CyclicGroup.PowCommutes | math/src/cyclic_group.rs:22-34 | `g ⊕ g^n == g^(n+1)`: powers of `g` commute with `g`. |
| CyclicGroup.PowOfDouble | math/src/cyclic_group.rs:31 | Squaring the base doubles the exponent: `(b ⊕ b)^q == b^(2q)`. |
| CyclicGroup.DoubleAndAddStep | math/src/cyclic_group.rs:26-32 | One loop round keeps `result ⊕ base^exponent` unchanged: on an odd exponent `base` is first folded into `result`, then the exponent is halved and `base` squared. |
| CyclicGroup.OperateWithSelf | math/src/cyclic_group.rs:22-34 | The double-and-add loop returns `g^exponent`, and the neutral element for exponent 0. It runs exactly `BitLength(exponent)` rounds, none for exponent 0. |
| CyclicGroup.ConditionalSwapInvolution | math/src/cyclic_group.rs:46-49 | `conditional_swap` exchanges the pair on choice 1 and leaves it alone on choice 0. Swapping twice with the same choice restores the pair. |
| CyclicGroup.LadderStepCases | math/src/cyclic_group.rs:46-49 | A ladder round on bit 0 gives `(r0 ⊕ r0, r0 ⊕ r1)`. On bit 1 it gives `(r1 ⊕ r0, r1 ⊕ r1)`. |
| CyclicGroup.LadderStepPreserves | math/src/cyclic_group.rs:46-49 | A round on `bit` takes the pair `(g^k, g^(k+1))` to `(g^(2k+bit), g^(2k+bit+1))`. |
| CyclicGroup.LadderRound | math/src/cyclic_group.rs:42-50 | The round on bit `i` of `e` takes `(g^(e>>(i+1)), g^((e>>(i+1))+1))` to `(g^(e>>i), g^((e>>i)+1))`. |
| CyclicGroup.LadderStateIsPow | math/src/cyclic_group.rs:37-50 | Start from `(neutral, g)` and process the bits of `e` from the top of an `n`-bit width down to bit `i`. The pair is then `(g^(e>>i), g^((e>>i)+1))`, provided `e` fits in `n` bits. |
| CyclicGroup.OperateWithSelfConstantTime | math/src/cyclic_group.rs:36-52 | For every exponent that fits a type of `size_of::<T>()` bytes, the ladder returns `g^exponent`. It runs exactly `size_of::<T>() * 8` rounds, one per bit position, whatever the exponent. |
| CyclicGroup.BothVariantsAgree | math/src/cyclic_group.rs:21-52 | Both builds of `operate_with_self` return the same element, `g^exponent`, for every exponent of the type. |
| Unsigned.ShrIsDiv | math/src/cyclic_group.rs:30 | `x >> i` is `x` divided by `2^i`, rounded down. |
| Unsigned.LowBit | math/src/cyclic_group.rs:27-30 | `x & 1 == 1` holds exactly when `x` is odd, and `x >> 1` is `x / 2`. |
| Unsigned.PrefixStep | math/src/cyclic_group.rs:42-44 | `x >> i == 2 * (x >> (i+1)) + bit i of x`: the ladder consumes the exponent one bit at a time from the top. |
| Unsigned.BitOfIsDivMod | math/src/cyclic_group.rs:44 | Bit `i` of `x` is `(x / 2^i) % 2`, so it is 0 or 1. |
| Unsigned.AndPow2 | math/src/cyclic_group.rs:43-44 | `x & 2^i` is `2^i` when bit `i` of `x` is set and 0 otherwise. |
| Unsigned.ExtractBit | math/src/cyclic_group.rs:43-44 | `((x & (1 << i)) >> i) == 1` is bit `i` of `x`, for every `i` below the width. `1 << i` does not overflow there. |
| Unsigned.BitLengthBelow | math/src/cyclic_group.rs:40-42 | A value has at most `n` significant bits exactly when it is below `2^n`. This is what fitting in `size_of::<T>() * 8` bits means. |
| Unsigned.ShrPastBitLength | math/src/cyclic_group.rs:40-42 | Shifting a value right by at least its bit length leaves 0. This is why the ladder's top positions contribute nothing. |
| AdditiveMod7.Z7IsGroup | math/src/cyclic_group.rs:8-11 | Addition modulo 7 with neutral element 0 and negation `(7 - a) mod 7` meets every law of the group contract. |
| AdditiveMod7.ThreeTimesFive | math/src/cyclic_group.rs:22-52 | On the residues modulo 7, `3.operate_with_self(5)` is 1 in both builds, the constant-time one with an exponent type of one byte, exponent 0 gives the neutral element 0, and `neg(3)` is 4. |

## Left out

- The constant-time build's side-channel guarantee is left out. `subtle`'s
  `conditional_swap` and its `Choice` type are modelled only by their
  values, the pair swapped or not. Timing is not expressible in this
  model.
- The `define_group_trait!` macro and the `constant-time` feature switch
  (lines 2-7 and 65-69) are left out. The two builds of
  `operate_with_self` are modelled as two separate methods rather than
  one method chosen at compile time.
- The trait bounds `Clone`, `PartialEq`, `Eq` and `ConditionallySelectable`
  are not modelled as such. Elements are values with Dafny equality, and
  `clone` is the value itself.
- Concrete implementations of `operate_with` and `neg` are left out: each
  group type supplies its own. They enter the model only as the fields of
  `Group` and through the laws. The one concrete group modelled is the
  residues modulo 7.
- The `IsUnsignedInteger` trait (in `unsigned_integer/traits.rs`) is not
  part of this model, and neither is the list of types that implement it.
  An exponent type is known only by its `size_of` in bytes, and an
  exponent is a `nat` bounded by that type's bit count. Only `&`, `<<`, `>>`, `from(0)` and `from(1)` are modelled, with
  their meaning on unsigned values.
- Rust panics on shifts by the width or more are not modelled. `Shl` and
  `ExtractBit` require a shift below the width. `Shr` is total and equals
  Rust's `>>` only for shifts below the width. Those are the only shifts
  the source makes: by 1 at line 30, and by `i < num_bits` at lines 43-44.
- The identity law is two-sided in the model: `NeutralIsIdentity` demands
  `e ⊕ g == g` and `g ⊕ e == g`. The doc comment on `neutral_element`
  (lines 8-10) states only `neutral_element().operate_with(g) == g`. The
  ladder relies on the right identity: at the exponent's first 1 bit it
  computes `g ⊕ neutral` and keeps it as `r0`.

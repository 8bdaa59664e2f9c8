/** The `IsGroup` contract and its derived operation `operate_with_self`
    (cyclic_group.rs). A concrete group is given by its neutral element,
    its operation and its inverse; the algebraic laws every implementor
    must satisfy are the predicates `IsMonoid` and `IsGroup`. */
module CyclicGroup {
  import opened Unsigned

  /** The three primitives a group type supplies: `neutral_element`,
      `operate_with` and `neg`. */
  datatype Group<!E> = Group(neutral: E, op: (E, E) -> E, neg: E -> E)

  ghost predicate Associative<E(!new)>(G: Group<E>) {
    forall a, b, c {:trigger G.op(G.op(a, b), c), G.op(a, G.op(b, c))} :: G.op(G.op(a, b), c) == G.op(a, G.op(b, c))
  }

  /** `neutral_element()` is a two-sided identity of `operate_with`. */
  ghost predicate NeutralIsIdentity<E(!new)>(G: Group<E>) {
    forall g :: G.op(G.neutral, g) == g && G.op(g, G.neutral) == g
  }

  /** `g.operate_with(g.neg())` is the neutral element. */
  ghost predicate NegIsInverse<E(!new)>(G: Group<E>) {
    forall g :: G.op(g, G.neg(g)) == G.neutral
  }

  /** The laws `operate_with_self` relies on. */
  ghost predicate IsMonoid<E(!new)>(G: Group<E>) {
    Associative(G) && NeutralIsIdentity(G)
  }

  /** The whole group contract. */
  ghost predicate IsGroup<E(!new)>(G: Group<E>) {
    IsMonoid(G) && NegIsInverse(G)
  }

  /** `is_neutral_element`: equality with `neutral_element()`. */
  function IsNeutralElement<E(==)>(G: Group<E>, g: E): bool
  {
    g == G.neutral
  }

  /** In a monoid the neutral element is the only left identity, so
      `is_neutral_element(g)` holds exactly when `g` acts as the identity. */
  lemma NeutralElementIsUniqueIdentity<E(!new)>(G: Group<E>, g: E)
    requires IsMonoid(G)
    ensures IsNeutralElement(G, g) <==> (forall x :: G.op(g, x) == x)
  {
    if forall x :: G.op(g, x) == x {
      assert G.op(g, G.neutral) == G.neutral;
    }
  }

  /** In a group, the only element equal to its own double is the neutral
      element. */
  lemma IdempotentIsNeutral<E(!new)>(G: Group<E>, g: E)
    requires IsGroup(G)
    ensures IsNeutralElement(G, g) <==> G.op(g, g) == g
  {
    if G.op(g, g) == g {
      calc {
        g;
        G.op(g, G.neutral);
        G.op(g, G.op(g, G.neg(g)));
        G.op(G.op(g, g), G.neg(g));
        G.op(g, G.neg(g));
        G.neutral;
      }
    }
  }

  /** `neg` is also a left inverse: `g.neg().operate_with(g)` is neutral. */
  lemma NegIsLeftInverse<E(!new)>(G: Group<E>, g: E)
    requires IsGroup(G)
    ensures IsNeutralElement(G, G.op(G.neg(g), g))
  {
    var h := G.op(G.neg(g), g);
    calc {
      G.op(h, h);
      G.op(G.neg(g), G.op(g, G.op(G.neg(g), g)));
      G.op(G.neg(g), G.op(G.op(g, G.neg(g)), g));
      G.op(G.neg(g), G.op(G.neutral, g));
      h;
    }
    IdempotentIsNeutral(G, h);
  }

  /** The reference meaning of `operate_with_self`: `g` operated with
      itself `n` times, `((g ⊕ g) ⊕ …) ⊕ g`, and the neutral element for
      `n == 0`. */
  ghost function Pow<E>(G: Group<E>, g: E, n: nat): E
  {
    if n == 0 then G.neutral else G.op(Pow(G, g, n - 1), g)
  }

  lemma PowOne<E(!new)>(G: Group<E>, g: E)
    requires IsMonoid(G)
    ensures Pow(G, g, 1) == g
  {
  }

  /** Exponents add: `g^(a+b) == g^a ⊕ g^b`. */
  lemma {:induction false} PowAdd<E(!new)>(G: Group<E>, g: E, a: nat, b: nat)
    requires IsMonoid(G)
    ensures Pow(G, g, a + b) == G.op(Pow(G, g, a), Pow(G, g, b))
  {
    if b > 0 {
      PowAdd(G, g, a, b - 1);
      assert Pow(G, g, a + b) == G.op(Pow(G, g, a + b - 1), g);
    }
  }

  /** Powers of `g` commute with `g`. */
  lemma PowCommutes<E(!new)>(G: Group<E>, g: E, n: nat)
    requires IsMonoid(G)
    ensures G.op(g, Pow(G, g, n)) == Pow(G, g, n + 1)
  {
    PowAdd(G, g, 1, n);
  }

  /** Doubling the base doubles the exponent: `(b ⊕ b)^q == b^(2q)`. */
  lemma {:induction false} PowOfDouble<E(!new)>(G: Group<E>, b: E, q: nat)
    requires IsMonoid(G)
    ensures Pow(G, G.op(b, b), q) == Pow(G, b, 2 * q)
  {
    if q > 0 {
      PowOfDouble(G, b, q - 1);
      assert Pow(G, b, 2 * q) == G.op(G.op(Pow(G, b, 2 * q - 2), b), b);
    }
  }

  /** One step of the double-and-add loop keeps
      `result ⊕ base^exponent` unchanged. */
  lemma DoubleAndAddStep<E(!new)>(G: Group<E>, result: E, base: E, e: nat)
    requires IsMonoid(G) && e > 0
    ensures G.op(result, Pow(G, base, e))
         == G.op(if e % 2 == 1 then G.op(result, base) else result,
                 Pow(G, G.op(base, base), e / 2))
  {
    PowOfDouble(G, base, e / 2);
    if e % 2 == 1 {
      PowAdd(G, base, 1, 2 * (e / 2));
    }
  }

  /** `operate_with_self`, variable-time build (cyclic_group.rs lines
      22-34): double-and-add over the exponent from its least significant
      bit. The ghost `iterations` counts the loop's rounds. */
  method OperateWithSelf<E(!new)>(G: Group<E>, g: E, exponent: nat)
    returns (r: E, ghost iterations: nat)
    requires IsMonoid(G)
    ensures r == Pow(G, g, exponent)
    ensures iterations == BitLength(exponent)
    ensures exponent == 0 ==> r == G.neutral && iterations == 0
  {
    var result := G.neutral;
    var base := g;
    var e := exponent;
    iterations := 0;
    while e != 0
      invariant G.op(result, Pow(G, base, e)) == Pow(G, g, exponent)
      invariant iterations + BitLength(e) == BitLength(exponent)
    {
      DoubleAndAddStep(G, result, base, e);
      LowBit(e);
      if And(e, 1) == 1 {
        result := G.op(result, base);
      }
      e := Shr(e, 1);
      base := G.op(base, base);
      iterations := iterations + 1;
    }
    r := result;
  }

  /** A 0/1 value, as `subtle::Choice` carries it. */
  type Bit = b: nat | b <= 1

  /** The functional content of `conditional_swap(a, b, choice)`: the pair
      is exchanged when `choice` is 1 and left alone when it is 0. */
  function ConditionalSwap<E>(a: E, b: E, choice: Bit): (E, E)
  {
    if choice == 1 then (b, a) else (a, b)
  }

  /** Swapping twice with the same choice restores the pair, which is what
      the ladder's swap-back relies on. */
  lemma ConditionalSwapInvolution<E>(a: E, b: E, choice: Bit)
    ensures var (x, y) := ConditionalSwap(a, b, choice);
            ConditionalSwap(x, y, choice) == (a, b)
    ensures choice == 0 ==> ConditionalSwap(a, b, choice) == (a, b)
    ensures choice == 1 ==> ConditionalSwap(a, b, choice) == (b, a)
  {
  }

  /** One round of the ladder body as written: swap, `r1 = r0 ⊕ r1`,
      `r0 = r0 ⊕ r0`, swap back. */
  function LadderStep<E>(G: Group<E>, r0: E, r1: E, bit: Bit): (E, E)
  {
    var (s0, s1) := ConditionalSwap(r0, r1, bit);
    var t1 := G.op(s0, s1);
    var t0 := G.op(s0, s0);
    ConditionalSwap(t0, t1, bit)
  }

  /** The swap/operate/swap-back round doubles `r0` on a 0 bit and `r1` on
      a 1 bit, and puts `r0 ⊕ r1` (in that order) in the other slot. */
  lemma LadderStepCases<E>(G: Group<E>, r0: E, r1: E, bit: Bit)
    ensures bit == 0 ==> LadderStep(G, r0, r1, bit) == (G.op(r0, r0), G.op(r0, r1))
    ensures bit == 1 ==> LadderStep(G, r0, r1, bit) == (G.op(r1, r0), G.op(r1, r1))
  {
  }

  /** One ladder round on bit `bit` takes the ladder state for prefix `k`
      to the ladder state for prefix `2k + bit`. */
  lemma LadderStepPreserves<E(!new)>(G: Group<E>, g: E, k: nat, bit: Bit)
    requires IsMonoid(G)
    ensures LadderStep(G, Pow(G, g, k), Pow(G, g, k + 1), bit)
         == (Pow(G, g, 2 * k + bit), Pow(G, g, 2 * k + bit + 1))
  {
    var p, p1 := Pow(G, g, k), Pow(G, g, k + 1);
    PowAdd(G, g, k, k);
    PowAdd(G, g, k, k + 1);
    PowAdd(G, g, k + 1, k + 1);
    PowCommutes(G, g, k);
    if bit == 1 {
      assert G.op(p1, p) == G.op(G.op(p, g), p);
      assert G.op(G.op(p, g), p) == G.op(p, G.op(g, p));
      assert G.op(p, G.op(g, p)) == G.op(p, p1);
    }
  }

  /** The ladder round on bit `i` of `e` takes the state for the bits of
      `e` above `i` to the state for the bits from `i` up. */
  lemma LadderRound<E(!new)>(G: Group<E>, g: E, e: nat, i: nat, r0: E, r1: E, bit: Bit)
    requires IsMonoid(G) && bit == BitOf(e, i)
    requires r0 == Pow(G, g, Shr(e, i + 1)) && r1 == Pow(G, g, Shr(e, i + 1) + 1)
    ensures LadderStep(G, r0, r1, bit) == (Pow(G, g, Shr(e, i)), Pow(G, g, Shr(e, i) + 1))
  {
    PrefixStep(e, i);
    LadderStepPreserves(G, g, Shr(e, i + 1), bit);
  }

  /** The ladder state `(r0, r1)` once the bits of `e` from `n - 1` down
      to `i` are processed, starting from `(neutral, g)` with nothing
      processed. */
  ghost function LadderState<E>(G: Group<E>, g: E, e: nat, n: nat, i: nat): (E, E)
    requires i <= n
    decreases n - i
  {
    if i == n then (G.neutral, g)
    else
      var (r0, r1) := LadderState(G, g, e, n, i + 1);
      LadderStep(G, r0, r1, BitOf(e, i))
  }

  /** The ladder invariant: after processing the bits of `e` from `i` up,
      `r0 == g^(e >> i)` and `r1 == r0 ⊕ g`. */
  lemma {:induction false} LadderStateIsPow<E(!new)>(G: Group<E>, g: E, e: nat, n: nat, i: nat)
    requires IsMonoid(G) && BitLength(e) <= n && i <= n
    ensures LadderState(G, g, e, n, i) == (Pow(G, g, Shr(e, i)), Pow(G, g, Shr(e, i) + 1))
    decreases n - i
  {
    if i == n {
      ShrPastBitLength(e, n);
    } else {
      LadderStateIsPow(G, g, e, n, i + 1);
      var (r0, r1) := LadderState(G, g, e, n, i + 1);
      LadderRound(G, g, e, i, r0, r1, BitOf(e, i));
    }
  }

  /** `operate_with_self`, constant-time build (cyclic_group.rs lines
      36-52), for an exponent type of `size` bytes: a Montgomery ladder over
      every bit position of the type, from the most significant down, one
      `LadderStep` per bit whatever the exponent's value. The ghost `rounds`
      counts the loop's rounds; after the round on bit `i` the pair is
      `LadderState` at `i`. */
  method OperateWithSelfConstantTime<E(!new)>(G: Group<E>, g: E, size: nat, exponent: nat)
    returns (r: E, ghost rounds: nat)
    requires IsMonoid(G) && InRange(size, exponent)
    ensures r == Pow(G, g, exponent)
    ensures rounds == NumBits(size)
  {
    var r0 := G.neutral;
    var r1 := g;
    var numBits := NumBits(size);
    LadderStateIsPow(G, g, exponent, numBits, 0);
    assert Shr(exponent, 0) == exponent;
    rounds := 0;
    for i := numBits downto 0
      invariant (r0, r1) == LadderState(G, g, exponent, numBits, i)
      invariant rounds == numBits - i
    {
      var bit: Bit := ExtractBit(size, exponent, i);
      var swapped := ConditionalSwap(r0, r1, bit);
      r0, r1 := swapped.0, swapped.1;
      r1 := G.op(r0, r1);
      r0 := G.op(r0, r0);
      swapped := ConditionalSwap(r0, r1, bit);
      r0, r1 := swapped.0, swapped.1;
      rounds := rounds + 1;
    }
    r := r0;
  }

  /** The two builds agree: for every exponent of a type of `size` bytes,
      the double-and-add and the ladder return the same element. */
  method BothVariantsAgree<E(!new)>(G: Group<E>, g: E, size: nat, exponent: nat)
    returns (fast: E, constantTime: E)
    requires IsMonoid(G) && InRange(size, exponent)
    ensures fast == constantTime == Pow(G, g, exponent)
  {
    ghost var iterations: nat, rounds: nat;
    fast, iterations := OperateWithSelf(G, g, exponent);
    constantTime, rounds := OperateWithSelfConstantTime(G, g, size, exponent);
  }
}

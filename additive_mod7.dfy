/** A concrete group satisfying the `IsGroup` contract: the integers
    modulo 7 under addition, with 0 as the neutral element. */
module AdditiveMod7 {
  import opened Unsigned
  import opened CyclicGroup

  type Z7 = x: int | 0 <= x < 7

  /** `(a + b) mod 7` for two residues. */
  function Add(a: Z7, b: Z7): Z7 {
    if a + b < 7 then a + b else a + b - 7
  }

  /** The residue that adds to `a` to give 0. */
  function Neg(a: Z7): Z7 {
    if a == 0 then 0 else 7 - a
  }

  function Z7Group(): Group<Z7> {
    Group(0, Add, Neg)
  }

  /** Addition modulo 7 meets every law of the group contract. */
  lemma Z7IsGroup()
    ensures IsGroup(Z7Group())
  {
    var G := Z7Group();
    forall a: Z7, b: Z7, c: Z7
      ensures G.op(G.op(a, b), c) == G.op(a, G.op(b, c))
    {
      assert G.op(G.op(a, b), c) == Add(Add(a, b), c);
      assert G.op(a, G.op(b, c)) == Add(a, Add(b, c));
    }
  }

  /** Both builds of `operate_with_self` on 3, with an exponent type of one
      byte for the constant-time build: exponent 5 gives
      3 + 3 + 3 + 3 + 3 = 15, which is 1 modulo 7, exponent 0 gives the
      neutral element 0, and the inverse of 3 is 4. */
  method ThreeTimesFive() returns (fast: Z7, constantTime: Z7, zero: Z7, inverse: Z7)
    ensures fast == 1 && constantTime == 1
    ensures zero == 0 && inverse == 4
  {
    var G := Z7Group();
    Z7IsGroup();
    ghost var iterations: nat, rounds: nat;
    assert BitLength(5) == 3 by {
      assert BitLength(1) == 1;
    }
    assert Pow(G, 3, 5) == 1 by {
      assert Pow(G, 3, 2) == 6;
      assert Pow(G, 3, 4) == 5;
    }
    fast, iterations := OperateWithSelf(G, 3, 5);
    constantTime, rounds := OperateWithSelfConstantTime(G, 3, 1, 5);
    zero, iterations := OperateWithSelf(G, 3, 0);
    inverse := G.neg(3);
  }
}

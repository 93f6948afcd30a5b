/** examples/new_npn.cpp: the projections on four variables, the two functions
    built from them, and their exact NPN canonization. */
module NewNpn {
  import opened Binary
  import opened TruthTables
  import opened Npn
  import opened SelfDual

  /** Projection on variable v of four: a, b, c, d are ProjectionOf(0) .. ProjectionOf(3). */
  function ProjectionOf(v: nat): (t: TruthTable)
    requires v < 4
    ensures t.Valid() && t.numVars == 4
  {
    NthVar(4, v)
  }

  /** binary_and(a ^ b, c ^ d) */
  function Sum(): (t: TruthTable)
    ensures t.Valid() && t.numVars == 4
  {
    And(Xor(ProjectionOf(0), ProjectionOf(1)), Xor(ProjectionOf(2), ProjectionOf(3)))
  }

  /** ternary_majority(a, b, c) */
  function Carry(): (t: TruthTable)
    ensures t.Valid() && t.numVars == 4
  {
    Majority(ProjectionOf(0), ProjectionOf(1), ProjectionOf(2))
  }

  /** On input x, sum is (x0 xor x1) and (x2 xor x3). */
  lemma SumAt(x: seq<bool>)
    requires |x| == 4
    ensures Sum().bits[Value(x)] == ((x[0] != x[1]) && (x[2] != x[3]))
  {
    NthVarAt(4, 0, x);
    NthVarAt(4, 1, x);
    NthVarAt(4, 2, x);
    NthVarAt(4, 3, x);
  }

  /** On input x, carry is the majority of x0, x1 and x2. */
  lemma CarryAt(x: seq<bool>)
    requires |x| == 4
    ensures Carry().bits[Value(x)] == Majority3(x[0], x[1], x[2])
  {
    NthVarAt(4, 0, x);
    NthVarAt(4, 1, x);
    NthVarAt(4, 2, x);
  }

  /** sum is not the sum bit of an adder over the four inputs: on input
      1, 0, 0, 0 the parity is 1 but sum is 0. */
  lemma SumIsNotParity()
    ensures exists x: seq<bool> :: |x| == 4 && Sum().bits[Value(x)] != (((x[0] != x[1]) != x[2]) != x[3])
  {
    var x := [true, false, false, false];
    SumAt(x);
  }

  /** carry does not depend on variable 3: row i and row i + 8 agree. */
  lemma CarryIgnoresVar3(i: nat)
    requires i < 8
    ensures Carry().bits[i] == Carry().bits[i + 8]
  {
    assert Pow2(3) == 8;
    BitShift(i, 3, 0);
    BitShift(i, 3, 1);
    BitShift(i, 3, 2);
  }

  /** The majority of three of four entries is unchanged when a permutation
      fixing entry 3 reorders the other three. */
  lemma MajorityPermuted(x: seq<bool>, p: seq<nat>)
    requires |x| == 4 && IsPerm(p, 4) && p[3] == 3
    ensures Majority3(x[p[0]], x[p[1]], x[p[2]]) == Majority3(x[0], x[1], x[2])
  {
    assert p[0] != 3 && p[1] != 3 && p[2] != 3;
  }

  /** carry is symmetric in a, b and c: permuting them leaves it unchanged. */
  lemma CarryPermutationInvariant(g: Transform)
    requires IsTransform(g, 4) && g.perm[3] == 3
    requires g.neg == [false, false, false, false] && !g.outNeg
    ensures Apply(Carry(), g) == Carry()
  {
    forall j | 0 <= j < Pow2(4) ensures Apply(Carry(), g).bits[j] == Carry().bits[j] {
      var x := FromNat(4, j);
      ValueFromNat(4, j);
      ApplyAt(Carry(), g, x);
      CarryAt(Move(g, x));
      CarryAt(x);
      MajorityPermuted(x, g.perm);
    }
  }

  /** Majority is self-dual. */
  lemma CarryIsSelfDual()
    ensures IsSelfDual(Carry())
  {
    forall j | 0 <= j < Pow2(4) ensures Dual(Carry()).bits[j] == Carry().bits[j] {
      var x := FromNat(4, j);
      ValueFromNat(4, j);
      DualAt(Carry(), x);
      CarryAt(x);
      CarryAt(Complement(x));
    }
  }

  /** sum is not self-dual: it is 0 on input 0, 0, 0, 0 and on input 1, 1, 1, 1. */
  lemma SumIsNotSelfDual()
    ensures !IsSelfDual(Sum())
  {
    var x := [false, false, false, false];
    DualAt(Sum(), x);
    SumAt(x);
    assert Complement(x) == [true, true, true, true];
    SumAt(Complement(x));
  }

  /** The two canonizations of the example: each result is the exact NPN
      canonization of its input, hence NPN-equivalent to it; the canonical
      form of carry is self-dual and that of sum is not. */
  method CanonizeExamples() returns (outputTt: Canonization, outputTtt: Canonization)
    ensures outputTt == ExactNpnCanonization(Carry()) && outputTtt == ExactNpnCanonization(Sum())
    ensures outputTt.rep.numVars == 4 && NpnEquivalent(Carry(), outputTt.rep)
    ensures outputTtt.rep.numVars == 4 && NpnEquivalent(Sum(), outputTtt.rep)
    ensures IsSelfDual(outputTt.rep) && !IsSelfDual(outputTtt.rep)
  {
    var sum := Sum();
    var carry := Carry();
    outputTt := ExactNpnCanonization(carry);
    outputTtt := ExactNpnCanonization(sum);
    CarryIsSelfDual();
    CanonizationKeepsSelfDual(carry);
    SumIsNotSelfDual();
    CanonizationKeepsSelfDual(sum);
  }
}

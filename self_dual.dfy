/** Duals, self-duality and the lift of an arbitrary function to a self-dual
    one of one more variable (dual_of, extend_tt and the expression built from
    them in examples/sd.cpp and examples/sd2.cpp). */
module SelfDual {
  import opened Binary
  import opened TruthTables
  import opened Npn

  /** The dual of t: on input x it is the complement of t on the complemented input. */
  function Dual(t: TruthTable): (d: TruthTable)
    requires t.Valid()
    ensures d.Valid() && d.numVars == t.numVars
  {
    TruthTable(t.numVars, seq(|t.bits|, j requires 0 <= j < |t.bits| => !t.bits[|t.bits| - 1 - j]))
  }

  /** is_selfdual */
  predicate IsSelfDual(t: TruthTable)
    requires t.Valid()
  {
    t == Dual(t)
  }

  /** The first k entries of x negated. */
  function NegatePrefix(x: seq<bool>, k: nat): (y: seq<bool>)
    ensures |y| == |x|
  {
    seq(|x|, i requires 0 <= i < |x| => if i < k then !x[i] else x[i])
  }

  /** t with its first k input variables negated: bit j is t on row j with entries 0 .. k-1 negated. */
  predicate FlippedBelow(u: TruthTable, t: TruthTable, k: nat)
    requires u.Valid() && t.Valid() && u.numVars == t.numVars
  {
    forall j :: 0 <= j < |u.bits| ==> u.bits[j] == t.bits[Value(NegatePrefix(FromNat(t.numVars, j), k))]
  }

  lemma FlippedBelowZero(t: TruthTable)
    requires t.Valid()
    ensures FlippedBelow(t, t, 0)
  {
    forall j | 0 <= j < |t.bits| ensures t.bits[j] == t.bits[Value(NegatePrefix(FromNat(t.numVars, j), 0))] {
      assert NegatePrefix(FromNat(t.numVars, j), 0) == FromNat(t.numVars, j);
      ValueFromNat(t.numVars, j);
    }
  }

  lemma FlipStep(u: TruthTable, t: TruthTable, k: nat)
    requires u.Valid() && t.Valid() && u.numVars == t.numVars && k < t.numVars
    requires FlippedBelow(u, t, k)
    ensures FlippedBelow(Flip(u, k), t, k + 1)
  {
    var n := t.numVars;
    forall j | 0 <= j < |u.bits|
      ensures Flip(u, k).bits[j] == t.bits[Value(NegatePrefix(FromNat(n, j), k + 1))]
    {
      var x := FromNat(n, j);
      var y := Toggle(x, k);
      assert Flip(u, k).bits[j] == u.bits[Value(y)];
      FromNatValue(y);
      NegatePrefixToggle(x, k);
    }
  }

  /** Negating entry k and then entries below k negates entries up to k. */
  lemma NegatePrefixToggle(x: seq<bool>, k: nat)
    requires k < |x|
    ensures NegatePrefix(Toggle(x, k), k) == NegatePrefix(x, k + 1)
  {
    forall i | 0 <= i < |x| ensures NegatePrefix(Toggle(x, k), k)[i] == NegatePrefix(x, k + 1)[i] {
    }
  }

  lemma FlippedAllIsDual(u: TruthTable, t: TruthTable)
    requires u.Valid() && t.Valid() && u.numVars == t.numVars
    requires FlippedBelow(u, t, t.numVars)
    ensures Not(u) == Dual(t)
  {
    var n := t.numVars;
    forall j | 0 <= j < |t.bits| ensures Not(u).bits[j] == Dual(t).bits[j] {
      var x := FromNat(n, j);
      assert NegatePrefix(x, n) == Complement(x);
      FromNatComplement(n, j);
      ValueFromNat(n, Pow2(n) - 1 - j);
    }
  }

  /** dual_of: flip variables 0 .. n-1 one at a time, then complement. */
  method DualOf(t: TruthTable) returns (d: TruthTable)
    requires t.Valid()
    ensures d == Dual(t)
  {
    var numvars := t.numVars;
    var tt1 := t;
    FlippedBelowZero(t);
    for i := 0 to numvars
      invariant tt1.Valid() && tt1.numVars == numvars
      invariant FlippedBelow(tt1, t, i)
    {
      FlipStep(tt1, t, i);
      tt1 := Flip(tt1, i);
    }
    FlippedAllIsDual(tt1, t);
    d := Not(tt1);
  }

  lemma DualInvolution(t: TruthTable)
    requires t.Valid()
    ensures Dual(Dual(t)) == t
  {
    assert Dual(Dual(t)).bits == t.bits;
  }

  /** On input x the dual is the complement of t on the complement of x. */
  lemma DualAt(t: TruthTable, x: seq<bool>)
    requires t.Valid() && |x| == t.numVars
    ensures Dual(t).bits[Value(x)] == !t.bits[Value(Complement(x))]
  {
    ValueComplement(x);
  }

  /** Complementing every input commutes with every NPN transform. */
  lemma MoveComplement(g: Transform, x: seq<bool>)
    requires IsTransform(g, |x|)
    ensures Move(g, Complement(x)) == Complement(Move(g, x))
  {
  }

  /** Taking the dual commutes with every NPN transform. */
  lemma DualApply(t: TruthTable, g: Transform)
    requires t.Valid() && IsTransform(g, t.numVars)
    ensures Dual(Apply(t, g)) == Apply(Dual(t), g)
  {
    var n := t.numVars;
    forall j | 0 <= j < |t.bits| ensures Dual(Apply(t, g)).bits[j] == Apply(Dual(t), g).bits[j] {
      ValueFromNat(n, j);
      DualApplyAt(t, g, FromNat(n, j));
    }
  }

  lemma DualApplyAt(t: TruthTable, g: Transform, x: seq<bool>)
    requires t.Valid() && |x| == t.numVars && IsTransform(g, t.numVars)
    ensures Dual(Apply(t, g)).bits[Value(x)] == Apply(Dual(t), g).bits[Value(x)]
  {
    var y := Move(g, x);
    DualAt(Apply(t, g), x);
    ApplyAt(t, g, Complement(x));
    MoveComplement(g, x);
    ApplyAt(Dual(t), g, x);
    DualAt(t, y);
  }

  /** NPN transforms keep self-duality, in both directions. */
  lemma SelfDualPreserved(t: TruthTable, g: Transform)
    requires t.Valid() && IsTransform(g, t.numVars)
    ensures IsSelfDual(Apply(t, g)) <==> IsSelfDual(t)
  {
    DualApply(t, g);
    if IsSelfDual(Apply(t, g)) {
      ApplyInverse(t, g);
      DualApply(Apply(t, g), Inverse(g));
    }
  }

  /** The NPN representative is self-dual exactly when its input is. */
  lemma CanonizationKeepsSelfDual(t: TruthTable)
    requires t.Valid()
    ensures IsSelfDual(ExactNpnCanonization(t).rep) <==> IsSelfDual(t)
  {
    SelfDualPreserved(t, ExactNpnCanonization(t).transform);
  }

  /** The table extend_tt builds: numVars + 1 variables, bit i read from tt at i mod |tt|. */
  function Extend(tt: TruthTable, numVars: nat): (e: TruthTable)
    requires tt.Valid()
    ensures e.Valid() && e.numVars == numVars + 1
  {
    TruthTable(numVars + 1, seq(Pow2(numVars + 1), i requires 0 <= i => tt.bits[i % |tt.bits|]))
  }

  /** extend_tt: set the bits of a fresh (numVars + 1)-variable table one at a time. */
  method ExtendTt(tt: TruthTable, numVars: nat) returns (extended: TruthTable)
    requires tt.Valid()
    ensures extended == Extend(tt, numVars)
  {
    extended := Create(numVars + 1);
    var i := 0;
    while i < extended.NumBits()
      invariant extended.Valid() && extended.numVars == numVars + 1
      invariant 0 <= i <= |extended.bits|
      invariant forall k :: 0 <= k < i ==> extended.bits[k] == tt.bits[k % |tt.bits|]
      invariant forall k :: i <= k < |extended.bits| ==> !extended.bits[k]
    {
      if GetBit(tt, i % tt.NumBits()) {
        extended := SetBit(extended, i);
      }
      i := i + 1;
    }
  }

  /** Extending an n-variable table to n + 1 variables copies it into both halves,
      so the result does not depend on the new variable. */
  lemma ExtendHalves(tt: TruthTable)
    requires tt.Valid()
    ensures Extend(tt, tt.numVars).bits == tt.bits + tt.bits
  {
    var e, p := Extend(tt, tt.numVars), |tt.bits|;
    forall i | 0 <= i < 2 * p ensures e.bits[i] == (tt.bits + tt.bits)[i] {
      if i < p {
        ModOfSmall(i, p);
      } else {
        ModOfSmall(i - p, p);
      }
    }
  }

  /** (extended & a) | (~a & dual_of(extended)), with a the new top variable. */
  function Lift(t: TruthTable): (g: TruthTable)
    requires t.Valid()
    ensures g.Valid() && g.numVars == t.numVars + 1
  {
    var n := t.numVars;
    var extended := Extend(t, n);
    var a := NthVar(n + 1, n);
    Or(And(extended, a), And(Not(a), Dual(extended)))
  }

  /** The lift as the enumerators compute it: extend_tt, dual_of, then the
      bitwise expression with the projection on the new variable. */
  method LiftOf(tt: TruthTable) returns (newTt: TruthTable)
    requires tt.Valid()
    ensures newTt == Lift(tt)
  {
    var numVars := tt.numVars;
    var a := NthVar(numVars + 1, numVars);
    var extendedTt := ExtendTt(tt, numVars);
    var dual := DualOf(extendedTt);
    newTt := Or(And(extendedTt, a), And(Not(a), dual));
  }

  /** The lift is the dual of t where the new variable is 0 and t itself where it is 1. */
  lemma LiftHalves(t: TruthTable)
    requires t.Valid()
    ensures Lift(t).bits == Dual(t).bits + t.bits
  {
    var n, p := t.numVars, |t.bits|;
    var extended := Extend(t, n);
    ExtendHalves(t);
    forall j | 0 <= j < 2 * p ensures Lift(t).bits[j] == (Dual(t).bits + t.bits)[j] {
      BitTop(j, n);
    }
  }

  /** The lift is self-dual for every t, self-dual or not. */
  lemma LiftIsSelfDual(t: TruthTable)
    requires t.Valid()
    ensures IsSelfDual(Lift(t))
  {
    LiftHalves(t);
    var l, p := Lift(t), |t.bits|;
    forall j | 0 <= j < 2 * p ensures Dual(l).bits[j] == l.bits[j] {
      var m := 2 * p - 1 - j;
      assert Dual(l).bits[j] == !l.bits[m];
      if j < p {
        assert l.bits[m] == t.bits[p - 1 - j];
      } else {
        assert l.bits[m] == !t.bits[j - p];
      }
    }
  }
}

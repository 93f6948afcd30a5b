/** Truth tables and the primitives of the truth-table library that the
    examples call: bit access, bitwise operators, projection variables,
    variable flips, and the counter step used to walk all functions.
    A table of n variables holds 2^n output bits; bit j is the output on the
    input assignment FromNat(n, j). The word layout and padding of the library
    are not modelled: the bits are a plain sequence. */
module TruthTables {
  import opened Binary

  datatype TruthTable = TruthTable(numVars: nat, bits: seq<bool>)
  {
    /** Exactly 2^numVars output bits. */
    predicate Valid()
    {
      |bits| == Pow2(numVars)
    }

    function NumBits(): nat
    {
      |bits|
    }
  }

  /** Number of distinct tables of n variables: 2^(2^n). */
  function Count(n: nat): nat
  {
    Pow2(Pow2(n))
  }

  /** A fresh table of n variables: the constant-0 function. */
  function Create(n: nat): (t: TruthTable)
    ensures t.Valid() && t.numVars == n
    ensures forall j :: 0 <= j < |t.bits| ==> !t.bits[j]
  {
    TruthTable(n, seq(Pow2(n), j => false))
  }

  function GetBit(t: TruthTable, j: nat): bool
    requires j < |t.bits|
  {
    t.bits[j]
  }

  function SetBit(t: TruthTable, j: nat): (r: TruthTable)
    requires j < |t.bits|
    ensures r.numVars == t.numVars && r.bits == t.bits[j := true]
  {
    TruthTable(t.numVars, t.bits[j := true])
  }

  /** The operator ~: every output bit complemented. */
  function Not(t: TruthTable): (r: TruthTable)
    requires t.Valid()
    ensures r.Valid() && r.numVars == t.numVars
  {
    TruthTable(t.numVars, Complement(t.bits))
  }

  /** binary_and; operands of different widths are a caller error. */
  function And(a: TruthTable, b: TruthTable): (r: TruthTable)
    requires a.Valid() && b.Valid() && a.numVars == b.numVars
    ensures r.Valid() && r.numVars == a.numVars
  {
    TruthTable(a.numVars, seq(|a.bits|, j requires 0 <= j < |a.bits| => a.bits[j] && b.bits[j]))
  }

  /** binary_or */
  function Or(a: TruthTable, b: TruthTable): (r: TruthTable)
    requires a.Valid() && b.Valid() && a.numVars == b.numVars
    ensures r.Valid() && r.numVars == a.numVars
  {
    TruthTable(a.numVars, seq(|a.bits|, j requires 0 <= j < |a.bits| => a.bits[j] || b.bits[j]))
  }

  /** The operator ^ */
  function Xor(a: TruthTable, b: TruthTable): (r: TruthTable)
    requires a.Valid() && b.Valid() && a.numVars == b.numVars
    ensures r.Valid() && r.numVars == a.numVars
  {
    TruthTable(a.numVars, seq(|a.bits|, j requires 0 <= j < |a.bits| => a.bits[j] != b.bits[j]))
  }

  predicate Majority3(x: bool, y: bool, z: bool)
  {
    (x && y) || (x && z) || (y && z)
  }

  /** ternary_majority: bitwise majority of three tables. */
  function Majority(a: TruthTable, b: TruthTable, c: TruthTable): (r: TruthTable)
    requires a.Valid() && b.Valid() && c.Valid()
    requires a.numVars == b.numVars == c.numVars
    ensures r.Valid() && r.numVars == a.numVars
  {
    TruthTable(a.numVars, seq(|a.bits|, j requires 0 <= j < |a.bits| => Majority3(a.bits[j], b.bits[j], c.bits[j])))
  }

  /** create_nth_var on a table of n variables: the projection onto variable v. */
  function NthVar(n: nat, v: nat): (t: TruthTable)
    requires v < n
    ensures t.Valid() && t.numVars == n
  {
    TruthTable(n, seq(Pow2(n), j requires 0 <= j => Bit(j, v)))
  }

  /** flip(t, v): the function with input variable v negated. */
  function Flip(t: TruthTable, v: nat): (r: TruthTable)
    requires t.Valid() && v < t.numVars
    ensures r.Valid() && r.numVars == t.numVars
  {
    TruthTable(t.numVars, seq(|t.bits|, j requires 0 <= j < |t.bits| => t.bits[Value(Toggle(FromNat(t.numVars, j), v))]))
  }

  /** next_inplace: the table read as a 2^n-bit counter, plus one. */
  function Next(t: TruthTable): (r: TruthTable)
    requires t.Valid()
    ensures r.Valid() && r.numVars == t.numVars
  {
    TruthTable(t.numVars, Increment(t.bits))
  }

  /** is_const0 */
  predicate IsConst0(t: TruthTable)
  {
    forall j :: 0 <= j < |t.bits| ==> !t.bits[j]
  }

  /** The table of n variables whose counter value is k. */
  function Table(n: nat, k: nat): (t: TruthTable)
    ensures t.Valid() && t.numVars == n
  {
    TruthTable(n, FromNat(Pow2(n), k))
  }

  /** On input assignment x the projection onto variable v is x[v]. */
  lemma NthVarAt(n: nat, v: nat, x: seq<bool>)
    requires v < n && |x| == n
    ensures NthVar(n, v).bits[Value(x)] == x[v]
  {
    BitOfValue(x, v);
  }

  /** flip(t, v) reads bit j of t at j xor 2^v. */
  lemma FlipIsXor(t: TruthTable, v: nat, j: nat)
    requires t.Valid() && v < t.numVars && j < |t.bits|
    ensures var i := if Bit(j, v) then j - Pow2(v) else j + Pow2(v);
      0 <= i < |t.bits| && Flip(t, v).bits[j] == t.bits[i]
  {
    var n := t.numVars;
    var i := Value(Toggle(FromNat(n, j), v));
    ToggleIsXor(n, j, v);
    assert i < |t.bits|;
    assert Flip(t, v).bits[j] == t.bits[i];
  }

  /** The counter value of a table identifies it among the tables of its width. */
  lemma TableOfValue(t: TruthTable)
    requires t.Valid()
    ensures Value(t.bits) < Count(t.numVars) && Table(t.numVars, Value(t.bits)) == t
  {
    FromNatValue(t.bits);
  }

  lemma TableInjective(n: nat, k: nat, m: nat)
    requires k < Count(n) && m < Count(n) && Table(n, k) == Table(n, m)
    ensures k == m
  {
    ValueFromNat(Pow2(n), k);
    ValueFromNat(Pow2(n), m);
  }

  /** The enumeration starts at the all-zero table, which is counter value 0. */
  lemma CreateIsTableZero(n: nat)
    ensures Create(n) == Table(n, 0)
  {
    forall i | 0 <= i < Pow2(n) ensures !Table(n, 0).bits[i] {
      BitZero(i);
    }
  }

  /** next_inplace adds one modulo 2^(2^n). */
  lemma NextStep(n: nat, k: nat)
    requires k < Count(n)
    ensures Next(Table(n, k)) == Table(n, (k + 1) % Count(n))
  {
    var s := FromNat(Pow2(n), k);
    IncrementValue(s);
    ValueFromNat(Pow2(n), k);
    FromNatValue(Increment(s));
  }

  /** is_const0 holds exactly at counter value 0. */
  lemma Const0Iff(n: nat, k: nat)
    requires k < Count(n)
    ensures IsConst0(Table(n, k)) <==> k == 0
  {
    CreateIsTableZero(n);
    if IsConst0(Table(n, k)) {
      assert Table(n, k) == Create(n);
      TableInjective(n, k, 0);
    }
  }
}

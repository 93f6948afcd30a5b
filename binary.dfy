/** Binary expansions of natural numbers.

    A truth table over n variables has 2^n rows; row j is the input assignment
    whose variable k has the value of bit k of j. The same little-endian reading
    turns the 2^n output bits of a table into one 2^n-bit counter, which is how
    the enumerators step through all functions. */
module Binary {

  function Pow2(k: nat): (r: nat)
    ensures r >= 1
  {
    if k == 0 then 1 else 2 * Pow2(k - 1)
  }

  /** Bit k of the binary expansion of j. */
  function Bit(j: nat, k: nat): bool
  {
    if k == 0 then j % 2 == 1 else Bit(j / 2, k - 1)
  }

  /** The number whose binary expansion is s, least significant bit first. */
  function Value(s: seq<bool>): (r: nat)
    ensures r < Pow2(|s|)
  {
    if s == [] then 0 else (if s[0] then 1 else 0) + 2 * Value(s[1..])
  }

  /** The len lowest bits of k, least significant first. */
  function FromNat(len: nat, k: nat): (s: seq<bool>)
    ensures |s| == len
    ensures forall i :: 0 <= i < len ==> s[i] == Bit(k, i)
  {
    if len == 0 then [] else [k % 2 == 1] + FromNat(len - 1, k / 2)
  }

  /** Every entry negated. */
  function Complement(s: seq<bool>): (c: seq<bool>)
    ensures |c| == |s|
  {
    seq(|s|, i requires 0 <= i < |s| => !s[i])
  }

  /** Entry k negated: on indices this is j xor 2^k. */
  function Toggle(s: seq<bool>, k: nat): (r: seq<bool>)
    requires k < |s|
    ensures |r| == |s|
  {
    s[k := !s[k]]
  }

  /** Ripple-carry increment of a little-endian counter; all ones wraps to all zeros. */
  function Increment(s: seq<bool>): (r: seq<bool>)
    ensures |r| == |s|
  {
    if s == [] then []
    else if !s[0] then [true] + s[1..]
    else [false] + Increment(s[1..])
  }

  lemma {:induction false} ValueFromNat(len: nat, k: nat)
    requires k < Pow2(len)
    ensures Value(FromNat(len, k)) == k
  {
    if len > 0 {
      ValueFromNat(len - 1, k / 2);
      assert FromNat(len, k)[1..] == FromNat(len - 1, k / 2);
    }
  }

  lemma {:induction false} FromNatValue(s: seq<bool>)
    ensures FromNat(|s|, Value(s)) == s
  {
    if s != [] {
      var v := Value(s);
      assert v % 2 == (if s[0] then 1 else 0);
      assert v / 2 == Value(s[1..]);
      FromNatValue(s[1..]);
    }
  }

  lemma ValueInjective(s: seq<bool>, u: seq<bool>)
    requires |s| == |u| && Value(s) == Value(u)
    ensures s == u
  {
    FromNatValue(s);
    FromNatValue(u);
  }

  lemma BitOfValue(s: seq<bool>, k: nat)
    requires k < |s|
    ensures Bit(Value(s), k) == s[k]
  {
    FromNatValue(s);
  }

  lemma {:induction false} ValueComplement(s: seq<bool>)
    ensures Value(Complement(s)) == Pow2(|s|) - 1 - Value(s)
  {
    if s != [] {
      ValueComplement(s[1..]);
      assert Complement(s)[1..] == Complement(s[1..]);
    }
  }

  /** Complementing all n input bits of row j gives row 2^n - 1 - j. */
  lemma FromNatComplement(n: nat, j: nat)
    requires j < Pow2(n)
    ensures FromNat(n, Pow2(n) - 1 - j) == Complement(FromNat(n, j))
  {
    ValueComplement(FromNat(n, j));
    ValueFromNat(n, j);
    FromNatValue(Complement(FromNat(n, j)));
  }

  /** Setting entry k to b moves the value by 2^k in the matching direction. */
  lemma {:induction false} ValueUpdate(s: seq<bool>, k: nat, b: bool)
    requires k < |s|
    ensures Value(s[k := b]) == Value(s) + (if b then 1 else 0) * Pow2(k) - (if s[k] then 1 else 0) * Pow2(k)
  {
    if k > 0 {
      ValueUpdate(s[1..], k - 1, b);
      assert s[k := b][1..] == s[1..][k - 1 := b];
    }
  }

  /** Toggling entry k of row j is j xor 2^k. */
  lemma ToggleIsXor(n: nat, j: nat, k: nat)
    requires j < Pow2(n) && k < n
    ensures Value(Toggle(FromNat(n, j), k)) == if Bit(j, k) then j - Pow2(k) else j + Pow2(k)
  {
    ValueUpdate(FromNat(n, j), k, !Bit(j, k));
    ValueFromNat(n, j);
  }

  lemma {:induction false} IncrementValue(s: seq<bool>)
    ensures Value(Increment(s)) == (Value(s) + 1) % Pow2(|s|)
  {
    if s == [] {
    } else if s[0] {
      var t := s[1..];
      IncrementValue(t);
      var p, v := Pow2(|t|), Value(t);
      assert Increment(s)[1..] == Increment(t);
      assert Value(Increment(s)) == 2 * Value(Increment(t));
      assert Pow2(|s|) == 2 * p;
      assert Value(s) + 1 == 2 * v + 2;
      if v + 1 < p {
        ModOfSmall(v + 1, p);
        ModOfSmall(2 * v + 2, 2 * p);
      } else {
        ModOfSmall(0, p);
        ModOfSmall(0, 2 * p);
      }
    } else {
      assert Value(Increment(s)) == 1 + 2 * Value(s[1..]);
      ModOfSmall(Value(s) + 1, Pow2(|s|));
    }
  }

  lemma ModOfSmall(x: nat, m: nat)
    requires 0 <= x < m
    ensures x % m == x && (x + m) % m == x
  {
  }

  lemma {:induction false} BitZero(k: nat)
    ensures !Bit(0, k)
  {
    if k > 0 {
      BitZero(k - 1);
    }
  }

  /** In the lower half of 2^(k+1) rows variable k is 0, in the upper half 1. */
  lemma {:induction false} BitTop(j: nat, k: nat)
    requires j < Pow2(k + 1)
    ensures Bit(j, k) <==> j >= Pow2(k)
  {
    if k > 0 {
      BitTop(j / 2, k - 1);
    }
  }

  /** Adding 2^m leaves the bits below m alone. */
  lemma {:induction false} BitShift(j: nat, m: nat, k: nat)
    requires k < m
    ensures Bit(j + Pow2(m), k) == Bit(j, k)
  {
    if k > 0 {
      assert (j + Pow2(m)) / 2 == j / 2 + Pow2(m - 1);
      BitShift(j / 2, m - 1, k - 1);
    }
  }
}

/** The NPN group and exact NPN canonization.

    An NPN transform negates some inputs, permutes the inputs and possibly
    negates the output. exact_npn_canonization belongs to the truth-table
    library and its search order is not part of this model: it is modelled by
    its contract, an exhaustive search over every input-negation mask, every
    permutation and both output polarities that keeps the image with the
    smallest counter value, as the library's search keeps the least table it
    meets. Which transform is reported on a tie is not modelled; the
    representative itself does not depend on it. */
module Npn {
  import opened Binary
  import opened TruthTables

  datatype Transform = Transform(neg: seq<bool>, perm: seq<nat>, outNeg: bool)

  /** p is a bijection on {0, ..., n-1}. */
  predicate IsPerm(p: seq<nat>, n: nat)
  {
    && |p| == n
    && (forall i :: 0 <= i < n ==> p[i] < n)
    && (forall i, j :: 0 <= i < j < n ==> p[i] != p[j])
    && (forall v :: 0 <= v < n ==> v in p)
  }

  predicate IsTransform(g: Transform, n: nat)
  {
    |g.neg| == n && IsPerm(g.perm, n)
  }

  /** Input position i of the transformed function reads variable perm[i], negated when neg[i]. */
  function Move(g: Transform, x: seq<bool>): (y: seq<bool>)
    requires IsTransform(g, |x|)
    ensures |y| == |x|
  {
    seq(|x|, i requires 0 <= i < |x| => x[g.perm[i]] != g.neg[i])
  }

  /** The image of t under g: on assignment x it is t(Move(g, x)), negated when outNeg. */
  function Apply(t: TruthTable, g: Transform): (r: TruthTable)
    requires t.Valid() && IsTransform(g, t.numVars)
    ensures r.Valid() && r.numVars == t.numVars
  {
    TruthTable(t.numVars, seq(|t.bits|, j requires 0 <= j < |t.bits| =>
      t.bits[Value(Move(g, FromNat(t.numVars, j)))] != g.outNeg))
  }

  /** On input x the image is t on Move(g, x), negated when outNeg. */
  lemma ApplyAt(t: TruthTable, g: Transform, x: seq<bool>)
    requires t.Valid() && |x| == t.numVars && IsTransform(g, t.numVars)
    ensures Apply(t, g).bits[Value(x)] == (t.bits[Value(Move(g, x))] != g.outNeg)
  {
    FromNatValue(x);
  }

  function Range(n: nat): (r: seq<nat>)
    ensures |r| == n && forall i :: 0 <= i < n ==> r[i] == i
  {
    seq(n, i requires 0 <= i => i)
  }

  function Identity(n: nat): (g: Transform)
    ensures IsTransform(g, n)
  {
    var r := Range(n);
    assert forall v :: 0 <= v < n ==> v in r by {
      forall v | 0 <= v < n ensures v in r {
        assert r[v] == v;
      }
    }
    Transform(seq(n, i => false), r, false)
  }

  /** Position of v in p. */
  function IndexOf(p: seq<nat>, v: nat): (i: nat)
    requires v in p
    ensures i < |p| && p[i] == v
  {
    if p[0] == v then 0 else 1 + IndexOf(p[1..], v)
  }

  /** First g, then h. */
  function Compose(g: Transform, h: Transform): (c: Transform)
    requires IsTransform(g, |g.neg|) && IsTransform(h, |g.neg|)
    ensures IsTransform(c, |g.neg|)
  {
    var n := |g.neg|;
    var perm := seq(n, i requires 0 <= i < n => h.perm[g.perm[i]]);
    assert forall v :: 0 <= v < n ==> v in perm by {
      forall v | 0 <= v < n ensures v in perm {
        var i := IndexOf(g.perm, IndexOf(h.perm, v));
        assert perm[i] == v;
      }
    }
    Transform(seq(n, i requires 0 <= i < n => h.neg[g.perm[i]] != g.neg[i]), perm, g.outNeg != h.outNeg)
  }

  function Inverse(g: Transform): (r: Transform)
    requires IsTransform(g, |g.neg|)
    ensures IsTransform(r, |g.neg|)
  {
    var n := |g.neg|;
    var perm := seq(n, v requires 0 <= v < n => IndexOf(g.perm, v));
    assert forall i :: 0 <= i < n ==> i in perm by {
      forall i | 0 <= i < n ensures i in perm {
        assert perm[g.perm[i]] == i;
      }
    }
    Transform(seq(n, v requires 0 <= v < n => g.neg[IndexOf(g.perm, v)]), perm, g.outNeg)
  }

  lemma MoveCompose(g: Transform, h: Transform, x: seq<bool>)
    requires IsTransform(g, |x|) && IsTransform(h, |x|)
    ensures Move(g, Move(h, x)) == Move(Compose(g, h), x)
  {
  }

  /** Transforming by g and then by h is transforming by their composition. */
  lemma ApplyCompose(t: TruthTable, g: Transform, h: Transform)
    requires t.Valid() && IsTransform(g, t.numVars) && IsTransform(h, t.numVars)
    ensures Apply(Apply(t, g), h) == Apply(t, Compose(g, h))
  {
    var n := t.numVars;
    forall j | 0 <= j < |t.bits|
      ensures Apply(Apply(t, g), h).bits[j] == Apply(t, Compose(g, h)).bits[j]
    {
      var x := FromNat(n, j);
      FromNatValue(Move(h, x));
      MoveCompose(g, h, x);
    }
  }

  lemma ApplyIdentity(t: TruthTable)
    requires t.Valid()
    ensures Apply(t, Identity(t.numVars)) == t
  {
    var n := t.numVars;
    forall j | 0 <= j < |t.bits| ensures Apply(t, Identity(n)).bits[j] == t.bits[j] {
      var x := FromNat(n, j);
      assert Move(Identity(n), x) == x;
      ValueFromNat(n, j);
    }
  }

  /** Every transform is undone by its inverse. */
  lemma ApplyInverse(t: TruthTable, g: Transform)
    requires t.Valid() && IsTransform(g, t.numVars)
    ensures Apply(Apply(t, g), Inverse(g)) == t
  {
    ApplyCompose(t, g, Inverse(g));
    assert Compose(g, Inverse(g)) == Identity(t.numVars);
    ApplyIdentity(t);
  }

  // ---- The group as a finite list ----

  /** a :: w for every letter a of the alphabet and every word w. */
  function Prefixed<T>(alphabet: seq<T>, words: seq<seq<T>>): (r: seq<seq<T>>)
  {
    if alphabet == [] then []
    else seq(|words|, i requires 0 <= i < |words| => [alphabet[0]] + words[i]) + Prefixed(alphabet[1..], words)
  }

  /** All words of the given length over the alphabet. */
  function Words<T>(alphabet: seq<T>, len: nat): (r: seq<seq<T>>)
  {
    if len == 0 then [[]] else Prefixed(alphabet, Words(alphabet, len - 1))
  }

  lemma {:induction false} PrefixedLength<T>(alphabet: seq<T>, words: seq<seq<T>>, len: nat)
    requires forall w :: w in words ==> |w| == len
    ensures forall w :: w in Prefixed(alphabet, words) ==> |w| == len + 1
  {
    if alphabet != [] {
      PrefixedLength(alphabet[1..], words, len);
    }
  }

  lemma {:induction false} WordsLength<T>(alphabet: seq<T>, len: nat)
    ensures forall w :: w in Words(alphabet, len) ==> |w| == len
  {
    if len > 0 {
      WordsLength(alphabet, len - 1);
      PrefixedLength(alphabet, Words(alphabet, len - 1), len - 1);
    }
  }

  lemma {:induction false} PrefixedHas<T>(alphabet: seq<T>, words: seq<seq<T>>, a: T, w: seq<T>)
    requires a in alphabet && w in words
    ensures [a] + w in Prefixed(alphabet, words)
  {
    if alphabet[0] == a {
      var i :| 0 <= i < |words| && words[i] == w;
      var front := seq(|words|, i requires 0 <= i < |words| => [alphabet[0]] + words[i]);
      assert front[i] == [a] + w;
    } else {
      PrefixedHas(alphabet[1..], words, a, w);
    }
  }

  /** Every word over the alphabet is listed. */
  lemma {:induction false} WordsComplete<T>(alphabet: seq<T>, w: seq<T>)
    requires forall i :: 0 <= i < |w| ==> w[i] in alphabet
    ensures w in Words(alphabet, |w|)
  {
    if w != [] {
      WordsComplete(alphabet, w[1..]);
      PrefixedHas(alphabet, Words(alphabet, |w| - 1), w[0], w[1..]);
      assert [w[0]] + w[1..] == w;
    }
  }

  function FilterPerms(candidates: seq<seq<nat>>, n: nat): (r: seq<seq<nat>>)
    ensures forall p :: p in r <==> p in candidates && IsPerm(p, n)
  {
    if candidates == [] then []
    else (if IsPerm(candidates[0], n) then [candidates[0]] else []) + FilterPerms(candidates[1..], n)
  }

  /** Every mask with every permutation and both output polarities. */
  function Combine(masks: seq<seq<bool>>, perms: seq<seq<nat>>): (r: seq<Transform>)
    ensures forall g :: g in r ==> g.neg in masks && g.perm in perms
  {
    if masks == [] then []
    else
      seq(|perms|, i requires 0 <= i < |perms| => Transform(masks[0], perms[i], false))
      + seq(|perms|, i requires 0 <= i < |perms| => Transform(masks[0], perms[i], true))
      + Combine(masks[1..], perms)
  }

  lemma {:induction false} CombineHas(masks: seq<seq<bool>>, perms: seq<seq<nat>>, g: Transform)
    requires g.neg in masks && g.perm in perms
    ensures g in Combine(masks, perms)
  {
    if masks[0] == g.neg {
      var i :| 0 <= i < |perms| && perms[i] == g.perm;
      var front := seq(|perms|, i requires 0 <= i < |perms| => Transform(masks[0], perms[i], false));
      var back := seq(|perms|, i requires 0 <= i < |perms| => Transform(masks[0], perms[i], true));
      if g.outNeg {
        assert back[i] == g;
      } else {
        assert front[i] == g;
      }
      assert Combine(masks, perms) == front + back + Combine(masks[1..], perms);
    } else {
      CombineHas(masks[1..], perms, g);
    }
  }

  /** The NPN group on n variables, 2^n * n! * 2 transforms. */
  function Group(n: nat): (r: seq<Transform>)
    ensures forall g :: g in r ==> IsTransform(g, n)
    ensures Identity(n) in r
  {
    WordsLength([false, true], n);
    GroupHas(Identity(n), n);
    Combine(Words([false, true], n), FilterPerms(Words(Range(n), n), n))
  }

  /** Every transform of n variables is listed. */
  lemma GroupHas(g: Transform, n: nat)
    requires IsTransform(g, n)
    ensures g in Combine(Words([false, true], n), FilterPerms(Words(Range(n), n), n))
  {
    forall i | 0 <= i < n ensures g.neg[i] in [false, true] {
      assert g.neg[i] == [false, true][if g.neg[i] then 1 else 0];
    }
    WordsComplete([false, true], g.neg);
    forall i | 0 <= i < n ensures g.perm[i] in Range(n) {
      assert Range(n)[g.perm[i]] == g.perm[i];
    }
    WordsComplete(Range(n), g.perm);
    CombineHas(Words([false, true], n), FilterPerms(Words(Range(n), n), n), g);
  }

  // ---- Canonization ----

  /** A canonical representative and the transform that maps the input onto it. */
  datatype Canonization = Canonization(rep: TruthTable, transform: Transform)

  /** The transform in gs whose image of t has the smallest counter value; the first on a tie. */
  function Best(t: TruthTable, gs: seq<Transform>): (g: Transform)
    requires t.Valid() && |gs| > 0
    requires forall h :: h in gs ==> IsTransform(h, t.numVars)
    ensures g in gs
  {
    if |gs| == 1 then gs[0]
    else
      var rest := Best(t, gs[1..]);
      if Value(Apply(t, gs[0]).bits) <= Value(Apply(t, rest).bits) then gs[0] else rest
  }

  /** No transform in gs takes t to a smaller counter value than Best(t, gs). */
  lemma {:induction false} BestIsMinimal(t: TruthTable, gs: seq<Transform>, h: Transform)
    requires t.Valid() && |gs| > 0
    requires forall h :: h in gs ==> IsTransform(h, t.numVars)
    requires h in gs
    ensures Value(Apply(t, Best(t, gs)).bits) <= Value(Apply(t, h).bits)
  {
    if |gs| > 1 {
      var rest := gs[1..];
      assert forall k :: k in rest ==> k in gs;
      if h != gs[0] {
        assert h in rest;
        BestIsMinimal(t, rest, h);
      }
    }
  }

  /** exact_npn_canonization: the smallest image of t over the whole NPN group,
      with the transform that produces it. */
  function ExactNpnCanonization(t: TruthTable): (c: Canonization)
    requires t.Valid()
    ensures IsTransform(c.transform, t.numVars) && c.rep == Apply(t, c.transform)
  {
    var g := Best(t, Group(t.numVars));
    Canonization(Apply(t, g), g)
  }

  /** No transform of t has a smaller counter value than the representative. */
  lemma RepresentativeIsMinimal(t: TruthTable, g: Transform)
    requires t.Valid() && IsTransform(g, t.numVars)
    ensures Value(ExactNpnCanonization(t).rep.bits) <= Value(Apply(t, g).bits)
  {
    GroupHas(g, t.numVars);
    BestIsMinimal(t, Group(t.numVars), g);
  }

  /** Negating the output of a transform complements its image. */
  lemma ApplyNegatedOutput(t: TruthTable, g: Transform)
    requires t.Valid() && IsTransform(g, t.numVars)
    ensures Apply(t, g.(outNeg := !g.outNeg)).bits == Complement(Apply(t, g).bits)
  {
  }

  /** Since the complement of every image is also an image, the representative
      lies in the lower half of the counter range: its last bit is 0. For a
      table of no variables this makes the representative the constant 0. */
  lemma RepresentativeLastBitClear(t: TruthTable)
    requires t.Valid()
    ensures !ExactNpnCanonization(t).rep.bits[|t.bits| - 1]
  {
    var c := ExactNpnCanonization(t);
    var s, k := c.rep.bits, |t.bits| - 1;
    ApplyNegatedOutput(t, c.transform);
    RepresentativeIsMinimal(t, c.transform.(outNeg := !c.transform.outNeg));
    ValueComplement(s);
    assert Pow2(k + 1) == 2 * Pow2(k);
    BitOfValue(s, k);
    BitTop(Value(s), k);
  }

  /** Two tables are NPN-equivalent when some transform maps one onto the other. */
  ghost predicate NpnEquivalent(t: TruthTable, u: TruthTable)
    requires t.Valid()
  {
    exists g :: IsTransform(g, t.numVars) && Apply(t, g) == u
  }

  /** The representative has the smallest counter value in the class, so it is unique. */
  lemma RepresentativeUnique(t: TruthTable, u: TruthTable)
    requires t.Valid() && u.Valid() && t.numVars == u.numVars
    requires Value(ExactNpnCanonization(t).rep.bits) <= Value(ExactNpnCanonization(u).rep.bits)
    requires Value(ExactNpnCanonization(u).rep.bits) <= Value(ExactNpnCanonization(t).rep.bits)
    ensures ExactNpnCanonization(t).rep == ExactNpnCanonization(u).rep
  {
    ValueInjective(ExactNpnCanonization(t).rep.bits, ExactNpnCanonization(u).rep.bits);
  }

  /** NPN-equivalent inputs have the same representative. */
  lemma CanonizationInvariant(t: TruthTable, g: Transform)
    requires t.Valid() && IsTransform(g, t.numVars)
    ensures ExactNpnCanonization(Apply(t, g)).rep == ExactNpnCanonization(t).rep
  {
    var u := Apply(t, g);
    var c1, c2 := ExactNpnCanonization(t), ExactNpnCanonization(u);
    ApplyCompose(t, g, c2.transform);
    RepresentativeIsMinimal(t, Compose(g, c2.transform));
    ApplyInverse(t, g);
    ApplyCompose(u, Inverse(g), c1.transform);
    RepresentativeIsMinimal(u, Compose(Inverse(g), c1.transform));
    RepresentativeUnique(t, u);
  }

  lemma CanonizationIdempotent(t: TruthTable)
    requires t.Valid()
    ensures ExactNpnCanonization(ExactNpnCanonization(t).rep).rep == ExactNpnCanonization(t).rep
  {
    CanonizationInvariant(t, ExactNpnCanonization(t).transform);
  }

  /** Same representative exactly when NPN-equivalent. */
  lemma SameRepresentativeIffEquivalent(t: TruthTable, u: TruthTable)
    requires t.Valid() && u.Valid() && t.numVars == u.numVars
    ensures ExactNpnCanonization(t).rep == ExactNpnCanonization(u).rep <==> NpnEquivalent(t, u)
  {
    if NpnEquivalent(t, u) {
      var g :| IsTransform(g, t.numVars) && Apply(t, g) == u;
      CanonizationInvariant(t, g);
    }
    var c1, c2 := ExactNpnCanonization(t), ExactNpnCanonization(u);
    if c1.rep == c2.rep {
      ApplyInverse(u, c2.transform);
      ApplyCompose(t, c1.transform, Inverse(c2.transform));
      assert Apply(t, Compose(c1.transform, Inverse(c2.transform))) == u;
    }
  }
}

# NPN and self-dual class enumeration over truth tables

This project models the enumeration examples written on top of the kitty
truth-table library: `examples/sd.cpp`, `examples/sd2.cpp` and
`examples/new_npn.cpp`.

- A truth table of n variables is a value `TruthTable(numVars, bits)` with
  2^n output bits. Bit j is the output on the input assignment whose
  variable k is bit k of j (`Binary.FromNat`, read back by `Binary.Value`).
  The same bits, read as one 2^n-bit little-endian counter, give the order in
  which `next_inplace` walks all functions.
- The library primitives that the examples call are modelled by definition in
  `TruthTables`:
  - `flip`, `~`, `binary_and`, `binary_or`, `^`
  - `ternary_majority`, `create_nth_var`
  - `get_bit`, `set_bit`, `next_inplace`, `is_const0`
- `exact_npn_canonization` is modelled in `Npn` as an exhaustive search over
  the NPN group: every input-negation mask, every permutation and both output
  polarities. It returns the image with the smallest counter value, together
  with the transform that produces it.
- `SelfDual` holds:
  - the dual and `dual_of` (flip every variable, then complement);
  - `extend_tt` (copy a table into a table of one more variable);
  - the lift `(extended & a) | (~a & dual_of(extended))`, which turns any
    function into a self-dual function of one more variable.
- `Enumeration` holds the three class enumerators:
  - `calculate_npn_class` walks all 2^(2^n) functions.
  - `calculate_sd_class` walks all functions and lifts the ones that are not
    self-dual.
  - `calculate_sd_class_fast` lifts every NPN representative.

  Each enumerator inserts canonical forms into a set.
- `NewNpn` holds the two four-variable functions of `new_npn.cpp` and their
  canonization.

The two files `sd.cpp` and `sd2.cpp` contain identical copies of `dual_of`,
`extend_tt` and `calculate_sd_class`, and the same `calculate_npn_class` apart
from the summary print, which is live in `sd.cpp` (lines 87-89) and commented
out in `sd2.cpp` (lines 130-132). Each is modelled once, and the table cites
the `sd2.cpp` copy. In `sd.cpp` the same code sits at lines 9-18, 21-29, 31-66
and 74-91.

Loops that reassign a table become methods with `while`/`for` loops proved
against a specification function:
- `DualOf` against `Dual`;
- `ExtendTt` against `Extend`;
- the enumerators against set images over the ghost sequence of visited tables.

Tables are copied by value in the source, so no class is needed.

## Model

| member | source | states |
|---|---|---|
| SelfDual.DualOf | examples/sd2.cpp:9-18 | flipping every variable and then complementing yields `Dual(t)`: same width, and bit j is the complement of bit 2^n-1-j of t; the loop invariant is that after i flips exactly the variables below i are negated |
| SelfDual.FlipStep | examples/sd2.cpp:13-15 | one `flip` of variable i turns "variables below i negated" into "variables below i+1 negated" |
| SelfDual.FlippedAllIsDual | examples/sd2.cpp:17 | complementing the table with every input negated gives the dual |
| SelfDual.DualInvolution | examples/sd2.cpp:9-18 | the dual of the dual is the original table |
| SelfDual.DualApply | examples/sd2.cpp:74-77 | taking the dual commutes with every NPN transform |
| SelfDual.SelfDualPreserved | examples/sd2.cpp:74-77 | an NPN transform of t is self-dual if and only if t is |
| SelfDual.CanonizationKeepsSelfDual | examples/sd2.cpp:74-77 | the NPN representative of t is self-dual if and only if t is |
| SelfDual.ExtendTt | examples/sd2.cpp:21-29 | the set_bit loop yields `Extend(tt, numVars)`: numVars+1 variables, bit i equal to bit (i mod 2^n) of tt, all other bits untouched from the all-zero start |
| SelfDual.ExtendHalves | examples/sd2.cpp:21-29 | extending a table by one variable copies it into both halves, so the result ignores the new variable |
| SelfDual.LiftOf | examples/sd2.cpp:79-80 | extend_tt, dual_of and the and/or expression with the new projection compute `Lift(tt)` |
| SelfDual.LiftHalves | examples/sd2.cpp:48-49 | the lift is dual(t) where the new variable is 0 and t where it is 1 |
| SelfDual.LiftIsSelfDual | examples/sd2.cpp:79-80 | the lift is self-dual for every t, self-dual or not |
| TruthTables.NthVarAt | examples/new_npn.cpp:36-41 | the projection on variable v outputs x[v] on input x |
| TruthTables.FlipIsXor | examples/sd2.cpp:14 | `flip(t, v)` reads bit j of t at index j xor 2^v, which lies in range |
| TruthTables.CreateIsTableZero | examples/sd2.cpp:120 | a fresh table is the all-zero function, counter value 0 |
| TruthTables.NextStep | examples/sd2.cpp:127 | `next_inplace` adds one to the counter modulo 2^(2^n), wrapping the all-ones table to all-zero |
| TruthTables.Const0Iff | examples/sd2.cpp:128 | `is_const0` holds exactly at counter value 0, so the loop stops only after the wrap |
| TruthTables.TableInjective | examples/sd2.cpp:121-128 | distinct counter values below 2^(2^n) give distinct tables |
| Npn.ExactNpnCanonization | examples/sd2.cpp:123-124 | the result holds a valid NPN transform, and the representative is the input's image under it |
| Npn.RepresentativeIsMinimal | examples/sd2.cpp:123-124 | no NPN transform takes t to a smaller counter value than the representative |
| Npn.CanonizationInvariant | examples/sd2.cpp:123-124 | every NPN transform of t has the same representative as t |
| Npn.CanonizationIdempotent | examples/sd2.cpp:123-124 | canonizing a representative returns it unchanged |
| Npn.SameRepresentativeIffEquivalent | examples/sd2.cpp:123-124 | two tables of equal width have the same representative if and only if they are NPN-equivalent, so each set element stands for exactly one class |
| Npn.RepresentativeLastBitClear | examples/sd2.cpp:123-124 | the representative's last bit is 0; for zero variables it is the constant 0 |
| Npn.ApplyInverse | examples/sd2.cpp:123-124 | the inverse transform undoes a transform |
| Npn.GroupHas | examples/sd2.cpp:123-124 | the search covers every input negation, every permutation and both output polarities |
| Enumeration.StepCursor | examples/sd2.cpp:127-128 | from table k the cursor moves to table k+1, and the loop test fires exactly after table 2^(2^n)-1 |
| Enumeration.WalkComplete | examples/sd2.cpp:121-128 | a finished walk met every table of n variables and met none twice |
| Enumeration.CalculateNpnClass | examples/sd2.cpp:117-134 | visits tables 0 .. 2^(2^n)-1 in counter order; the result is the set of their representatives, equal to `NpnClasses(n)` and never empty |
| Enumeration.WalkedClasses | examples/sd2.cpp:117-134 | the representatives of a completed walk are exactly the representatives of all n-variable tables |
| Enumeration.SdEntryProperties | examples/sd2.cpp:74-88 | the inserted table is self-dual; it keeps width n if and only if tt is self-dual, and has width n+1 otherwise |
| Enumeration.CalculateSdClass | examples/sd2.cpp:67-102 | visits every table of n variables once; the result is the set of `SdEntry` over them; every element is self-dual and has n or n+1 variables |
| Enumeration.LiftEach | examples/sd2.cpp:38-54 | for a non-empty input set, the loop yields the representatives of the lifts of all its elements, in any iteration order |
| Enumeration.LiftedRepresentativesSelfDual | examples/sd2.cpp:48-51 | lifting and canonizing n-variable tables gives self-dual tables of n+1 variables |
| Enumeration.CalculateSdClassFast | examples/sd2.cpp:31-65 | the result is the set of lifted representatives of `NpnClasses(n)`; it has no more elements than `NpnClasses(n)`, and every element is self-dual with n+1 variables |
| Images.SeqImageSnoc | examples/sd2.cpp:123-124 | inserting the representative of one more visited table adds exactly that element to the set |
| Images.SetImageAdd | examples/sd2.cpp:50-51 | inserting one lifted representative adds exactly that element |
| Images.SetImageSize | examples/sd2.cpp:31-65 | an image has at most as many elements as its source set |
| NewNpn.Sum | examples/new_npn.cpp:43 | the sum table has 4 variables |
| NewNpn.Carry | examples/new_npn.cpp:44 | the carry table has 4 variables |
| NewNpn.SumAt | examples/new_npn.cpp:43 | on input x, sum is (x0 xor x1) and (x2 xor x3) |
| NewNpn.SumIsNotParity | examples/new_npn.cpp:43 | sum differs from the xor of all four inputs on input 1,0,0,0, so it is not the sum bit of an adder |
| NewNpn.CarryAt | examples/new_npn.cpp:44 | on input x, carry is the majority of x0, x1 and x2 |
| NewNpn.CarryIgnoresVar3 | examples/new_npn.cpp:44 | carry does not depend on variable 3: rows i and i+8 agree for i < 8 |
| NewNpn.CarryPermutationInvariant | examples/new_npn.cpp:44 | permuting variables 0, 1 and 2 leaves carry unchanged |
| NewNpn.CarryIsSelfDual | examples/new_npn.cpp:44 | carry is self-dual |
| NewNpn.SumIsNotSelfDual | examples/new_npn.cpp:43 | sum is not self-dual |
| NewNpn.CanonizeExamples | examples/new_npn.cpp:43-53 | the two results are `ExactNpnCanonization` of carry and of sum; each has 4 variables and is NPN-equivalent to its input; the carry representative is self-dual and the sum representative is not; the inputs are values and are not modified |

## Left out

- The search order and tie-break of the library's `exact_npn_canonization`. The model returns the image with the smallest counter value, which fixes the representative. The library source is not part of this model, so which transform is reported when several reach the minimum is not modelled.
- `exact_p_canonization` and the other library canonizers are not called by the modelled examples.
- The library's word-packed storage, padding and hashing. A table is a plain bit sequence, and the hash set is a Dafny `set`.
- The printed summary lines, `print_binary` and `print_xmas_tree_for_function`: they only print.
- The `main` functions of `sd.cpp` (lines 68-72) and `sd2.cpp` (lines 104-115): they only call the modelled enumerators with n = 4. The `main` of `new_npn.cpp` is modelled by `NewNpn`, apart from its printing.
- The printed count `1 << (1 << n)` overflows an `int` for n >= 5. It is only printed and is not modelled; `Count(n)` is the unbounded 2^(2^n).
- The unused local `tt2 = ~tt1` in `dual_of`.
- The `uint8_t` width of `num_vars`: the model takes any natural number.
- Out-of-range bit indices to `GetBit`/`SetBit` and operands of different widths to `And`/`Or`/`Xor`/`Majority` are preconditions, not handled cases: the library leaves them to the caller, and every call in the examples meets them.
- The concrete class counts the examples print for n = 4. The model proves what the sets contain; it does not compute their sizes.
- Enumeration.LiftEach: the source's do-while reads the first iterator before testing for the end, which is undefined on an empty set. The model demands a non-empty set instead; `CalculateNpnClass` always returns one.
- `examples/npn_sd_distribution.cpp`, `experiments/league.cpp` and `experiments/cut_rewriting.cpp` are not part of this model.

/** The class enumerators of examples/sd.cpp and examples/sd2.cpp.

    Each starts from the all-zero table of n variables, steps it with
    next_inplace until it wraps back to all-zero, and inserts a canonical form
    per table into a hash set, modelled here as a set. The ghost sequence
    `visited` records the tables in the order the loop meets them. */
module Enumeration {
  import opened Binary
  import opened TruthTables
  import opened Npn
  import opened SelfDual
  import opened Images

  /** The NPN representative of a table. */
  function Representative(t: TruthTable): (r: TruthTable)
    requires t.Valid()
    ensures r.Valid() && r.numVars == t.numVars
  {
    ExactNpnCanonization(t).rep
  }

  /** The NPN representatives of all tables of n variables. */
  ghost function NpnClasses(n: nat): (classes: set<TruthTable>)
    ensures forall c :: c in classes ==> c.Valid() && c.numVars == n
  {
    set k | 0 <= k < Count(n) :: Representative(Table(n, k))
  }

  /** What calculate_sd_class inserts for tt: its own representative when tt is
      self-dual, otherwise the representative of its lift. */
  function SdEntry(tt: TruthTable): (c: TruthTable)
    requires tt.Valid()
    ensures c.Valid()
  {
    if IsSelfDual(tt) then Representative(tt) else Representative(Lift(tt))
  }

  /** Every inserted entry is self-dual; it keeps tt's width exactly when tt is
      self-dual and has one variable more otherwise. */
  lemma SdEntryProperties(tt: TruthTable)
    requires tt.Valid()
    ensures IsSelfDual(SdEntry(tt))
    ensures SdEntry(tt).numVars == tt.numVars <==> IsSelfDual(tt)
    ensures !IsSelfDual(tt) ==> SdEntry(tt).numVars == tt.numVars + 1
  {
    if IsSelfDual(tt) {
      CanonizationKeepsSelfDual(tt);
    } else {
      LiftIsSelfDual(tt);
      CanonizationKeepsSelfDual(Lift(tt));
    }
  }

  /** The loop facts shared by the two counter-driven enumerators: after k
      steps the first k tables were visited in counter order. */
  ghost predicate Walked(n: nat, k: nat, visited: seq<TruthTable>)
  {
    && |visited| == k
    && (forall i :: 0 <= i < k ==> visited[i] == Table(n, i))
    && (forall t :: t in visited ==> t.Valid() && t.numVars == n)
  }

  /** A completed walk met every table of n variables exactly once. */
  lemma WalkComplete(n: nat, visited: seq<TruthTable>)
    requires Walked(n, Count(n), visited)
    ensures forall t: TruthTable :: t.Valid() && t.numVars == n ==> t in visited
    ensures forall i, j :: 0 <= i < j < |visited| ==> visited[i] != visited[j]
  {
    forall t: TruthTable | t.Valid() && t.numVars == n ensures t in visited {
      TableOfValue(t);
      assert visited[Value(t.bits)] == t;
    }
    forall i, j | 0 <= i < j < |visited| ensures visited[i] != visited[j] {
      if visited[i] == visited[j] {
        TableInjective(n, i, j);
      }
    }
  }

  /** One step of the cursor: the next table, and whether the walk is over. */
  lemma StepCursor(n: nat, k: nat)
    requires k < Count(n)
    ensures IsConst0(Next(Table(n, k))) <==> k + 1 == Count(n)
    ensures k + 1 < Count(n) ==> Next(Table(n, k)) == Table(n, k + 1)
  {
    NextStep(n, k);
    if k + 1 < Count(n) {
      ModOfSmall(k + 1, Count(n));
    } else {
      ModOfSmall(0, Count(n));
    }
    Const0Iff(n, (k + 1) % Count(n));
  }

  lemma WalkedSnoc(n: nat, visited: seq<TruthTable>, tt: TruthTable)
    requires Walked(n, |visited|, visited) && tt == Table(n, |visited|)
    ensures Walked(n, |visited| + 1, visited + [tt])
  {
  }

  /** A completed walk sees every NPN class, and there is at least one. */
  lemma WalkedClasses(n: nat, visited: seq<TruthTable>)
    requires Walked(n, Count(n), visited)
    ensures SeqImage(visited, Representative) == NpnClasses(n) != {}
  {
    forall c | c in NpnClasses(n) ensures c in SeqImage(visited, Representative) {
      var k :| 0 <= k < Count(n) && c == Representative(Table(n, k));
      assert visited[k] == Table(n, k);
    }
    forall c | c in SeqImage(visited, Representative) ensures c in NpnClasses(n) {
      var t :| t in visited && c == Representative(t);
      var i :| 0 <= i < |visited| && visited[i] == t;
      assert visited[i] == Table(n, i);
    }
    assert Representative(visited[0]) in SeqImage(visited, Representative);
  }

  /** calculate_npn_class */
  method CalculateNpnClass(numVars: nat) returns (classes: set<TruthTable>, ghost visited: seq<TruthTable>)
    ensures Walked(numVars, Count(numVars), visited)
    ensures classes == SeqImage(visited, Representative)
    ensures classes == NpnClasses(numVars) && classes != {}
  {
    classes := {};
    var tt := Create(numVars);
    CreateIsTableZero(numVars);
    visited := [];
    var done := false;
    while !done
      invariant |visited| <= Count(numVars)
      invariant done <==> |visited| == Count(numVars)
      invariant !done ==> tt == Table(numVars, |visited|)
      invariant Walked(numVars, |visited|, visited)
      invariant classes == SeqImage(visited, Representative)
      decreases Count(numVars) - |visited|
    {
      var entry := ExactNpnCanonization(tt);
      classes := classes + {entry.rep};
      StepCursor(numVars, |visited|);
      WalkedSnoc(numVars, visited, tt);
      SeqImageSnoc(visited, tt, Representative);
      visited := visited + [tt];
      tt := Next(tt);
      done := IsConst0(tt);
    }
    WalkedClasses(numVars, visited);
  }

  /** calculate_sd_class */
  method CalculateSdClass(numVars: nat) returns (classes: set<TruthTable>, ghost visited: seq<TruthTable>)
    ensures Walked(numVars, Count(numVars), visited)
    ensures classes == SeqImage(visited, SdEntry)
    ensures forall c :: c in classes ==> c.Valid() && IsSelfDual(c)
    ensures forall c :: c in classes ==> c.numVars == numVars || c.numVars == numVars + 1
  {
    var tt := Create(numVars);
    CreateIsTableZero(numVars);
    classes := {};
    visited := [];
    var done := false;
    while !done
      invariant |visited| <= Count(numVars)
      invariant done <==> |visited| == Count(numVars)
      invariant !done ==> tt == Table(numVars, |visited|)
      invariant Walked(numVars, |visited|, visited)
      invariant classes == SeqImage(visited, SdEntry)
      invariant forall c :: c in classes ==> c.Valid() && IsSelfDual(c)
      invariant forall c :: c in classes ==> c.numVars == numVars || c.numVars == numVars + 1
      decreases Count(numVars) - |visited|
    {
      var res := IsSelfDual(tt);
      var inserted: TruthTable;
      if res {
        var entry := ExactNpnCanonization(tt);
        inserted := entry.rep;
      } else {
        var newTt := LiftOf(tt);
        var entry := ExactNpnCanonization(newTt);
        inserted := entry.rep;
      }
      SdEntryProperties(tt);
      classes := classes + {inserted};
      StepCursor(numVars, |visited|);
      WalkedSnoc(numVars, visited, tt);
      SeqImageSnoc(visited, tt, SdEntry);
      visited := visited + [tt];
      tt := Next(tt);
      done := IsConst0(tt);
    }
  }

  /** The representative of the lift of c. */
  function LiftedRepresentative(c: TruthTable): (r: TruthTable)
    requires c.Valid()
    ensures r.Valid() && r.numVars == c.numVars + 1
  {
    Representative(Lift(c))
  }

  /** Lifting tables of n variables gives self-dual representatives of n + 1
      variables. */
  lemma LiftedRepresentativesSelfDual(s: set<TruthTable>, n: nat)
    requires forall c :: c in s ==> c.Valid() && c.numVars == n
    ensures forall r :: r in SetImage(s, LiftedRepresentative) ==> r.Valid() && r.numVars == n + 1 && IsSelfDual(r)
  {
    forall r | r in SetImage(s, LiftedRepresentative) ensures r.Valid() && r.numVars == n + 1 && IsSelfDual(r) {
      var c :| c in s && r == LiftedRepresentative(c);
      LiftIsSelfDual(c);
      CanonizationKeepsSelfDual(Lift(c));
    }
  }

  /** Moving one element from the work set to the finished set. */
  lemma MoveOne(remaining: set<TruthTable>, done: set<TruthTable>, x: TruthTable)
    requires x in remaining
    ensures (remaining - {x}) + (done + {x}) == remaining + done
  {
  }

  /** The loop of calculate_sd_class_fast: lift and canonize every table of
      the set, in whatever order the set yields them. The source's do-while
      reads the first element before testing for the end, which its caller
      makes safe by passing a non-empty set. */
  method LiftEach(npnClass: set<TruthTable>) returns (classes: set<TruthTable>)
    requires npnClass != {}
    requires forall c :: c in npnClass ==> c.Valid()
    ensures classes == SetImage(npnClass, LiftedRepresentative)
  {
    classes := {};
    var remaining := npnClass;
    ghost var done: set<TruthTable> := {};
    while remaining != {}
      invariant remaining + done == npnClass
      invariant classes == SetImage(done, LiftedRepresentative)
      decreases remaining
    {
      var itr :| itr in remaining;
      var newTt := LiftOf(itr);
      var entry := ExactNpnCanonization(newTt);
      SetImageAdd(done, itr, LiftedRepresentative);
      MoveOne(remaining, done, itr);
      classes := classes + {entry.rep};
      remaining := remaining - {itr};
      done := done + {itr};
    }
  }

  /** calculate_sd_class_fast: lift every NPN representative of n variables and
      canonize the lifted function. */
  method CalculateSdClassFast(numVars: nat) returns (classes: set<TruthTable>)
    ensures classes == SetImage(NpnClasses(numVars), LiftedRepresentative)
    ensures |classes| <= |NpnClasses(numVars)|
    ensures forall c :: c in classes ==> c.Valid() && c.numVars == numVars + 1 && IsSelfDual(c)
  {
    var npnClass, _ := CalculateNpnClass(numVars);
    classes := LiftEach(npnClass);
    SetImageSize(npnClass, LiftedRepresentative);
    LiftedRepresentativesSelfDual(npnClass, numVars);
  }
}

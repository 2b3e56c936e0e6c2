/**
 * Root-level simplification inside the cardinality solver (cardinality-cadical/src/collect.cpp):
 * classifying a clause or cardinality constraint by its root-level fixed literals, flushing
 * falsified literals from clauses, shrinking cardinality constraints and lowering their bound
 * by the number of satisfied literals, marking satisfied constraints as garbage, protecting
 * the reasons of the trail, and deleting the garbage that is not protected.
 *
 * The root-level units are a set of literals; fixed(lit) is 1 when lit is a unit, -1 when its
 * negation is, and 0 otherwise. Every statement about meaning is made for the assignments
 * that extend the units, which are the only ones the solver still explores.
 */
module Collect {
  import opened Lits
  import CardEncoding

  /**
   * A clause object of the solver. Ordinary clauses use only lits, garbage and reason; a
   * cardinality constraint also has its bound and a guard literal (0 when unguarded).
   */
  datatype Clause = Clause(lits: seq<int>, bound: int, guard: int, garbage: bool, reason: bool)

  /** A trail entry: the literal, whether its variable is active, the clause index of its reason (-1: none). */
  datatype TrailLit = TrailLit(lit: int, active: bool, reason: int)

  /** No literal is 0 and no literal is a unit together with its negation. */
  predicate Consistent(units: set<int>) { 0 !in units && forall l :: l in units ==> -l !in units }

  /** The solver's fixed(lit): 1 for a root-level true literal, -1 for a false one, 0 otherwise. */
  function Fixed(units: set<int>, lit: int): (r: int)
    ensures -1 <= r <= 1
  {
    if lit in units then 1 else if -lit in units then -1 else 0
  }

  /** The fixed value of a guard; an absent guard (0) is never looked up. */
  function GuardFixed(units: set<int>, guard: int): int
  {
    if guard == 0 then 0 else Fixed(units, guard)
  }

  /** a makes every unit true. */
  ghost predicate Extends(a: Assignment, units: set<int>) { forall l :: l in units ==> LitTrue(a, l) }

  /** Number of literals fixed true. */
  function TrueCount(units: set<int>, lits: seq<int>): (r: nat)
    ensures r <= |lits|
  {
    if lits == [] then 0
    else TrueCount(units, lits[..|lits| - 1]) + (if Fixed(units, lits[|lits| - 1]) == 1 then 1 else 0)
  }

  /** Number of literals fixed false. */
  function FalseCount(units: set<int>, lits: seq<int>): (r: nat)
    ensures r <= |lits|
  {
    if lits == [] then 0
    else FalseCount(units, lits[..|lits| - 1]) + (if Fixed(units, lits[|lits| - 1]) == -1 then 1 else 0)
  }

  /** The literals that are not fixed, in order. */
  function Unfixed(units: set<int>, lits: seq<int>): (r: seq<int>)
    ensures |r| <= |lits|
  {
    if lits == [] then []
    else Unfixed(units, lits[..|lits| - 1]) + (if Fixed(units, lits[|lits| - 1]) == 0 then [lits[|lits| - 1]] else [])
  }

  /** The literals that are not fixed false, in order. */
  function NotFalse(units: set<int>, lits: seq<int>): (r: seq<int>)
    ensures |r| <= |lits|
  {
    if lits == [] then []
    else NotFalse(units, lits[..|lits| - 1]) + (if Fixed(units, lits[|lits| - 1]) != -1 then [lits[|lits| - 1]] else [])
  }

  /** A clause holds when one of its literals is true. */
  ghost predicate ClauseHolds(c: Clause, a: Assignment) { CountTrue(c.lits, a) >= 1 }

  /** A cardinality constraint holds when its guard is true or at least bound literals are. */
  ghost predicate CardHolds(c: Clause, a: Assignment)
  {
    (c.guard != 0 && LitTrue(a, c.guard)) || AtLeast(c.lits, c.bound, a)
  }

  /** Every constraint not marked garbage holds. */
  ghost predicate LiveHold(cs: seq<Clause>, ks: seq<Clause>, a: Assignment)
  {
    (forall i :: 0 <= i < |cs| && !cs[i].garbage ==> ClauseHolds(cs[i], a)) &&
    (forall i :: 0 <= i < |ks| && !ks[i].garbage ==> CardHolds(ks[i], a))
  }

  /** Under an extension of consistent units, a fixed literal has its fixed value. */
  lemma FixedMeaning(units: set<int>, a: Assignment, lit: int)
    requires Consistent(units) && Extends(a, units)
    ensures Fixed(units, lit) == 1 ==> LitTrue(a, lit)
    ensures Fixed(units, lit) == -1 ==> !LitTrue(a, lit)
  {
    if Fixed(units, lit) == -1 {
      NegTrue(lit, a);
    }
  }

  /** The true literals are the fixed-true ones plus the true unfixed ones. */
  lemma {:induction false} CountSplit(units: set<int>, lits: seq<int>, a: Assignment)
    requires Consistent(units) && Extends(a, units)
    ensures CountTrue(lits, a) == TrueCount(units, lits) + CountTrue(Unfixed(units, lits), a)
    decreases |lits|
  {
    if lits != [] {
      var init, x := lits[..|lits| - 1], lits[|lits| - 1];
      CountSplit(units, init, a);
      FixedMeaning(units, a, x);
      if Fixed(units, x) == 0 {
        CountTrueAppend(Unfixed(units, init), [x], a);
        assert [x][..0] == [];
      } else {
        assert Unfixed(units, lits) == Unfixed(units, init);
      }
    }
  }

  /** Dropping the fixed-false literals does not change how many literals are true. */
  lemma {:induction false} CountNotFalse(units: set<int>, lits: seq<int>, a: Assignment)
    requires Consistent(units) && Extends(a, units)
    ensures CountTrue(NotFalse(units, lits), a) == CountTrue(lits, a)
    decreases |lits|
  {
    if lits != [] {
      var init, x := lits[..|lits| - 1], lits[|lits| - 1];
      CountNotFalse(units, init, a);
      FixedMeaning(units, a, x);
      if Fixed(units, x) != -1 {
        CountTrueAppend(NotFalse(units, init), [x], a);
        assert [x][..0] == [];
      } else {
        assert NotFalse(units, lits) == NotFalse(units, init);
      }
    }
  }

  /** A prefix never has more non-false literals than the whole. */
  lemma {:induction false} NotFalsePrefix(units: set<int>, lits: seq<int>, i: nat)
    requires i <= |lits|
    ensures |NotFalse(units, lits[..i])| <= |NotFalse(units, lits)|
    decreases |lits|
  {
    if i < |lits| {
      var init := lits[..|lits| - 1];
      assert lits[..i] == init[..i];
      NotFalsePrefix(units, init, i);
    } else {
      assert lits[..i] == lits;
    }
  }

  /** Without fixed-true literals, every literal is unfixed or fixed false. */
  lemma {:induction false} NoTrueCount(units: set<int>, lits: seq<int>)
    requires TrueCount(units, lits) == 0
    ensures Unfixed(units, lits) == NotFalse(units, lits)
    ensures |lits| == |Unfixed(units, lits)| + FalseCount(units, lits)
    ensures forall i :: 0 <= i < |lits| ==> Fixed(units, lits[i]) <= 0
    decreases |lits|
  {
    if lits != [] {
      NoTrueCount(units, lits[..|lits| - 1]);
    }
  }

  /** The status of a constraint as the classifier for cardinality constraints computes it. */
  function CarStatus(units: set<int>, c: Clause): int
  {
    if GuardFixed(units, c.guard) > 0 || TrueCount(units, c.lits) >= c.bound then 1
    else if TrueCount(units, c.lits) > 0 || FalseCount(units, c.lits) > 0 || GuardFixed(units, c.guard) < 0 then -1
    else 0
  }

  /**
   * Root-level propagation is complete for c: when c is neither satisfied nor untouched, more
   * literals are unfixed than are still needed (the source asserts this before shrinking).
   */
  predicate Propagated(units: set<int>, c: Clause)
  {
    CarStatus(units, c) == -1 ==> |Unfixed(units, c.lits)| > c.bound - TrueCount(units, c.lits)
  }

  /** A classifier that answers 1 is right: every extension of the units satisfies the clause. */
  lemma RootSatisfiedClause(units: set<int>, c: Clause, a: Assignment)
    requires Consistent(units) && Extends(a, units) && TrueCount(units, c.lits) > 0
    ensures ClauseHolds(c, a)
  {
    CountSplit(units, c.lits, a);
  }

  /** A cardinality constraint with status 1 holds under every extension of the units. */
  lemma RootSatisfiedCard(units: set<int>, c: Clause, a: Assignment)
    requires Consistent(units) && Extends(a, units) && CarStatus(units, c) == 1
    ensures CardHolds(c, a)
  {
    CountSplit(units, c.lits, a);
    if GuardFixed(units, c.guard) > 0 {
      FixedMeaning(units, a, c.guard);
    }
  }

  /** Flushing the fixed-false literals (when two non-false remain) keeps the clause's meaning. */
  lemma FlushMeaning(units: set<int>, lits: seq<int>, a: Assignment)
    requires Consistent(units) && Extends(a, units)
    ensures var r := if |NotFalse(units, lits)| < 2 then lits else NotFalse(units, lits);
      (CountTrue(r, a) >= 1 <==> CountTrue(lits, a) >= 1) && (r != lits ==> |r| >= 2)
  {
    CountNotFalse(units, lits, a);
  }

  /** What shrinking c into d promises (the watch swaps leave the order of d's literals open). */
  ghost predicate Shrunk(units: set<int>, watchInGarbage: bool, c: Clause, d: Clause)
  {
    d.bound == c.bound - TrueCount(units, c.lits) &&
    multiset(d.lits) == multiset(Unfixed(units, c.lits)) &&
    d.guard == (if watchInGarbage && c.guard != 0 && Fixed(units, c.guard) < 0 then 0 else c.guard) &&
    d.garbage == c.garbage && d.reason == c.reason
  }

  /** A shrunk constraint means what it meant before, under every extension of the units. */
  lemma ShrunkMeaning(units: set<int>, w: bool, c: Clause, d: Clause, a: Assignment)
    requires Consistent(units) && Extends(a, units) && Shrunk(units, w, c, d)
    ensures CardHolds(d, a) <==> CardHolds(c, a)
  {
    CountSplit(units, c.lits, a);
    CardEncoding.CountTruePerm(d.lits, Unfixed(units, c.lits), a);
    if c.guard != 0 {
      FixedMeaning(units, a, c.guard);
    }
  }

  /**
   * The bound-range lemma: a constraint the classifier sends to shrinking, with propagation
   * complete, gets a bound of at least one and below its new size.
   */
  lemma ShrunkBounds(units: set<int>, w: bool, c: Clause, d: Clause)
    requires CarStatus(units, c) == -1 && Propagated(units, c) && Shrunk(units, w, c, d)
    ensures 1 <= d.bound < |d.lits|
  {
    assert |d.lits| == |multiset(d.lits)| == |Unfixed(units, c.lits)|;
  }

  /** What marking does to one clause. */
  function MarkedClause(units: set<int>, c: Clause): Clause
  {
    if c.garbage then c
    else if TrueCount(units, c.lits) > 0 then c.(garbage := true)
    else if FalseCount(units, c.lits) > 0 then
      c.(lits := if |NotFalse(units, c.lits)| < 2 then c.lits else NotFalse(units, c.lits))
    else c
  }

  /** What marking does to one cardinality constraint. */
  ghost predicate MarkedCard(units: set<int>, w: bool, c: Clause, d: Clause)
  {
    if c.garbage then d == c
    else if CarStatus(units, c) == 1 then d == c.(garbage := true)
    else if CarStatus(units, c) == -1 then Shrunk(units, w, c, d)
    else d == c
  }

  /** Marking changes no clause's meaning under extensions, and only marks satisfied ones garbage. */
  lemma MarkedClauseMeaning(units: set<int>, c: Clause, a: Assignment)
    requires Consistent(units) && Extends(a, units)
    ensures var d := MarkedClause(units, c);
      (!c.garbage ==> (ClauseHolds(c, a) <==> d.garbage || ClauseHolds(d, a))) &&
      (c.garbage ==> d == c) && (d.garbage && !c.garbage ==> ClauseHolds(c, a))
  {
    if !c.garbage && TrueCount(units, c.lits) > 0 {
      RootSatisfiedClause(units, c, a);
    } else {
      FlushMeaning(units, c.lits, a);
    }
  }

  /** The same for a cardinality constraint. */
  lemma MarkedCardMeaning(units: set<int>, w: bool, c: Clause, d: Clause, a: Assignment)
    requires Consistent(units) && Extends(a, units) && MarkedCard(units, w, c, d)
    ensures !c.garbage ==> (CardHolds(c, a) <==> d.garbage || CardHolds(d, a))
    ensures c.garbage ==> d == c
  {
    if !c.garbage {
      if CarStatus(units, c) == 1 {
        RootSatisfiedCard(units, c, a);
      } else if CarStatus(units, c) == -1 {
        ShrunkMeaning(units, w, c, d, a);
      }
    }
  }

  /** Marking keeps the formula: under every extension of the units the live constraints hold together or not. */
  lemma MarkPreservesFormula(units: set<int>, w: bool, cs: seq<Clause>, ks: seq<Clause>,
                             cs': seq<Clause>, ks': seq<Clause>, a: Assignment)
    requires Consistent(units) && Extends(a, units)
    requires |cs'| == |cs| && forall i :: 0 <= i < |cs| ==> cs'[i] == MarkedClause(units, cs[i])
    requires |ks'| == |ks| && forall i :: 0 <= i < |ks| ==> MarkedCard(units, w, ks[i], ks'[i])
    ensures LiveHold(cs', ks', a) <==> LiveHold(cs, ks, a)
  {
    forall i | 0 <= i < |cs| {
      MarkedClauseMeaning(units, cs[i], a);
    }
    forall i | 0 <= i < |ks| {
      MarkedCardMeaning(units, w, ks[i], ks'[i], a);
    }
  }

  /** The solver's collect(): garbage that is not protected as a reason. */
  predicate Collectable(c: Clause) { c.garbage && !c.reason }

  /** The clauses deletion keeps, in order. */
  function Survivors(cs: seq<Clause>): (r: seq<Clause>)
    ensures |r| <= |cs|
  {
    if cs == [] then []
    else Survivors(cs[..|cs| - 1]) + (if Collectable(cs[|cs| - 1]) then [] else [cs[|cs| - 1]])
  }

  /** Deletion keeps exactly the clauses that are not collectable, each as often as before. */
  lemma {:induction false} SurvivorsExact(cs: seq<Clause>)
    ensures forall c :: c in Survivors(cs) <==> c in cs && !Collectable(c)
    ensures forall c :: !Collectable(c) ==> multiset(Survivors(cs))[c] == multiset(cs)[c]
    decreases |cs|
  {
    if cs != [] {
      var init := cs[..|cs| - 1];
      SurvivorsExact(init);
      assert cs == init + [cs[|cs| - 1]];
    }
  }

  /** Deleting garbage keeps the live formula: what held over the live constraints still holds. */
  lemma {:induction false} SurvivorsLive(cs: seq<Clause>, ks: seq<Clause>, a: Assignment)
    ensures LiveHold(Survivors(cs), Survivors(ks), a) <==> LiveHold(cs, ks, a)
  {
    SurvivorsExact(cs);
    SurvivorsExact(ks);
    var sc, sk := Survivors(cs), Survivors(ks);
    if LiveHold(cs, ks, a) {
      forall i | 0 <= i < |sc| && !sc[i].garbage
        ensures ClauseHolds(sc[i], a)
      {
        assert sc[i] in cs;
      }
      forall i | 0 <= i < |sk| && !sk[i].garbage
        ensures CardHolds(sk[i], a)
      {
        assert sk[i] in ks;
      }
    }
    if LiveHold(sc, sk, a) {
      forall i | 0 <= i < |cs| && !cs[i].garbage
        ensures ClauseHolds(cs[i], a)
      {
        assert cs[i] in sc;
      }
      forall i | 0 <= i < |ks| && !ks[i].garbage
        ensures CardHolds(ks[i], a)
      {
        assert ks[i] in sk;
      }
    }
  }

  /** The clause indices that are reasons of active trail literals. */
  function ReasonIds(trail: seq<TrailLit>): set<int>
  {
    set t | t in trail && t.active && t.reason >= 0 :: t.reason
  }

  /** cs with the reason flag set to b on the given indices. */
  function Flagged(cs: seq<Clause>, ids: set<int>, b: bool): (r: seq<Clause>)
    ensures |r| == |cs|
  {
    seq(|cs|, i requires 0 <= i < |cs| => if i in ids then cs[i].(reason := b) else cs[i])
  }

  /** Unprotecting undoes protecting when no clause carried the flag before. */
  lemma ProtectRoundTrip(cs: seq<Clause>, ids: set<int>)
    requires forall i :: 0 <= i < |cs| ==> !cs[i].reason
    ensures Flagged(Flagged(cs, ids, true), ids, false) == cs
  {
    var r := Flagged(Flagged(cs, ids, true), ids, false);
    assert forall i :: 0 <= i < |cs| ==> r[i] == cs[i];
  }

  /** After protection, deletion keeps every reason clause of the trail. */
  lemma ProtectedSurvive(cs: seq<Clause>, trail: seq<TrailLit>)
    ensures forall i :: i in ReasonIds(trail) && 0 <= i < |cs| ==>
      Flagged(cs, ReasonIds(trail), true)[i] in Survivors(Flagged(cs, ReasonIds(trail), true))
  {
    SurvivorsExact(Flagged(cs, ReasonIds(trail), true));
  }

  /** The solver state collect.cpp works on. */
  class Internal {
    /** Root-level units (the solver's fixed values). */
    var units: set<int>
    var clauses: seq<Clause>
    /** The cardinality constraints (CARclauses). */
    var cards: seq<Clause>
    /** Number of units at the last collection (last.collect.fixed). */
    var lastCollectFixed: int
    /** Number of units now (stats.all.fixed). */
    var allFixed: int
    var protectedReasons: bool
    var trail: seq<TrailLit>
    /** Whether watches of constraints are kept up during collection (CARwatch_in_garbage). */
    var watchInGarbage: bool

    /** clause_contains_fixed_literal: 1 if a literal is fixed true, else -1 if one is fixed false, else 0. */
    method ClauseContainsFixedLiteral(c: Clause) returns (r: int)
      ensures r == 1 <==> TrueCount(units, c.lits) > 0
      ensures r == -1 <==> TrueCount(units, c.lits) == 0 && FalseCount(units, c.lits) > 0
      ensures r == 0 <==> TrueCount(units, c.lits) == 0 && FalseCount(units, c.lits) == 0
    {
      var satisfied, falsified := 0, 0;
      for i := 0 to |c.lits|
        invariant satisfied == TrueCount(units, c.lits[..i])
        invariant falsified == FalseCount(units, c.lits[..i])
      {
        assert c.lits[..i + 1][..i] == c.lits[..i];
        var tmp := Fixed(units, c.lits[i]);
        if tmp > 0 {
          satisfied := satisfied + 1;
        }
        if tmp < 0 {
          falsified := falsified + 1;
        }
      }
      assert c.lits[..|c.lits|] == c.lits;
      if satisfied > 0 {
        r := 1;
      } else if falsified > 0 {
        r := -1;
      } else {
        r := 0;
      }
    }

    /**
     * CARclause_contains_fixed_literal: 1 when the guard is fixed true or the fixed-true literals
     * reach the bound; otherwise -1 when a literal is fixed or the guard is fixed false; else 0.
     */
    method CarClauseContainsFixedLiteral(c: Clause) returns (r: int)
      ensures r == 1 <==> GuardFixed(units, c.guard) > 0 || TrueCount(units, c.lits) >= c.bound
      ensures r == -1 <==> (!(GuardFixed(units, c.guard) > 0 || TrueCount(units, c.lits) >= c.bound) &&
        (TrueCount(units, c.lits) > 0 || FalseCount(units, c.lits) > 0 || GuardFixed(units, c.guard) < 0))
      ensures r == CarStatus(units, c)
    {
      var satisfied, falsified := 0, 0;
      var bound := c.bound;
      for i := 0 to |c.lits|
        invariant satisfied == TrueCount(units, c.lits[..i])
        invariant falsified == FalseCount(units, c.lits[..i])
      {
        assert c.lits[..i + 1][..i] == c.lits[..i];
        var tmp := Fixed(units, c.lits[i]);
        if tmp > 0 {
          satisfied := satisfied + 1;
        }
        if tmp < 0 {
          falsified := falsified + 1;
        }
      }
      assert c.lits[..|c.lits|] == c.lits;
      if c.guard != 0 {
        var tmp := Fixed(units, c.guard);
        if tmp > 0 {
          satisfied := bound;
        }
        if tmp < 0 {
          falsified := falsified + 1;
        }
      }
      if satisfied >= bound {
        r := 1;
      } else if falsified != 0 || satisfied != 0 {
        r := -1;
      } else {
        r := 0;
      }
    }

    /**
     * remove_falsified_literals: with fewer than two non-false literals the clause stays as it
     * is; otherwise exactly its fixed-false literals go and the rest keep their order.
     */
    method RemoveFalsifiedLiterals(lits: seq<int>) returns (r: seq<int>)
      requires forall i :: 0 <= i < |lits| ==> Fixed(units, lits[i]) <= 0
      ensures r == if |NotFalse(units, lits)| < 2 then lits else NotFalse(units, lits)
    {
      var nonFalse, i := 0, 0;
      while nonFalse < 2 && i != |lits|
        invariant 0 <= i <= |lits| && nonFalse <= 2
        invariant nonFalse == |NotFalse(units, lits[..i])|
      {
        assert lits[..i + 1][..i] == lits[..i];
        if Fixed(units, lits[i]) >= 0 {
          nonFalse := nonFalse + 1;
        }
        i := i + 1;
      }
      NotFalsePrefix(units, lits, i);
      if nonFalse < 2 {
        assert lits[..i] == lits;
        return lits;
      }
      r := [];
      for k := 0 to |lits|
        invariant r == NotFalse(units, lits[..k])
      {
        assert lits[..k + 1][..k] == lits[..k];
        var lit := lits[k];
        if Fixed(units, lit) >= 0 {
          r := r + [lit];
        }
      }
      assert lits[..|lits|] == lits;
    }

    /**
     * The literal and bound update of CARremove_falsified_and_satisfied_literals: the bound drops
     * by the number of fixed-true literals, the unfixed literals stay, and a guard fixed false
     * is dropped when watches are kept during collection.
     */
    method CarShrink(c: Clause) returns (d: Clause)
      requires |Unfixed(units, c.lits)| >= 2
      requires c.bound - TrueCount(units, c.lits) > 0
      requires |Unfixed(units, c.lits)| > c.bound - TrueCount(units, c.lits)
      ensures Shrunk(units, watchInGarbage, c, d)
      ensures 1 <= d.bound < |d.lits|
    {
      var nonFalse, numTrue := 0, 0;
      for i := 0 to |c.lits|
        invariant nonFalse == |Unfixed(units, c.lits[..i])|
        invariant numTrue == TrueCount(units, c.lits[..i])
      {
        assert c.lits[..i + 1][..i] == c.lits[..i];
        if Fixed(units, c.lits[i]) == 0 {
          nonFalse := nonFalse + 1;
        }
        if Fixed(units, c.lits[i]) > 0 {
          numTrue := numTrue + 1;
        }
      }
      assert c.lits[..|c.lits|] == c.lits;
      var newBound := c.bound - numTrue;
      var kept: seq<int> := [];
      for k := 0 to |c.lits|
        invariant kept == Unfixed(units, c.lits[..k])
      {
        assert c.lits[..k + 1][..k] == c.lits[..k];
        if Fixed(units, c.lits[k]) == 0 {
          kept := kept + [c.lits[k]];
        }
      }
      assert c.lits[..|c.lits|] == c.lits;
      var guard := c.guard;
      if watchInGarbage && guard != 0 && Fixed(units, guard) < 0 {
        guard := 0;
      }
      d := c.(lits := kept, bound := newBound, guard := guard);
    }

    /**
     * mark_satisfied_clauses_as_garbage: nothing happens unless units were added since the last
     * collection; otherwise the count is recorded and every clause and constraint that is not
     * garbage yet is marked (when satisfied) or shrunk (when it has a fixed literal).
     */
    method MarkSatisfiedClausesAsGarbage()
      requires Consistent(units)
      requires forall i :: 0 <= i < |cards| && !cards[i].garbage ==> Propagated(units, cards[i])
      modifies this`clauses, this`cards, this`lastCollectFixed
      ensures old(lastCollectFixed) >= allFixed ==>
        clauses == old(clauses) && cards == old(cards) && lastCollectFixed == old(lastCollectFixed)
      ensures old(lastCollectFixed) < allFixed ==> (lastCollectFixed == allFixed &&
        |clauses| == |old(clauses)| && (forall i :: 0 <= i < |clauses| ==> clauses[i] == MarkedClause(units, old(clauses)[i])) &&
        |cards| == |old(cards)| && forall i :: 0 <= i < |cards| ==> MarkedCard(units, watchInGarbage, old(cards)[i], cards[i]))
    {
      if lastCollectFixed >= allFixed {
        return;
      }
      lastCollectFixed := allFixed;
      MarkClauses();
      MarkCards();
    }

    /** The clause loop of mark_satisfied_clauses_as_garbage. */
    method MarkClauses()
      modifies this`clauses
      ensures |clauses| == |old(clauses)|
      ensures forall i :: 0 <= i < |clauses| ==> clauses[i] == MarkedClause(units, old(clauses)[i])
    {
      for i := 0 to |clauses|
        invariant |clauses| == |old(clauses)|
        invariant forall j :: 0 <= j < i ==> clauses[j] == MarkedClause(units, old(clauses)[j])
        invariant forall j :: i <= j < |clauses| ==> clauses[j] == old(clauses)[j]
      {
        var c := clauses[i];
        if c.garbage {
          continue;
        }
        var tmp := ClauseContainsFixedLiteral(c);
        if tmp > 0 {
          clauses := clauses[i := c.(garbage := true)];
        } else if tmp < 0 {
          NoTrueCount(units, c.lits);
          var lits := RemoveFalsifiedLiterals(c.lits);
          clauses := clauses[i := c.(lits := lits)];
        }
      }
    }

    /** The constraint loop of mark_satisfied_clauses_as_garbage. */
    method MarkCards()
      requires forall i :: 0 <= i < |cards| && !cards[i].garbage ==> Propagated(units, cards[i])
      modifies this`cards
      ensures |cards| == |old(cards)|
      ensures forall i :: 0 <= i < |cards| ==> MarkedCard(units, watchInGarbage, old(cards)[i], cards[i])
    {
      for i := 0 to |cards|
        invariant |cards| == |old(cards)|
        invariant forall j :: 0 <= j < i ==> MarkedCard(units, watchInGarbage, old(cards)[j], cards[j])
        invariant forall j :: i <= j < |cards| ==> cards[j] == old(cards)[j]
      {
        var c := cards[i];
        if c.garbage {
          continue;
        }
        var tmp := CarClauseContainsFixedLiteral(c);
        if tmp > 0 {
          cards := cards[i := c.(garbage := true)];
        } else if tmp < 0 {
          var d := CarShrink(c);
          cards := cards[i := d];
        }
      }
    }

    /** delete_garbage_clauses: a stable filter keeping the clauses that are not collectable. */
    method DeleteGarbageClauses()
      modifies this`clauses
      ensures clauses == Survivors(old(clauses))
    {
      clauses := Compact(clauses);
    }

    /** CARdelete_garbage_clauses: the same filter over the cardinality constraints. */
    method CarDeleteGarbageClauses()
      modifies this`cards
      ensures cards == Survivors(old(cards))
    {
      cards := Compact(cards);
    }

    /** protect_reasons: flags the reason of every active trail literal and turns protection on. */
    method ProtectReasons()
      requires !protectedReasons
      requires forall t :: t in trail ==> t.reason < |clauses|
      modifies this`clauses, this`protectedReasons
      ensures protectedReasons && clauses == Flagged(old(clauses), ReasonIds(trail), true)
    {
      clauses := SetReasons(clauses, trail, true);
      protectedReasons := true;
    }

    /** unprotect_reasons: clears the flag on the same clauses and turns protection off. */
    method UnprotectReasons()
      requires protectedReasons
      requires forall t :: t in trail ==> t.reason < |clauses|
      modifies this`clauses, this`protectedReasons
      ensures !protectedReasons && clauses == Flagged(old(clauses), ReasonIds(trail), false)
    {
      clauses := SetReasons(clauses, trail, false);
      protectedReasons := false;
    }
  }

  /** The in-place compaction of both deletion loops: copy each clause down unless it is collected. */
  method Compact(cs: seq<Clause>) returns (r: seq<Clause>)
    ensures r == Survivors(cs)
  {
    r := [];
    for i := 0 to |cs|
      invariant r == Survivors(cs[..i])
    {
      assert cs[..i + 1][..i] == cs[..i];
      if !Collectable(cs[i]) {
        r := r + [cs[i]];
      }
    }
    assert cs[..|cs|] == cs;
  }

  /** The trail walk of protect_reasons and unprotect_reasons. */
  method SetReasons(cs: seq<Clause>, trail: seq<TrailLit>, b: bool) returns (r: seq<Clause>)
    requires forall t :: t in trail ==> t.reason < |cs|
    ensures r == Flagged(cs, ReasonIds(trail), b)
  {
    r := cs;
    for k := 0 to |trail|
      invariant r == Flagged(cs, ReasonIds(trail[..k]), b)
    {
      assert trail[..k + 1] == trail[..k] + [trail[k]];
      var t := trail[k];
      if !t.active || t.reason < 0 {
        assert ReasonIds(trail[..k + 1]) == ReasonIds(trail[..k]);
        continue;
      }
      assert ReasonIds(trail[..k + 1]) == ReasonIds(trail[..k]) + {t.reason};
      r := r[t.reason := r[t.reason].(reason := b)];
    }
    assert trail[..|trail|] == trail;
  }
}

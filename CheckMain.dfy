/**
 * The check-sat program (Tools/check-sat/check-sat.cpp, main): the KNF reader hands every
 * constraint of the file to the checker, the assignment is read, and the checker counts and
 * reports. The statements reach the checker through its observer methods, which drop empty
 * constraints and klauses of bound 0 and keep klauses of bound 1 as clauses; what is stored is
 * described by Kept, and the verdict is proved to judge the statements of the file themselves.
 */
module CheckMain {
  import opened Lits
  import opened KnfParse
  import opened CheckSat

  /** What the checker stores: clauses and klauses, each with its weight. */
  datatype Store = Store(clauses: seq<seq<int>>, clauseWeights: seq<int>, cards: seq<Card>, cardWeights: seq<int>)

  /** One statement handed to the checker: Clause drops an empty clause; CardinalityConstraint drops an empty klause or one of bound 0, and stores a klause of bound 1 as a clause. */
  function Keep(s: Store, st: Stmt): Store
  {
    match st
    case ClauseSt(lits, w) =>
      if lits == [] then s else Store(s.clauses + [lits], s.clauseWeights + [w], s.cards, s.cardWeights)
    case CardSt(lits, b, w, g) =>
      if lits == [] || b == 0 then s
      else if b == 1 then Store(s.clauses + [lits], s.clauseWeights + [w], s.cards, s.cardWeights)
      else Store(s.clauses, s.clauseWeights, s.cards + [Card(lits, b, g)], s.cardWeights + [w])
  }

  /** The store after the statements, in file order. */
  function Kept(sts: seq<Stmt>): (r: Store)
    ensures |r.clauseWeights| == |r.clauses| && |r.cardWeights| == |r.cards|
  {
    if sts == [] then Store([], [], [], []) else Keep(Kept(sts[..|sts| - 1]), sts[|sts| - 1])
  }

  /**
   * A statement as the checker judges it: empty constraints and klauses of bound 0 always hold;
   * a klause of bound 1 is a clause, whatever its guard; any other klause holds by its literals,
   * or, when the formula is unweighted, by its guard.
   */
  predicate Holds(st: Stmt, a: Assignment, weighted: bool)
  {
    match st
    case ClauseSt(lits, _) => lits == [] || AtLeast(lits, 1, a)
    case CardSt(lits, b, _, g) =>
      lits == [] || b == 0 || (b == 1 && AtLeast(lits, 1, a)) ||
      (b != 1 && ((!weighted && GuardTrue(g, a)) || AtLeast(lits, b, a)))
  }

  /** Every variable of a statement, its guard included, lies in 1..maxVar. */
  predicate StmtRange(st: Stmt, maxVar: int)
  {
    InRange(st.lits, maxVar) && (st.CardSt? ==> st.guard == 0 || 0 < Abs(st.guard) <= maxVar)
  }

  /** Every stored clause and klause holds (a klause by its guard too, when unweighted). */
  predicate StoreHolds(s: Store, a: Assignment, weighted: bool)
  {
    (forall i :: 0 <= i < |s.clauses| ==> AtLeast(s.clauses[i], 1, a)) &&
    (forall j :: 0 <= j < |s.cards| ==> (!weighted && GuardTrue(s.cards[j].guard, a)) || AtLeast(s.cards[j].lits, s.cards[j].bound, a))
  }

  /** Every stored clause and klause of top weight holds by its literals. */
  predicate StoreHardHolds(s: Store, a: Assignment, maxWeight: int)
    requires |s.clauseWeights| == |s.clauses| && |s.cardWeights| == |s.cards|
  {
    (forall i :: 0 <= i < |s.clauses| ==> s.clauseWeights[i] == maxWeight ==> AtLeast(s.clauses[i], 1, a)) &&
    (forall j :: 0 <= j < |s.cards| ==> s.cardWeights[j] == maxWeight ==> AtLeast(s.cards[j].lits, s.cards[j].bound, a))
  }

  // ----- what is stored, against the statements ---------------------------------------------

  lemma KeepHolds(s: Store, st: Stmt, a: Assignment, weighted: bool)
    ensures StoreHolds(Keep(s, st), a, weighted) <==> StoreHolds(s, a, weighted) && Holds(st, a, weighted)
  {
    var t := Keep(s, st);
    assert forall i :: 0 <= i < |s.clauses| ==> t.clauses[i] == s.clauses[i];
    assert forall j :: 0 <= j < |s.cards| ==> t.cards[j] == s.cards[j];
    match st
    case ClauseSt(lits, w) =>
      if lits != [] {
        assert t.clauses[|s.clauses|] == lits;
      }
    case CardSt(lits, b, w, g) =>
      if lits != [] && b == 1 {
        assert t.clauses[|s.clauses|] == lits;
      } else if lits != [] && b != 0 {
        assert t.cards[|s.cards|] == Card(lits, b, g);
      }
  }

  /** The stored constraints all hold exactly when every statement of the file holds. */
  lemma {:induction false} KeptHolds(sts: seq<Stmt>, a: Assignment, weighted: bool)
    ensures StoreHolds(Kept(sts), a, weighted) <==> forall i :: 0 <= i < |sts| ==> Holds(sts[i], a, weighted)
  {
    if sts != [] {
      var n := |sts| - 1;
      KeptHolds(sts[..n], a, weighted);
      KeepHolds(Kept(sts[..n]), sts[n], a, weighted);
      assert forall i :: 0 <= i < n ==> sts[..n][i] == sts[i];
    }
  }

  lemma KeepHardHolds(s: Store, st: Stmt, a: Assignment, maxWeight: int)
    requires |s.clauseWeights| == |s.clauses| && |s.cardWeights| == |s.cards|
    ensures var t := Keep(s, st);
      |t.clauseWeights| == |t.clauses| && |t.cardWeights| == |t.cards| &&
      (StoreHardHolds(t, a, maxWeight) <==> StoreHardHolds(s, a, maxWeight) && (st.weight == maxWeight ==> Holds(st, a, true)))
  {
    var t := Keep(s, st);
    assert forall i :: 0 <= i < |s.clauses| ==> t.clauses[i] == s.clauses[i] && t.clauseWeights[i] == s.clauseWeights[i];
    assert forall j :: 0 <= j < |s.cards| ==> t.cards[j] == s.cards[j] && t.cardWeights[j] == s.cardWeights[j];
    match st
    case ClauseSt(lits, w) =>
      if lits != [] {
        assert t.clauses[|s.clauses|] == lits && t.clauseWeights[|s.clauses|] == w;
      }
    case CardSt(lits, b, w, g) =>
      if lits != [] && b == 1 {
        assert t.clauses[|s.clauses|] == lits && t.clauseWeights[|s.clauses|] == w;
      } else if lits != [] && b != 0 {
        assert t.cards[|s.cards|] == Card(lits, b, g) && t.cardWeights[|s.cards|] == w;
      }
  }

  /** The stored constraints of top weight all hold exactly when every statement of top weight holds by its literals. */
  lemma {:induction false} KeptHardHolds(sts: seq<Stmt>, a: Assignment, maxWeight: int)
    ensures StoreHardHolds(Kept(sts), a, maxWeight) <==> forall i :: 0 <= i < |sts| ==> sts[i].weight == maxWeight ==> Holds(sts[i], a, true)
  {
    if sts != [] {
      var n := |sts| - 1;
      KeptHardHolds(sts[..n], a, maxWeight);
      KeepHardHolds(Kept(sts[..n]), sts[n], a, maxWeight);
      assert forall i :: 0 <= i < n ==> sts[..n][i] == sts[i];
    }
  }

  /** Every stored constraint lies within maxVar. */
  predicate StoreRange(s: Store, maxVar: int)
  {
    Within(s.clauses, s.cards, maxVar)
  }

  lemma KeepShape(s: Store, st: Stmt, maxVar: int)
    ensures StoreRange(s, maxVar) && StmtRange(st, maxVar) ==> StoreRange(Keep(s, st), maxVar)
  {
    var t := Keep(s, st);
    assert forall i :: 0 <= i < |s.clauses| ==> t.clauses[i] == s.clauses[i];
    assert forall j :: 0 <= j < |s.cards| ==> t.cards[j] == s.cards[j];
  }

  /** Statements in range are stored in range. */
  lemma {:induction false} KeptShape(sts: seq<Stmt>, maxVar: int)
    ensures (forall i :: 0 <= i < |sts| ==> StmtRange(sts[i], maxVar)) ==> StoreRange(Kept(sts), maxVar)
  {
    if sts != [] {
      var n := |sts| - 1;
      assert forall i :: 0 <= i < n ==> sts[..n][i] == sts[i];
      KeptShape(sts[..n], maxVar);
      KeepShape(Kept(sts[..n]), sts[n], maxVar);
    }
  }

  /** A statement the checker stores: not empty, and not a klause of bound 0. */
  predicate Stays(st: Stmt)
  {
    st.lits != [] && !(st.CardSt? && st.bound == 0)
  }

  lemma KeepZero(s: Store, st: Stmt)
    ensures HasZero(Keep(s, st).clauses, Keep(s, st).cards) <==> HasZero(s.clauses, s.cards) || (Stays(st) && 0 in st.lits)
  {
    var t := Keep(s, st);
    assert forall i :: 0 <= i < |s.clauses| ==> t.clauses[i] == s.clauses[i];
    assert forall j :: 0 <= j < |s.cards| ==> t.cards[j] == s.cards[j];
    if Stays(st) {
      if st.CardSt? && st.bound != 1 {
        assert t.cards[|s.cards|].lits == st.lits;
      } else {
        assert t.clauses[|s.clauses|] == st.lits;
      }
    }
  }

  /**
   * A stored constraint has a literal 0 exactly when a statement that is stored has one: an
   * empty statement or a klause of bound 0 is dropped whatever its literals.
   */
  lemma {:induction false} KeptZero(sts: seq<Stmt>)
    ensures HasZero(Kept(sts).clauses, Kept(sts).cards) <==> exists i :: 0 <= i < |sts| && Stays(sts[i]) && 0 in sts[i].lits
  {
    if sts != [] {
      var n := |sts| - 1;
      assert forall i :: 0 <= i < n ==> sts[..n][i] == sts[i];
      KeptZero(sts[..n]);
      KeepZero(Kept(sts[..n]), sts[n]);
    }
  }

  /** The verdict judges the statements of the file under the assignment read. */
  predicate Judged(verdict: Outcome, sts: seq<Stmt>, a: Assignment, maxWeight: int)
  {
    verdict != CountingError &&
    (verdict == Verified <==> forall i :: 0 <= i < |sts| ==> Holds(sts[i], a, maxWeight != -1)) &&
    (maxWeight != -1 ==> (verdict != NotSatisfying <==> forall i :: 0 <= i < |sts| ==> sts[i].weight == maxWeight ==> Holds(sts[i], a, true)))
  }

  /** The checker's verdict over what it stored is a verdict over the statements read. */
  lemma Judgement(sts: seq<Stmt>, cls: seq<seq<int>>, cws: seq<int>, cards: seq<Card>, kws: seq<int>, a: Assignment, maxWeight: int, verdict: Outcome)
    requires Store(cls, cws, cards, kws) == Kept(sts)
    requires Judges(verdict, cls, cws, cards, kws, a, maxWeight)
    ensures Judged(verdict, sts, a, maxWeight)
  {
    KeptHolds(sts, a, maxWeight != -1);
    KeptHardHolds(sts, a, maxWeight);
  }

  // ----- the program ---------------------------------------------------------------------

  /** How a run of check-sat ends. */
  datatype Run =
    | Refused(why: Failure)   // the reader stopped the program (or spins, for Diverges)
    | DividesByZero           // counting reached a literal 0, whose sign abs(lit)/lit divides by zero
    | AssignmentStops         // a variable appears twice in the assignment
    | OutOfRange              // counting reached a variable past the header's count: get_value stops the program
    | Checked(verdict: Outcome)

  /**
   * How the run over the statements read must end: the assignment is read first and stops the
   * program on a repeated variable; then the counting over what was stored stops the program
   * where Halts says, for its reason; a store within the header's variables is always checked,
   * and the verdict judges the file's statements under the assignment read.
   */
  predicate Ends(r: Run, h: HeaderInfo, sts: seq<Stmt>, toks: seq<Token>)
  {
    var asg := Assigned(seq(Size(h.maxVar), _ => 0), h.maxVar, toks);
    var s := Kept(sts);
    (r == AssignmentStops <==> asg.None?) && !r.Refused? &&
    (asg.Some? ==>
      var halt := Halts(Defaulted(asg.value), h.maxVar, h.maxWeight, s.clauses, s.clauseWeights, s.cards, s.cardWeights);
      (r == DividesByZero <==> halt == Some(DivZero)) && (r == OutOfRange <==> halt == Some(PastMax)) &&
      (StoreRange(s, h.maxVar) ==> r.Checked? && Judged(r.verdict, sts, Truth(Defaulted(asg.value)), h.maxWeight)))
  }

  /**
   * A run divides by zero only when a statement the checker stores has a literal 0, and stops
   * at get_value only when a stored literal or guard lies past the header's count.
   */
  lemma StopsMeaning(r: Run, h: HeaderInfo, sts: seq<Stmt>, toks: seq<Token>)
    requires Ends(r, h, sts, toks)
    ensures r == DividesByZero ==> exists i :: 0 <= i < |sts| && Stays(sts[i]) && 0 in sts[i].lits
    ensures r == OutOfRange ==> PastMaxVar(Kept(sts).clauses, Kept(sts).cards, h.maxVar)
  {
    var asg := Assigned(seq(Size(h.maxVar), _ => 0), h.maxVar, toks);
    var s := Kept(sts);
    if asg.Some? {
      HaltsMeaning(Defaulted(asg.value), h.maxVar, h.maxWeight, s.clauses, s.clauseWeights, s.cards, s.cardWeights);
      KeptZero(sts);
    }
  }

  /** The reader's calls of Clause and CardinalityConstraint, one per statement in file order. */
  method Load(chk: KnfCheck, sts: seq<Stmt>)
    requires chk.Stored() && chk.clauses == [] && chk.clauseWeights == [] && chk.cards == [] && chk.cardWeights == []
    modifies chk`clauses, chk`clauseWeights, chk`cards, chk`cardWeights, chk`accSoftWeight
    ensures chk.Stored() && Store(chk.clauses, chk.clauseWeights, chk.cards, chk.cardWeights) == Kept(sts)
  {
    var i := 0;
    while i < |sts|
      invariant 0 <= i <= |sts| && chk.Stored()
      invariant Store(chk.clauses, chk.clauseWeights, chk.cards, chk.cardWeights) == Kept(sts[..i])
    {
      assert sts[..i + 1][..i] == sts[..i];
      match sts[i] {
        case ClauseSt(lits, w) => chk.Clause(lits, w);
        case CardSt(lits, b, w, g) => chk.CardinalityConstraint(lits, b, w, g);
      }
      i := i + 1;
    }
    assert sts[..i] == sts;
  }

  /**
   * The part of main after reading: the checker is built, given the header and the
   * statements, then reads the assignment and checks.
   */
  method CheckStatements(h: HeaderInfo, sts: seq<Stmt>, toks: seq<Token>) returns (r: Run)
    ensures Ends(r, h, sts, toks)
  {
    var chk := new KnfCheck();
    chk.Header(h.maxVar, h.maxCls, h.maxWeight);
    Load(chk, sts);
    var ok := chk.ParseAssignment(toks);
    if !ok {
      return AssignmentStops;
    }
    var halt, verdict := chk.Check();
    if halt == Some(DivZero) {
      return DividesByZero;
    } else if halt == Some(PastMax) {
      return OutOfRange;
    }
    if Total01(chk.assignment) && Within(chk.clauses, chk.cards, h.maxVar) {
      Judgement(sts, chk.clauses, chk.clauseWeights, chk.cards, chk.cardWeights, Truth(chk.assignment), h.maxWeight, verdict);
    }
    r := Checked(verdict);
  }

  /**
   * main without the conversion and partition options: read the file, hand the statements to
   * the checker, read the assignment, check. A file the reader refuses ends the run; a file it
   * accepts ends as Ends says: a repeated variable in the assignment, then a literal 0 or a
   * variable past the header's count met while counting, stop the program; otherwise the
   * verdict is Verified exactly when every statement holds (with weights: is not NotSatisfying
   * exactly when every statement of top weight holds).
   */
  method CheckFile(text: string, input: InputType, toks: seq<Token>) returns (r: Run)
    ensures ReadKnf(text, input).Rejected? ==> r == Refused(ReadKnf(text, input).why)
    ensures ReadKnf(text, input).Parsed? ==> Ends(r, ReadKnf(text, input).header, ReadKnf(text, input).stmts, toks)
  {
    var p := Parse(text, input);
    if p.Rejected? {
      return Refused(p.why);
    }
    r := CheckStatements(p.header, p.stmts, toks);
  }
}

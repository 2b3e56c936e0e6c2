/**
 * The KNF solution checker (Tools/check-sat/check-sat.hpp, class KnfCheck). The parser hands
 * it clauses and klauses one by one; an assignment file gives a sign to every variable; the
 * checker then counts the satisfied and falsified constraints (split into hard and soft ones
 * when the formula is weighted) and reports whether the assignment satisfies the formula.
 * Assignment entries are 1 (true), -1 (false) or 0 (not yet given); a literal is true when
 * the entry of its variable equals its sign, abs(lit)/lit.
 */
module CheckSat {
  import opened Lits

  /** A stored klause: its literals, bound and guard literal (0 when unguarded). */
  datatype Card = Card(lits: seq<int>, bound: int, guard: int)

  /** Satisfied and falsified counts, split into hard and soft, with the weights of the soft ones. */
  datatype Tally = Tally(hardSat: nat, hardUnsat: nat, softSat: nat, softUnsat: nat, softSatWeight: int, softUnsatWeight: int)

  /** printResult's verdicts; HardOnly is the weighted case where only soft constraints are falsified. */
  datatype Outcome = CountingError | Verified | HardOnly | NotSatisfying

  /**
   * Why counting stops the program: a variable past maxVar, where get_value exits, or a
   * literal 0, where abs(lit)/lit divides by zero.
   */
  datatype Halt = PastMax | DivZero

  /** What a counting loop reaches, or the reason it stops the program. */
  datatype Counted<T> = Counted(value: T) | Halted(why: Halt)

  /** abs(lit)/lit: the entry that makes the literal true. */
  function Sign(lit: int): int { if lit > 0 then 1 else -1 }

  /** The entries an assignment has once read: index 0 up to maxVar. */
  function Size(maxVar: int): nat { if maxVar >= 0 then maxVar + 1 else 0 }

  /**
   * Why a literal whose variable is not in 1..maxVar stops the count: get_value is called
   * first, so a variable past maxVar wins over a literal 0.
   */
  function HaltAt(l: int, maxVar: int): Halt { if Abs(l) > maxVar then PastMax else DivZero }

  // ----- counting, as specification functions ----------------------------------------

  /**
   * The number of literals whose variable holds their sign, or where the count stops the
   * program: at the first literal whose variable is past maxVar or which is 0.
   */
  function SatCount(asg: seq<int>, maxVar: int, lits: seq<int>): (r: Counted<nat>)
    requires |asg| == Size(maxVar)
    ensures r.Counted? ==> r.value <= |lits|
  {
    if lits == [] then Counted(0)
    else
      match SatCount(asg, maxVar, lits[..|lits| - 1])
      case Halted(w) => Halted(w)
      case Counted(n) =>
        var l := lits[|lits| - 1];
        if Abs(l) > maxVar then Halted(PastMax)
        else if l == 0 then Halted(DivZero)
        else Counted(n + if asg[Abs(l)] == Sign(l) then 1 else 0)
  }

  /** A clause holds when at least one literal does. */
  function ClauseHolds(asg: seq<int>, maxVar: int, lits: seq<int>): Counted<bool>
    requires |asg| == Size(maxVar)
  {
    match SatCount(asg, maxVar, lits)
    case Halted(w) => Halted(w)
    case Counted(n) => Counted(n >= 1)
  }

  /** A klause holds when its guard is set to its sign (the literals are then not looked at) or enough literals hold. */
  function CardHolds(asg: seq<int>, maxVar: int, c: Card): Counted<bool>
    requires |asg| == Size(maxVar)
  {
    if c.guard != 0 && Abs(c.guard) > maxVar then Halted(PastMax)
    else if c.guard != 0 && asg[Abs(c.guard)] == Sign(c.guard) then Counted(true)
    else
      match SatCount(asg, maxVar, c.lits)
      case Halted(w) => Halted(w)
      case Counted(n) => Counted(n >= c.bound)
  }

  /** checkSat's clause loop: (satisfied, falsified), or where it stops the program. */
  function ClauseTally(asg: seq<int>, maxVar: int, cls: seq<seq<int>>): (r: Counted<(nat, nat)>)
    requires |asg| == Size(maxVar)
    ensures r.Counted? ==> r.value.0 + r.value.1 == |cls|
  {
    if cls == [] then Counted((0, 0))
    else
      match ClauseTally(asg, maxVar, cls[..|cls| - 1])
      case Halted(w) => Halted(w)
      case Counted((s, u)) =>
        match ClauseHolds(asg, maxVar, cls[|cls| - 1])
        case Halted(w) => Halted(w)
        case Counted(b) => if b then Counted((s + 1, u)) else Counted((s, u + 1))
  }

  /** checkSat's klause loop. */
  function CardTally(asg: seq<int>, maxVar: int, cards: seq<Card>): (r: Counted<(nat, nat)>)
    requires |asg| == Size(maxVar)
    ensures r.Counted? ==> r.value.0 + r.value.1 == |cards|
  {
    if cards == [] then Counted((0, 0))
    else
      match CardTally(asg, maxVar, cards[..|cards| - 1])
      case Halted(w) => Halted(w)
      case Counted((s, u)) =>
        match CardHolds(asg, maxVar, cards[|cards| - 1])
        case Halted(w) => Halted(w)
        case Counted(b) => if b then Counted((s + 1, u)) else Counted((s, u + 1))
  }

  /** One constraint entered into a weighted tally: hard when its weight is the top weight. */
  function Count(t: Tally, holds: bool, weight: int, maxWeight: int): Tally
  {
    if holds then
      if weight == maxWeight then t.(hardSat := t.hardSat + 1)
      else t.(softSat := t.softSat + 1, softSatWeight := t.softSatWeight + weight)
    else
      if weight == maxWeight then t.(hardUnsat := t.hardUnsat + 1)
      else t.(softUnsat := t.softUnsat + 1, softUnsatWeight := t.softUnsatWeight + weight)
  }

  const Zero := Tally(0, 0, 0, 0, 0, 0)

  function Total(t: Tally): nat { t.hardSat + t.hardUnsat + t.softSat + t.softUnsat }

  /** checkMaxSat's clause loop. */
  function ClauseMaxTally(asg: seq<int>, maxVar: int, cls: seq<seq<int>>, ws: seq<int>, maxWeight: int): (r: Counted<Tally>)
    requires |asg| == Size(maxVar) && |ws| == |cls|
    ensures r.Counted? ==> |cls| > 0 || r.value == Zero
  {
    if cls == [] then Counted(Zero)
    else
      var n := |cls| - 1;
      match ClauseMaxTally(asg, maxVar, cls[..n], ws[..n], maxWeight)
      case Halted(w) => Halted(w)
      case Counted(t) =>
        match ClauseHolds(asg, maxVar, cls[n])
        case Halted(w) => Halted(w)
        case Counted(b) => Counted(Count(t, b, ws[n], maxWeight))
  }

  /** checkMaxSat's klause loop: the guards play no part here. */
  function CardMaxTally(asg: seq<int>, maxVar: int, cards: seq<Card>, ws: seq<int>, maxWeight: int): (r: Counted<Tally>)
    requires |asg| == Size(maxVar) && |ws| == |cards|
    ensures r.Counted? ==> |cards| > 0 || r.value == Zero
  {
    if cards == [] then Counted(Zero)
    else
      var n := |cards| - 1;
      match CardMaxTally(asg, maxVar, cards[..n], ws[..n], maxWeight)
      case Halted(w) => Halted(w)
      case Counted(t) =>
        match SatCount(asg, maxVar, cards[n].lits)
        case Halted(w) => Halted(w)
        case Counted(k) => Counted(Count(t, k >= cards[n].bound, ws[n], maxWeight))
  }

  /** Where a loop over the clauses followed by a loop over the klauses stops the program, if it does. */
  function Halting<A, B>(first: Counted<A>, second: Counted<B>): (r: Option<Halt>)
    ensures r.None? <==> first.Counted? && second.Counted?
  {
    if first.Halted? then Some(first.why) else if second.Halted? then Some(second.why) else None
  }

  /** Where main's checking step stops the program: checkMaxSat when weighted, checkSat otherwise. */
  function Halts(asg: seq<int>, maxVar: int, maxWeight: int, cls: seq<seq<int>>, cws: seq<int>, cards: seq<Card>, kws: seq<int>): Option<Halt>
    requires |asg| == Size(maxVar) && |cws| == |cls| && |kws| == |cards|
  {
    if maxWeight != -1 then Halting(ClauseMaxTally(asg, maxVar, cls, cws, maxWeight), CardMaxTally(asg, maxVar, cards, kws, maxWeight))
    else Halting(ClauseTally(asg, maxVar, cls), CardTally(asg, maxVar, cards))
  }

  // ----- the assignment file (default format) -----------------------------------------

  /** A whitespace-separated field of the assignment file: a "v" or "i" marker, or a number. */
  datatype Token = Marker | Num(n: int)

  /**
   * The default-format reading loop: markers and literals past maxVar are skipped; a variable
   * that already has an entry stops the program (None); a 0 is skipped; any other literal
   * sets its variable's entry to its sign.
   */
  function Assigned(asg: seq<int>, maxVar: int, toks: seq<Token>): (r: Option<seq<int>>)
    requires |asg| == Size(maxVar)
    ensures r.Some? ==> |r.value| == |asg|
  {
    if toks == [] then Some(asg)
    else
      match Assigned(asg, maxVar, toks[..|toks| - 1])
      case None => None
      case Some(cur) => Take(cur, maxVar, toks[|toks| - 1])
  }

  /** One field of the reading loop. */
  function Take(cur: seq<int>, maxVar: int, t: Token): (r: Option<seq<int>>)
    requires |cur| == Size(maxVar)
    ensures r.Some? ==> |r.value| == |cur|
  {
    match t
    case Marker => Some(cur)
    case Num(l) =>
      if Abs(l) > maxVar then Some(cur)
      else if cur[Abs(l)] != 0 then None
      else if l == 0 then Some(cur)
      else Some(cur[Abs(l) := Sign(l)])
  }

  /** After the reading loop every entry still 0 becomes -1: variables not listed are false. */
  function Defaulted(asg: seq<int>): (r: seq<int>)
    ensures |r| == |asg| && forall v :: 0 <= v < |asg| ==> r[v] == (if asg[v] == 0 then -1 else asg[v])
  {
    seq(|asg|, v requires 0 <= v < |asg| => if asg[v] == 0 then -1 else asg[v])
  }

  /** Two fields name the same variable in range (index 0 included only through a nonzero literal). */
  predicate Repeated(toks: seq<Token>, maxVar: int)
  {
    exists i, j :: 0 <= i < j < |toks| && toks[i].Num? && toks[j].Num? && toks[i].n != 0 &&
      Abs(toks[i].n) == Abs(toks[j].n) && Abs(toks[i].n) <= maxVar
  }

  /** The literal field for variable v, if the prefix holds one. */
  predicate Lists(toks: seq<Token>, lit: int)
  {
    exists i :: 0 <= i < |toks| && toks[i] == Num(lit)
  }

  /** The state the reading loop keeps: no repeat so far, and each entry says which literal of its variable was listed. */
  predicate Describes(cur: seq<int>, maxVar: int, toks: seq<Token>)
    requires |cur| == Size(maxVar)
  {
    (Size(maxVar) > 0 ==> cur[0] == 0) &&
    forall v :: 1 <= v <= maxVar ==>
      (cur[v] == 1 <==> Lists(toks, v)) && (cur[v] == -1 <==> Lists(toks, -v)) && (cur[v] == 0 || cur[v] == 1 || cur[v] == -1)
  }

  /**
   * The reading loop, characterised on its own terms: it fails exactly when a variable in
   * range is listed twice, and otherwise variable v holds 1 when v is listed, -1 when -v is,
   * and 0 when neither is.
   */
  lemma {:induction false} AssignedMeaning(maxVar: int, toks: seq<Token>)
    ensures var zero := seq(Size(maxVar), _ => 0);
      var r := Assigned(zero, maxVar, toks);
      (r.None? <==> Repeated(toks, maxVar)) && (r.Some? ==> Describes(r.value, maxVar, toks))
  {
    var zero := seq(Size(maxVar), _ => 0);
    if toks != [] {
      var init := toks[..|toks| - 1];
      AssignedMeaning(maxVar, init);
      RepeatedSnoc(toks, maxVar);
      var r0 := Assigned(zero, maxVar, init);
      if r0.Some? {
        TakeMeaning(r0.value, maxVar, toks);
      }
    }
  }

  /** One field keeps the description, or meets an earlier field of the same variable. */
  lemma TakeMeaning(cur: seq<int>, maxVar: int, toks: seq<Token>)
    requires toks != [] && |cur| == Size(maxVar)
    requires !Repeated(toks[..|toks| - 1], maxVar) && Describes(cur, maxVar, toks[..|toks| - 1])
    ensures var t := toks[|toks| - 1];
      (Take(cur, maxVar, t).None? <==> (t.Num? && t.n != 0 && Abs(t.n) <= maxVar &&
        (Lists(toks[..|toks| - 1], Abs(t.n)) || Lists(toks[..|toks| - 1], -(Abs(t.n) as int))))) &&
      (Take(cur, maxVar, t).Some? ==> Describes(Take(cur, maxVar, t).value, maxVar, toks))
  {
    var init, t := toks[..|toks| - 1], toks[|toks| - 1];
    ListsSnoc(toks);
    if t.Num? && Abs(t.n) <= maxVar && t.n != 0 {
      var x: int := Abs(t.n);
      assert cur[x] != 0 <==> Lists(init, x) || Lists(init, -x);
    }
  }

  /** A repeat in the extended list is one in the prefix, or the last field meeting an earlier one. */
  lemma RepeatedSnoc(toks: seq<Token>, maxVar: int)
    requires toks != []
    ensures var init, t := toks[..|toks| - 1], toks[|toks| - 1];
      Repeated(toks, maxVar) <==> (Repeated(init, maxVar) ||
        (t.Num? && t.n != 0 && Abs(t.n) <= maxVar && (Lists(init, Abs(t.n)) || Lists(init, -(Abs(t.n) as int)))))
  {
    var init, t := toks[..|toks| - 1], toks[|toks| - 1];
    if Repeated(toks, maxVar) {
      RepeatedSnocDown(toks, maxVar);
    }
    if Repeated(init, maxVar) {
      var i, j :| 0 <= i < j < |init| && init[i].Num? && init[j].Num? && init[i].n != 0 &&
        Abs(init[i].n) == Abs(init[j].n) && Abs(init[i].n) <= maxVar;
      assert toks[i] == init[i] && toks[j] == init[j];
    }
    if t.Num? && t.n != 0 && Abs(t.n) <= maxVar {
      var x: int := Abs(t.n);
      if Lists(init, x) {
        var i :| 0 <= i < |init| && init[i] == Num(x);
        assert toks[i] == init[i];
      }
      if Lists(init, -x) {
        var i :| 0 <= i < |init| && init[i] == Num(-x);
        assert toks[i] == init[i];
      }
    }
  }

  lemma RepeatedSnocDown(toks: seq<Token>, maxVar: int)
    requires toks != [] && Repeated(toks, maxVar)
    ensures var init, t := toks[..|toks| - 1], toks[|toks| - 1];
      Repeated(init, maxVar) ||
        (t.Num? && t.n != 0 && Abs(t.n) <= maxVar && (Lists(init, Abs(t.n)) || Lists(init, -(Abs(t.n) as int))))
  {
    var init, t := toks[..|toks| - 1], toks[|toks| - 1];
    var i, j :| 0 <= i < j < |toks| && toks[i].Num? && toks[j].Num? && toks[i].n != 0 &&
      Abs(toks[i].n) == Abs(toks[j].n) && Abs(toks[i].n) <= maxVar;
    assert init[i] == toks[i];
    if j == |toks| - 1 {
      var x: int := Abs(t.n);
      if toks[i].n == x { assert Lists(init, x); } else { assert Lists(init, -x); }
    } else {
      assert init[j] == toks[j];
    }
  }

  lemma ListsSnoc(toks: seq<Token>)
    requires toks != []
    ensures forall lit :: Lists(toks, lit) <==> Lists(toks[..|toks| - 1], lit) || toks[|toks| - 1] == Num(lit)
  {
    var init := toks[..|toks| - 1];
    forall lit ensures Lists(toks, lit) <==> Lists(init, lit) || toks[|toks| - 1] == Num(lit) {
      if Lists(init, lit) {
        var i :| 0 <= i < |init| && init[i] == Num(lit);
        assert toks[i] == init[i];
      }
    }
  }

  // ----- from entries to the truth of literals ----------------------------------------

  /** The assignment as a set of true variables. */
  function Truth(asg: seq<int>): Assignment
  {
    set v | 0 < v < |asg| && asg[v] == 1
  }

  /** Every entry from 1 on is 1 or -1, as after Defaulted. */
  predicate Total01(asg: seq<int>) { forall v :: 0 < v < |asg| ==> asg[v] == 1 || asg[v] == -1 }

  /** Every variable lies in 1..maxVar. */
  predicate InRange(lits: seq<int>, maxVar: int) { forall i :: 0 <= i < |lits| ==> 0 < Abs(lits[i]) <= maxVar }

  /**
   * The count finishes exactly when every literal names a variable in 1..maxVar, and over a
   * total assignment it is then the number of true literals.
   */
  lemma {:induction false} SatCountMeaning(asg: seq<int>, maxVar: int, lits: seq<int>)
    requires |asg| == Size(maxVar) && Total01(asg)
    ensures SatCount(asg, maxVar, lits).Counted? <==> InRange(lits, maxVar)
    ensures InRange(lits, maxVar) ==> SatCount(asg, maxVar, lits) == Counted(CountTrue(lits, Truth(asg)))
  {
    if lits != [] {
      var init := lits[..|lits| - 1];
      SatCountMeaning(asg, maxVar, init);
      var l := lits[|lits| - 1];
      assert forall i :: 0 <= i < |init| ==> init[i] == lits[i];
      if InRange(lits, maxVar) {
        assert InRange(init, maxVar);
        assert asg[Abs(l)] == Sign(l) <==> LitTrue(Truth(asg), l);
      }
    }
  }

  /**
   * A count that stops the program stops at the first literal not in 1..maxVar, for the
   * reason that literal gives: past maxVar, or a 0 that is divided by.
   */
  lemma {:induction false} SatCountHalts(asg: seq<int>, maxVar: int, lits: seq<int>)
    requires |asg| == Size(maxVar)
    ensures SatCount(asg, maxVar, lits).Halted? ==>
      exists i :: 0 <= i < |lits| && InRange(lits[..i], maxVar) && !(0 < Abs(lits[i]) <= maxVar) &&
        SatCount(asg, maxVar, lits).why == HaltAt(lits[i], maxVar)
  {
    if lits != [] {
      var n := |lits| - 1;
      var init := lits[..n];
      SatCountHalts(asg, maxVar, init);
      if SatCount(asg, maxVar, init).Halted? {
        var i :| 0 <= i < |init| && InRange(init[..i], maxVar) && !(0 < Abs(init[i]) <= maxVar) &&
          SatCount(asg, maxVar, init).why == HaltAt(init[i], maxVar);
        assert init[..i] == lits[..i];
      } else if SatCount(asg, maxVar, lits).Halted? {
        CountedInRange(asg, maxVar, init);
        assert lits[..n] == init;
      }
    }
  }

  /** A count that finishes has met only variables in 1..maxVar. */
  lemma {:induction false} CountedInRange(asg: seq<int>, maxVar: int, lits: seq<int>)
    requires |asg| == Size(maxVar) && SatCount(asg, maxVar, lits).Counted?
    ensures InRange(lits, maxVar)
  {
    if lits != [] {
      var init := lits[..|lits| - 1];
      CountedInRange(asg, maxVar, init);
      assert forall i :: 0 <= i < |init| ==> init[i] == lits[i];
    }
  }

  /** A guard literal that is set: the klause is then satisfied whatever its literals. */
  predicate GuardTrue(g: int, a: Assignment) { g != 0 && LitTrue(a, g) }

  predicate CardRange(c: Card, maxVar: int) { InRange(c.lits, maxVar) && (c.guard == 0 || 0 < Abs(c.guard) <= maxVar) }

  /** Every stored constraint names only variables of the header. */
  predicate Within(cls: seq<seq<int>>, cards: seq<Card>, maxVar: int)
  {
    (forall i :: 0 <= i < |cls| ==> InRange(cls[i], maxVar)) &&
    (forall i :: 0 <= i < |cards| ==> CardRange(cards[i], maxVar))
  }

  /**
   * What printResult's verdict means over an assignment: without weights Verified exactly when
   * every clause holds and every klause holds by its guard or its literals; with weights
   * Verified exactly when every constraint holds by its literals, and anything but
   * NotSatisfying exactly when the constraints of top weight hold.
   */
  predicate Judges(verdict: Outcome, cls: seq<seq<int>>, cws: seq<int>, cards: seq<Card>, kws: seq<int>, a: Assignment, maxWeight: int)
  {
    |cws| == |cls| && |kws| == |cards| && verdict != CountingError &&
    (maxWeight == -1 ==> (verdict == Verified <==>
      (forall i :: 0 <= i < |cls| ==> AtLeast(cls[i], 1, a)) &&
      (forall i :: 0 <= i < |cards| ==> GuardTrue(cards[i].guard, a) || AtLeast(cards[i].lits, cards[i].bound, a)))) &&
    (maxWeight != -1 ==> (verdict == Verified <==>
      (forall i :: 0 <= i < |cls| ==> AtLeast(cls[i], 1, a)) &&
      (forall i :: 0 <= i < |cards| ==> AtLeast(cards[i].lits, cards[i].bound, a)))) &&
    (maxWeight != -1 ==> (verdict != NotSatisfying <==>
      (forall i :: 0 <= i < |cls| ==> cws[i] == maxWeight ==> AtLeast(cls[i], 1, a)) &&
      (forall i :: 0 <= i < |cards| ==> kws[i] == maxWeight ==> AtLeast(cards[i].lits, cards[i].bound, a))))
  }

  /** Over a total assignment with every variable in range, the clause loop finishes and falsifies nothing exactly when every clause holds. */
  lemma {:induction false} ClauseTallyMeaning(asg: seq<int>, maxVar: int, cls: seq<seq<int>>)
    requires |asg| == Size(maxVar) && Total01(asg)
    requires forall i :: 0 <= i < |cls| ==> InRange(cls[i], maxVar)
    ensures ClauseTally(asg, maxVar, cls).Counted?
    ensures ClauseTally(asg, maxVar, cls).value.1 == 0 <==> forall i :: 0 <= i < |cls| ==> AtLeast(cls[i], 1, Truth(asg))
  {
    if cls != [] {
      var n := |cls| - 1;
      ClauseTallyMeaning(asg, maxVar, cls[..n]);
      SatCountMeaning(asg, maxVar, cls[n]);
      assert forall i :: 0 <= i < n ==> cls[..n][i] == cls[i];
    }
  }

  /** The same for the klause loop, where a set guard satisfies the klause. */
  lemma {:induction false} CardTallyMeaning(asg: seq<int>, maxVar: int, cards: seq<Card>)
    requires |asg| == Size(maxVar) && Total01(asg)
    requires forall i :: 0 <= i < |cards| ==> CardRange(cards[i], maxVar)
    ensures CardTally(asg, maxVar, cards).Counted?
    ensures CardTally(asg, maxVar, cards).value.1 == 0 <==>
      forall i :: 0 <= i < |cards| ==> GuardTrue(cards[i].guard, Truth(asg)) || AtLeast(cards[i].lits, cards[i].bound, Truth(asg))
  {
    if cards != [] {
      var n := |cards| - 1;
      var c := cards[n];
      CardTallyMeaning(asg, maxVar, cards[..n]);
      SatCountMeaning(asg, maxVar, c.lits);
      assert forall i :: 0 <= i < n ==> cards[..n][i] == cards[i];
      if c.guard != 0 {
        assert asg[Abs(c.guard)] == Sign(c.guard) <==> LitTrue(Truth(asg), c.guard);
      }
    }
  }

  /** Every clause is counted once: the four counts add up to the number of clauses. */
  lemma {:induction false} ClauseMaxTotal(asg: seq<int>, maxVar: int, cls: seq<seq<int>>, ws: seq<int>, maxWeight: int)
    requires |asg| == Size(maxVar) && |ws| == |cls|
    ensures ClauseMaxTally(asg, maxVar, cls, ws, maxWeight).Counted? ==> Total(ClauseMaxTally(asg, maxVar, cls, ws, maxWeight).value) == |cls|
  {
    if cls != [] {
      var n := |cls| - 1;
      ClauseMaxTotal(asg, maxVar, cls[..n], ws[..n], maxWeight);
      var r0 := ClauseMaxTally(asg, maxVar, cls[..n], ws[..n], maxWeight);
      var h := ClauseHolds(asg, maxVar, cls[n]);
      if r0.Counted? && h.Counted? {
        CountSums(r0.value, h.value, ws[n], maxWeight);
      }
    }
  }

  /** The same for klauses. */
  lemma {:induction false} CardMaxTotal(asg: seq<int>, maxVar: int, cards: seq<Card>, ws: seq<int>, maxWeight: int)
    requires |asg| == Size(maxVar) && |ws| == |cards|
    ensures CardMaxTally(asg, maxVar, cards, ws, maxWeight).Counted? ==> Total(CardMaxTally(asg, maxVar, cards, ws, maxWeight).value) == |cards|
  {
    if cards != [] {
      var n := |cards| - 1;
      CardMaxTotal(asg, maxVar, cards[..n], ws[..n], maxWeight);
      var r0 := CardMaxTally(asg, maxVar, cards[..n], ws[..n], maxWeight);
      var k := SatCount(asg, maxVar, cards[n].lits);
      if r0.Counted? && k.Counted? {
        CountSums(r0.value, k.value >= cards[n].bound, ws[n], maxWeight);
      }
    }
  }

  /**
   * checkMaxSat's clause loop over a total assignment with every variable in range: it finishes,
   * falsifies nothing exactly when every clause holds, and no hard clause exactly when every
   * clause of top weight holds.
   */
  lemma {:induction false} ClauseMaxMeaning(asg: seq<int>, maxVar: int, cls: seq<seq<int>>, ws: seq<int>, maxWeight: int)
    requires |asg| == Size(maxVar) && Total01(asg) && |ws| == |cls|
    requires forall i :: 0 <= i < |cls| ==> InRange(cls[i], maxVar)
    ensures ClauseMaxTally(asg, maxVar, cls, ws, maxWeight).Counted?
    ensures var t := ClauseMaxTally(asg, maxVar, cls, ws, maxWeight).value;
      (t.hardUnsat + t.softUnsat == 0 <==> forall i :: 0 <= i < |cls| ==> AtLeast(cls[i], 1, Truth(asg))) &&
      (t.hardUnsat == 0 <==> forall i :: 0 <= i < |cls| ==> ws[i] == maxWeight ==> AtLeast(cls[i], 1, Truth(asg)))
  {
    if cls != [] {
      var n := |cls| - 1;
      ClauseMaxMeaning(asg, maxVar, cls[..n], ws[..n], maxWeight);
      SatCountMeaning(asg, maxVar, cls[n]);
      assert forall i :: 0 <= i < n ==> cls[..n][i] == cls[i] && ws[..n][i] == ws[i];
      var r0 := ClauseMaxTally(asg, maxVar, cls[..n], ws[..n], maxWeight).value;
      var h := AtLeast(cls[n], 1, Truth(asg));
      CountSums(r0, h, ws[n], maxWeight);
      assert ClauseMaxTally(asg, maxVar, cls, ws, maxWeight) == Counted(Count(r0, h, ws[n], maxWeight));
    }
  }

  /** The same for checkMaxSat's klause loop, where guards play no part. */
  lemma {:induction false} CardMaxMeaning(asg: seq<int>, maxVar: int, cards: seq<Card>, ws: seq<int>, maxWeight: int)
    requires |asg| == Size(maxVar) && Total01(asg) && |ws| == |cards|
    requires forall i :: 0 <= i < |cards| ==> CardRange(cards[i], maxVar)
    ensures CardMaxTally(asg, maxVar, cards, ws, maxWeight).Counted?
    ensures var t := CardMaxTally(asg, maxVar, cards, ws, maxWeight).value;
      (t.hardUnsat + t.softUnsat == 0 <==> forall i :: 0 <= i < |cards| ==> AtLeast(cards[i].lits, cards[i].bound, Truth(asg))) &&
      (t.hardUnsat == 0 <==> forall i :: 0 <= i < |cards| ==> ws[i] == maxWeight ==> AtLeast(cards[i].lits, cards[i].bound, Truth(asg)))
  {
    if cards != [] {
      var n := |cards| - 1;
      CardMaxMeaning(asg, maxVar, cards[..n], ws[..n], maxWeight);
      SatCountMeaning(asg, maxVar, cards[n].lits);
      assert forall i :: 0 <= i < n ==> cards[..n][i] == cards[i] && ws[..n][i] == ws[i];
      var r0 := CardMaxTally(asg, maxVar, cards[..n], ws[..n], maxWeight).value;
      var h := AtLeast(cards[n].lits, cards[n].bound, Truth(asg));
      CountSums(r0, h, ws[n], maxWeight);
      assert CardMaxTally(asg, maxVar, cards, ws, maxWeight) == Counted(Count(r0, h, ws[n], maxWeight));
    }
  }

  /** checkMaxSat counts, hard and soft together, what checkSat counts. */
  lemma {:induction false} ClauseMaxAgrees(asg: seq<int>, maxVar: int, cls: seq<seq<int>>, ws: seq<int>, maxWeight: int)
    requires |asg| == Size(maxVar) && |ws| == |cls|
    ensures ClauseMaxTally(asg, maxVar, cls, ws, maxWeight).Counted? <==> ClauseTally(asg, maxVar, cls).Counted?
    ensures ClauseTally(asg, maxVar, cls).Counted? ==>
      var t := ClauseMaxTally(asg, maxVar, cls, ws, maxWeight).value;
      t.hardSat + t.softSat == ClauseTally(asg, maxVar, cls).value.0 &&
      t.hardUnsat + t.softUnsat == ClauseTally(asg, maxVar, cls).value.1
  {
    if cls != [] {
      var n := |cls| - 1;
      ClauseMaxAgrees(asg, maxVar, cls[..n], ws[..n], maxWeight);
      var r0 := ClauseMaxTally(asg, maxVar, cls[..n], ws[..n], maxWeight);
      var c0 := ClauseTally(asg, maxVar, cls[..n]);
      var h := ClauseHolds(asg, maxVar, cls[n]);
      if r0.Counted? && h.Counted? {
        CountSums(r0.value, h.value, ws[n], maxWeight);
        assert ClauseMaxTally(asg, maxVar, cls, ws, maxWeight) == Counted(Count(r0.value, h.value, ws[n], maxWeight));
        assert ClauseTally(asg, maxVar, cls) == Counted(if h.value then (c0.value.0 + 1, c0.value.1) else (c0.value.0, c0.value.1 + 1));
      }
    }
  }

  /** Entering one constraint adds one to the satisfied or to the falsified side. */
  lemma CountSums(t: Tally, holds: bool, weight: int, maxWeight: int)
    ensures var u := Count(t, holds, weight, maxWeight);
      u.hardSat + u.softSat == t.hardSat + t.softSat + (if holds then 1 else 0) &&
      u.hardUnsat + u.softUnsat == t.hardUnsat + t.softUnsat + (if holds then 0 else 1) &&
      u.hardUnsat == t.hardUnsat + (if !holds && weight == maxWeight then 1 else 0)
  {
  }

  /** The same for klauses without a guard (checkMaxSat never looks at guards). */
  lemma {:induction false} CardMaxAgrees(asg: seq<int>, maxVar: int, cards: seq<Card>, ws: seq<int>, maxWeight: int)
    requires |asg| == Size(maxVar) && |ws| == |cards|
    requires forall i :: 0 <= i < |cards| ==> cards[i].guard == 0
    ensures CardMaxTally(asg, maxVar, cards, ws, maxWeight).Counted? <==> CardTally(asg, maxVar, cards).Counted?
    ensures CardTally(asg, maxVar, cards).Counted? ==>
      var t := CardMaxTally(asg, maxVar, cards, ws, maxWeight).value;
      t.hardSat + t.softSat == CardTally(asg, maxVar, cards).value.0 &&
      t.hardUnsat + t.softUnsat == CardTally(asg, maxVar, cards).value.1
  {
    if cards != [] {
      var n := |cards| - 1;
      CardMaxAgrees(asg, maxVar, cards[..n], ws[..n], maxWeight);
      var r0 := CardMaxTally(asg, maxVar, cards[..n], ws[..n], maxWeight);
      var k := SatCount(asg, maxVar, cards[n].lits);
      if r0.Counted? && k.Counted? {
        CountSums(r0.value, k.value >= cards[n].bound, ws[n], maxWeight);
      }
    }
  }

  // ----- where the counting stops ------------------------------------------------------

  /** A clause loop that stops does so at a clause whose count stops, for that clause's reason. */
  lemma {:induction false} ClauseTallyHalts(asg: seq<int>, maxVar: int, cls: seq<seq<int>>)
    requires |asg| == Size(maxVar)
    ensures ClauseTally(asg, maxVar, cls).Halted? ==>
      exists i :: 0 <= i < |cls| && SatCount(asg, maxVar, cls[i]) == Halted(ClauseTally(asg, maxVar, cls).why)
  {
    if cls != [] {
      var n := |cls| - 1;
      ClauseTallyHalts(asg, maxVar, cls[..n]);
      if ClauseTally(asg, maxVar, cls[..n]).Halted? {
        var i :| 0 <= i < n && SatCount(asg, maxVar, cls[..n][i]) == Halted(ClauseTally(asg, maxVar, cls[..n]).why);
        assert cls[..n][i] == cls[i];
      }
    }
  }

  /** A klause loop that stops does so at a klause whose test stops, for that klause's reason. */
  lemma {:induction false} CardTallyHalts(asg: seq<int>, maxVar: int, cards: seq<Card>)
    requires |asg| == Size(maxVar)
    ensures CardTally(asg, maxVar, cards).Halted? ==>
      exists j :: 0 <= j < |cards| && CardHolds(asg, maxVar, cards[j]) == Halted(CardTally(asg, maxVar, cards).why)
  {
    if cards != [] {
      var n := |cards| - 1;
      CardTallyHalts(asg, maxVar, cards[..n]);
      if CardTally(asg, maxVar, cards[..n]).Halted? {
        var j :| 0 <= j < n && CardHolds(asg, maxVar, cards[..n][j]) == Halted(CardTally(asg, maxVar, cards[..n]).why);
        assert cards[..n][j] == cards[j];
      }
    }
  }

  /** The same for checkMaxSat's clause loop. */
  lemma {:induction false} ClauseMaxHalts(asg: seq<int>, maxVar: int, cls: seq<seq<int>>, ws: seq<int>, maxWeight: int)
    requires |asg| == Size(maxVar) && |ws| == |cls|
    ensures ClauseMaxTally(asg, maxVar, cls, ws, maxWeight).Halted? ==>
      exists i :: 0 <= i < |cls| && SatCount(asg, maxVar, cls[i]) == Halted(ClauseMaxTally(asg, maxVar, cls, ws, maxWeight).why)
  {
    if cls != [] {
      var n := |cls| - 1;
      ClauseMaxHalts(asg, maxVar, cls[..n], ws[..n], maxWeight);
      if ClauseMaxTally(asg, maxVar, cls[..n], ws[..n], maxWeight).Halted? {
        var i :| 0 <= i < n && SatCount(asg, maxVar, cls[..n][i]) == Halted(ClauseMaxTally(asg, maxVar, cls[..n], ws[..n], maxWeight).why);
        assert cls[..n][i] == cls[i];
      }
    }
  }

  /** The same for checkMaxSat's klause loop, which counts the literals of every klause. */
  lemma {:induction false} CardMaxHalts(asg: seq<int>, maxVar: int, cards: seq<Card>, ws: seq<int>, maxWeight: int)
    requires |asg| == Size(maxVar) && |ws| == |cards|
    ensures CardMaxTally(asg, maxVar, cards, ws, maxWeight).Halted? ==>
      exists j :: 0 <= j < |cards| && SatCount(asg, maxVar, cards[j].lits) == Halted(CardMaxTally(asg, maxVar, cards, ws, maxWeight).why)
  {
    if cards != [] {
      var n := |cards| - 1;
      CardMaxHalts(asg, maxVar, cards[..n], ws[..n], maxWeight);
      if CardMaxTally(asg, maxVar, cards[..n], ws[..n], maxWeight).Halted? {
        var j :| 0 <= j < n && SatCount(asg, maxVar, cards[..n][j].lits) == Halted(CardMaxTally(asg, maxVar, cards[..n], ws[..n], maxWeight).why);
        assert cards[..n][j] == cards[j];
      }
    }
  }

  /** Some stored clause or klause has a literal 0. */
  predicate HasZero(cls: seq<seq<int>>, cards: seq<Card>)
  {
    (exists i :: 0 <= i < |cls| && 0 in cls[i]) || (exists j :: 0 <= j < |cards| && 0 in cards[j].lits)
  }

  /** Some stored literal or guard names a variable past maxVar. */
  predicate PastMaxVar(cls: seq<seq<int>>, cards: seq<Card>, maxVar: int)
  {
    (exists i, k :: 0 <= i < |cls| && 0 <= k < |cls[i]| && Abs(cls[i][k]) > maxVar) ||
    (exists j :: 0 <= j < |cards| && Abs(cards[j].guard) > maxVar) ||
    (exists j, k :: 0 <= j < |cards| && 0 <= k < |cards[j].lits| && Abs(cards[j].lits[k]) > maxVar)
  }

  /** A count stopping for a reason has a literal giving that reason. */
  lemma WhyHalted(asg: seq<int>, maxVar: int, lits: seq<int>)
    requires |asg| == Size(maxVar)
    ensures SatCount(asg, maxVar, lits) == Halted(DivZero) ==> 0 in lits
    ensures SatCount(asg, maxVar, lits) == Halted(PastMax) ==> exists k :: 0 <= k < |lits| && Abs(lits[k]) > maxVar
  {
    SatCountHalts(asg, maxVar, lits);
  }

  /**
   * The checking step divides by zero only when a stored constraint has a literal 0, and stops
   * at get_value only when a stored literal or guard lies past maxVar.
   */
  lemma HaltsMeaning(asg: seq<int>, maxVar: int, maxWeight: int, cls: seq<seq<int>>, cws: seq<int>, cards: seq<Card>, kws: seq<int>)
    requires |asg| == Size(maxVar) && |cws| == |cls| && |kws| == |cards|
    ensures Halts(asg, maxVar, maxWeight, cls, cws, cards, kws) == Some(DivZero) ==> HasZero(cls, cards)
    ensures Halts(asg, maxVar, maxWeight, cls, cws, cards, kws) == Some(PastMax) ==> PastMaxVar(cls, cards, maxVar)
  {
    var h := Halts(asg, maxVar, maxWeight, cls, cws, cards, kws);
    if h.Some? {
      if maxWeight != -1 {
        ClauseMaxHalts(asg, maxVar, cls, cws, maxWeight);
        CardMaxHalts(asg, maxVar, cards, kws, maxWeight);
        if ClauseMaxTally(asg, maxVar, cls, cws, maxWeight).Halted? {
          var i :| 0 <= i < |cls| && SatCount(asg, maxVar, cls[i]) == Halted(h.value);
          WhyHalted(asg, maxVar, cls[i]);
        } else {
          var j :| 0 <= j < |cards| && SatCount(asg, maxVar, cards[j].lits) == Halted(h.value);
          WhyHalted(asg, maxVar, cards[j].lits);
        }
      } else {
        ClauseTallyHalts(asg, maxVar, cls);
        CardTallyHalts(asg, maxVar, cards);
        if ClauseTally(asg, maxVar, cls).Halted? {
          var i :| 0 <= i < |cls| && SatCount(asg, maxVar, cls[i]) == Halted(h.value);
          WhyHalted(asg, maxVar, cls[i]);
        } else {
          var j :| 0 <= j < |cards| && CardHolds(asg, maxVar, cards[j]) == Halted(h.value);
          WhyHalted(asg, maxVar, cards[j].lits);
        }
      }
    }
  }

  // ----- the checker ------------------------------------------------------------------

  class KnfCheck {
    var maxVar: int
    var maxCls: int
    var maxWeight: int
    var clauses: seq<seq<int>>
    var clauseWeights: seq<int>
    var cards: seq<Card>
    var cardWeights: seq<int>
    var assignment: seq<int>
    var accSoftWeight: int
    var clauseSat: nat
    var clauseUnsat: nat
    var cardSat: nat
    var cardUnsat: nat
    var clauseTally: Tally
    var cardTally: Tally

    /** One weight per stored constraint. */
    predicate Stored()
      reads this
    {
      |clauseWeights| == |clauses| && |cardWeights| == |cards|
    }

    /** has_weight: the header gave a top weight. */
    predicate HasWeight()
      reads this
    {
      maxWeight != -1
    }

    constructor ()
      ensures accSoftWeight == 0 && maxWeight == -1 && !HasWeight()
      ensures clauses == [] && cards == [] && assignment == [] && Stored()
    {
      accSoftWeight, maxWeight := 0, -1;
      clauses, clauseWeights, cards, cardWeights, assignment := [], [], [], [], [];
    }

    method Header(maxVar: int, maxCls: int, maxWeight: int)
      modifies this`maxVar, this`maxCls, this`maxWeight
      ensures this.maxVar == maxVar && this.maxCls == maxCls && this.maxWeight == maxWeight
    {
      this.maxVar, this.maxCls, this.maxWeight := maxVar, maxCls, maxWeight;
    }

    /**
     * Clause: an empty clause is reported and dropped; any other is stored with its weight,
     * and a soft weight is added to the accumulated soft weight.
     */
    method Clause(lits: seq<int>, weight: int)
      requires Stored()
      modifies this`clauses, this`clauseWeights, this`accSoftWeight
      ensures Stored()
      ensures lits == [] ==> clauses == old(clauses) && clauseWeights == old(clauseWeights) && accSoftWeight == old(accSoftWeight)
      ensures lits != [] ==> clauses == old(clauses) + [lits] && clauseWeights == old(clauseWeights) + [weight]
      ensures lits != [] ==> accSoftWeight == old(accSoftWeight) + (if HasWeight() && weight != maxWeight then weight else 0)
    {
      if |lits| == 0 {
        return;
      }
      clauses, clauseWeights := clauses + [lits], clauseWeights + [weight];
      if HasWeight() && weight != maxWeight {
        accSoftWeight := accSoftWeight + weight;
      }
    }

    /**
     * CardinalityConstraint: an empty klause or one with bound 0 is reported and dropped; bound 1
     * makes it a clause; any other is stored with its weight and guard.
     */
    method CardinalityConstraint(lits: seq<int>, bound: int, weight: int, guard: int)
      requires Stored()
      modifies this`clauses, this`clauseWeights, this`cards, this`cardWeights, this`accSoftWeight
      ensures Stored()
      ensures lits == [] || bound == 0 ==>
        clauses == old(clauses) && clauseWeights == old(clauseWeights) && cards == old(cards) &&
        cardWeights == old(cardWeights) && accSoftWeight == old(accSoftWeight)
      ensures lits != [] && bound == 1 ==>
        clauses == old(clauses) + [lits] && clauseWeights == old(clauseWeights) + [weight] &&
        cards == old(cards) && cardWeights == old(cardWeights)
      ensures lits != [] && bound != 0 && bound != 1 ==>
        cards == old(cards) + [Card(lits, bound, guard)] && cardWeights == old(cardWeights) + [weight] &&
        clauses == old(clauses) && clauseWeights == old(clauseWeights)
      ensures lits != [] && bound != 0 ==>
        accSoftWeight == old(accSoftWeight) + (if HasWeight() && weight != maxWeight then weight else 0)
    {
      if |lits| == 0 || bound == 0 {
        return;
      }
      if bound == 1 {
        Clause(lits, weight);
      } else {
        cards, cardWeights := cards + [Card(lits, bound, guard)], cardWeights + [weight];
        if HasWeight() && weight != maxWeight {
          accSoftWeight := accSoftWeight + weight;
        }
      }
    }

    /**
     * parseAssignment in the default format: maxVar + 1 entries start at 0, the fields are read
     * in order, and the entries still 0 then become -1. False when a variable in range is listed
     * twice (where the program stops).
     */
    method ParseAssignment(toks: seq<Token>) returns (ok: bool)
      requires assignment == []
      modifies this`assignment
      ensures var r := Assigned(seq(Size(maxVar), _ => 0), maxVar, toks);
        (ok <==> r.Some?) && (ok ==> assignment == Defaulted(r.value))
      ensures ok ==> |assignment| == Size(maxVar) && Total01(assignment)
    {
      var asg := seq(Size(maxVar), _ => 0);
      ghost var zero := asg;
      var k := 0;
      while k < |toks|
        invariant 0 <= k <= |toks|
        invariant Assigned(zero, maxVar, toks[..k]) == Some(asg)
      {
        assert toks[..k + 1][..k] == toks[..k];
        match toks[k] {
          case Marker =>
          case Num(l) =>
            if Abs(l) <= maxVar {
              if asg[Abs(l)] != 0 {
                UnassignedStays(zero, maxVar, toks, k + 1);
                return false;
              }
              if l != 0 {
                asg := asg[Abs(l) := Sign(l)];
              }
            }
        }
        k := k + 1;
      }
      assert toks[..k] == toks;
      var v := 0;
      while v < |asg|
        invariant 0 <= v <= |asg| == Size(maxVar)
        invariant forall u :: 0 <= u < v ==> asg[u] != 0
        invariant forall u :: 0 <= u < |asg| ==> Defaulted(asg)[u] == Defaulted(Assigned(zero, maxVar, toks).value)[u]
      {
        if asg[v] == 0 {
          asg := asg[v := -1];
        }
        v := v + 1;
      }
      assignment := asg;
      assert assignment == Defaulted(Assigned(zero, maxVar, toks).value);
      DefaultedTotal(Assigned(zero, maxVar, toks).value, maxVar, toks);
      ok := true;
    }

    /** checkSat's inner loop: the literals whose variable holds their sign are counted. */
    method CountSat(lits: seq<int>) returns (r: Counted<nat>)
      requires |assignment| == Size(maxVar)
      ensures r == SatCount(assignment, maxVar, lits)
    {
      var sat := 0;
      var j := 0;
      while j < |lits|
        invariant 0 <= j <= |lits|
        invariant SatCount(assignment, maxVar, lits[..j]) == Counted(sat)
      {
        assert lits[..j + 1][..j] == lits[..j];
        var l := lits[j];
        if Abs(l) > maxVar {
          HaltStays(assignment, maxVar, lits, j + 1);
          return Halted(PastMax);
        }
        if l == 0 {
          HaltStays(assignment, maxVar, lits, j + 1);
          return Halted(DivZero);
        }
        if assignment[Abs(l)] == Sign(l) {
          sat := sat + 1;
        }
        j := j + 1;
      }
      assert lits[..j] == lits;
      r := Counted(sat);
    }

    /**
     * checkSat: every clause and then every klause is counted as satisfied or falsified, unless
     * a variable past maxVar or a literal 0 stops the program first.
     */
    method CheckSat() returns (halt: Option<Halt>)
      requires |assignment| == Size(maxVar)
      modifies this`clauseSat, this`clauseUnsat, this`cardSat, this`cardUnsat
      ensures halt == Halting(ClauseTally(assignment, maxVar, clauses), CardTally(assignment, maxVar, cards))
      ensures halt.None? ==> (clauseSat, clauseUnsat) == ClauseTally(assignment, maxVar, clauses).value
      ensures halt.None? ==> (cardSat, cardUnsat) == CardTally(assignment, maxVar, cards).value
    {
      var r := TallyClauses();
      if r.Halted? {
        return Some(r.why);
      }
      clauseSat, clauseUnsat := r.value.0, r.value.1;
      r := TallyCards();
      if r.Halted? {
        return Some(r.why);
      }
      cardSat, cardUnsat := r.value.0, r.value.1;
      halt := None;
    }

    /** checkSat's clause loop. */
    method TallyClauses() returns (r: Counted<(nat, nat)>)
      requires |assignment| == Size(maxVar)
      ensures r == ClauseTally(assignment, maxVar, clauses)
    {
      var cls := clauses;
      var sat, unsat := 0, 0;
      var i := 0;
      while i < |cls|
        invariant 0 <= i <= |cls|
        invariant ClauseTally(assignment, maxVar, cls[..i]) == Counted((sat, unsat))
      {
        assert cls[..i + 1][..i] == cls[..i];
        var count := CountSat(cls[i]);
        if count.Halted? {
          ClauseHaltStays(assignment, maxVar, cls, i + 1);
          return Halted(count.why);
        }
        if count.value >= 1 {
          sat := sat + 1;
        } else {
          unsat := unsat + 1;
        }
        i := i + 1;
      }
      assert cls[..i] == cls;
      r := Counted((sat, unsat));
    }

    /** checkSat's klause loop. */
    method TallyCards() returns (r: Counted<(nat, nat)>)
      requires |assignment| == Size(maxVar)
      ensures r == CardTally(assignment, maxVar, cards)
    {
      var sat, unsat := 0, 0;
      var i := 0;
      while i < |cards|
        invariant 0 <= i <= |cards|
        invariant CardTally(assignment, maxVar, cards[..i]) == Counted((sat, unsat))
      {
        assert cards[..i + 1][..i] == cards[..i];
        var holds := CardStep(cards[i]);
        if holds.Halted? {
          CardHaltStays(assignment, maxVar, cards, i + 1);
          return Halted(holds.why);
        }
        if holds.value {
          sat := sat + 1;
        } else {
          unsat := unsat + 1;
        }
        i := i + 1;
      }
      assert cards[..i] == cards;
      r := Counted((sat, unsat));
    }

    /** checkSat's test of one klause: a set guard satisfies it; otherwise its literals are counted. */
    method CardStep(c: Card) returns (r: Counted<bool>)
      requires |assignment| == Size(maxVar)
      ensures r == CardHolds(assignment, maxVar, c)
    {
      if c.guard != 0 && Abs(c.guard) > maxVar {
        return Halted(PastMax);
      }
      if c.guard != 0 && assignment[Abs(c.guard)] == Sign(c.guard) {
        return Counted(true);
      }
      var count := CountSat(c.lits);
      if count.Halted? {
        return Halted(count.why);
      }
      r := Counted(count.value >= c.bound);
    }

    /** checkMaxSat: as checkSat, but hard and soft constraints are told apart by their weight, and guards are ignored. */
    method CheckMaxSat() returns (halt: Option<Halt>)
      requires |assignment| == Size(maxVar) && Stored()
      modifies this`clauseTally, this`cardTally
      ensures halt == Halting(ClauseMaxTally(assignment, maxVar, clauses, clauseWeights, maxWeight),
        CardMaxTally(assignment, maxVar, cards, cardWeights, maxWeight))
      ensures halt.None? ==> clauseTally == ClauseMaxTally(assignment, maxVar, clauses, clauseWeights, maxWeight).value
      ensures halt.None? ==> cardTally == CardMaxTally(assignment, maxVar, cards, cardWeights, maxWeight).value
    {
      var r := MaxTallyClauses();
      if r.Halted? {
        return Some(r.why);
      }
      clauseTally := r.value;
      r := MaxTallyCards();
      if r.Halted? {
        return Some(r.why);
      }
      cardTally := r.value;
      halt := None;
    }

    /** checkMaxSat's clause loop. */
    method MaxTallyClauses() returns (r: Counted<Tally>)
      requires |assignment| == Size(maxVar) && Stored()
      ensures r == ClauseMaxTally(assignment, maxVar, clauses, clauseWeights, maxWeight)
    {
      var cls, ws := clauses, clauseWeights;
      var t := Zero;
      var i := 0;
      while i < |cls|
        invariant 0 <= i <= |cls|
        invariant ClauseMaxTally(assignment, maxVar, cls[..i], ws[..i], maxWeight) == Counted(t)
      {
        ClauseMaxStep(assignment, maxVar, cls, ws, maxWeight, i);
        var count := CountSat(cls[i]);
        if count.Halted? {
          ClauseMaxHaltStays(assignment, maxVar, cls, ws, maxWeight, i + 1);
          return Halted(count.why);
        }
        t := Count(t, count.value >= 1, ws[i], maxWeight);
        i := i + 1;
      }
      assert cls[..i] == cls && ws[..i] == ws;
      r := Counted(t);
    }

    /** checkMaxSat's klause loop. */
    method MaxTallyCards() returns (r: Counted<Tally>)
      requires |assignment| == Size(maxVar) && Stored()
      ensures r == CardMaxTally(assignment, maxVar, cards, cardWeights, maxWeight)
    {
      var t := Zero;
      var i := 0;
      while i < |cards|
        invariant 0 <= i <= |cards|
        invariant CardMaxTally(assignment, maxVar, cards[..i], cardWeights[..i], maxWeight) == Counted(t)
      {
        assert cards[..i + 1][..i] == cards[..i] && cardWeights[..i + 1][..i] == cardWeights[..i];
        var count := CountSat(cards[i].lits);
        if count.Halted? {
          CardMaxHaltStays(assignment, maxVar, cards, cardWeights, maxWeight, i + 1);
          return Halted(count.why);
        }
        t := Count(t, count.value >= cards[i].bound, cardWeights[i], maxWeight);
        i := i + 1;
      }
      assert cards[..i] == cards && cardWeights[..i] == cardWeights;
      r := Counted(t);
    }

    /**
     * printResult's verdict: the counts must add up to the numbers of constraints, and the
     * assignment is verified when nothing is falsified (hard or soft, when weighted).
     */
    function Result(): (r: Outcome)
      reads this
    {
      if HasWeight() then
        if Total(cardTally) != |cards| || Total(clauseTally) != |clauses| then CountingError
        else if cardTally.hardUnsat + cardTally.softUnsat + clauseTally.hardUnsat + clauseTally.softUnsat == 0 then Verified
        else if cardTally.hardUnsat + clauseTally.hardUnsat > 0 then NotSatisfying
        else HardOnly
      else
        if cardSat + cardUnsat != |cards| || clauseSat + clauseUnsat != |clauses| then CountingError
        else if cardUnsat + clauseUnsat == 0 then Verified
        else NotSatisfying
    }

    /**
     * The checking step of main, once the assignment is read: checkMaxSat when the formula is
     * weighted, checkSat otherwise, then printResult. It stops the program where the counting
     * does (no verdict is then printed). With every variable in range it always completes,
     * never reports a counting error, and verifies exactly the assignments that satisfy every
     * constraint: a klause by its guard or its literals without weights, by its literals alone
     * with weights; with weights the hard-only verdict means exactly that the constraints of
     * top weight hold.
     */
    method Check() returns (halt: Option<Halt>, verdict: Outcome)
      requires |assignment| == Size(maxVar) && Stored()
      modifies this`clauseSat, this`clauseUnsat, this`cardSat, this`cardUnsat, this`clauseTally, this`cardTally
      ensures halt == Halts(assignment, maxVar, maxWeight, clauses, clauseWeights, cards, cardWeights)
      ensures Total01(assignment) && Within(clauses, cards, maxVar) ==>
        halt.None? && Judges(verdict, clauses, clauseWeights, cards, cardWeights, Truth(assignment), maxWeight)
    {
      if Total01(assignment) && Within(clauses, cards, maxVar) {
        if HasWeight() {
          ClauseMaxMeaning(assignment, maxVar, clauses, clauseWeights, maxWeight);
          CardMaxMeaning(assignment, maxVar, cards, cardWeights, maxWeight);
          ClauseMaxTotal(assignment, maxVar, clauses, clauseWeights, maxWeight);
          CardMaxTotal(assignment, maxVar, cards, cardWeights, maxWeight);
        } else {
          ClauseTallyMeaning(assignment, maxVar, clauses);
          CardTallyMeaning(assignment, maxVar, cards);
        }
      }
      if HasWeight() {
        halt := CheckMaxSat();
      } else {
        halt := CheckSat();
      }
      if halt.Some? {
        return halt, CountingError;
      }
      verdict := Result();
    }
  }

  // ----- helper facts for the loops ---------------------------------------------------

  /** Once a prefix of the literals stops the count, the whole count stops there for the same reason. */
  lemma {:induction false} HaltStays(asg: seq<int>, maxVar: int, lits: seq<int>, k: nat)
    requires |asg| == Size(maxVar) && k <= |lits| && SatCount(asg, maxVar, lits[..k]).Halted?
    ensures SatCount(asg, maxVar, lits) == SatCount(asg, maxVar, lits[..k])
    decreases |lits| - k
  {
    if k < |lits| {
      assert lits[..k + 1][..k] == lits[..k];
      HaltStays(asg, maxVar, lits, k + 1);
    } else {
      assert lits[..k] == lits;
    }
  }

  lemma {:induction false} ClauseHaltStays(asg: seq<int>, maxVar: int, cls: seq<seq<int>>, k: nat)
    requires |asg| == Size(maxVar) && k <= |cls| && ClauseTally(asg, maxVar, cls[..k]).Halted?
    ensures ClauseTally(asg, maxVar, cls) == ClauseTally(asg, maxVar, cls[..k])
    decreases |cls| - k
  {
    if k < |cls| {
      assert cls[..k + 1][..k] == cls[..k];
      ClauseHaltStays(asg, maxVar, cls, k + 1);
    } else {
      assert cls[..k] == cls;
    }
  }

  lemma {:induction false} CardHaltStays(asg: seq<int>, maxVar: int, cards: seq<Card>, k: nat)
    requires |asg| == Size(maxVar) && k <= |cards| && CardTally(asg, maxVar, cards[..k]).Halted?
    ensures CardTally(asg, maxVar, cards) == CardTally(asg, maxVar, cards[..k])
    decreases |cards| - k
  {
    if k < |cards| {
      assert cards[..k + 1][..k] == cards[..k];
      CardHaltStays(asg, maxVar, cards, k + 1);
    } else {
      assert cards[..k] == cards;
    }
  }

  /** The clause loop's tally after one more clause. */
  lemma ClauseMaxStep(asg: seq<int>, maxVar: int, cls: seq<seq<int>>, ws: seq<int>, maxWeight: int, i: nat)
    requires |asg| == Size(maxVar) && |ws| == |cls| && i < |cls|
    ensures var r := ClauseMaxTally(asg, maxVar, cls[..i], ws[..i], maxWeight);
      var h := ClauseHolds(asg, maxVar, cls[i]);
      ClauseMaxTally(asg, maxVar, cls[..i + 1], ws[..i + 1], maxWeight) ==
        if r.Halted? then Halted(r.why) else if h.Halted? then Halted(h.why) else Counted(Count(r.value, h.value, ws[i], maxWeight))
  {
    assert cls[..i + 1][..i] == cls[..i] && ws[..i + 1][..i] == ws[..i];
  }

  lemma {:induction false} ClauseMaxHaltStays(asg: seq<int>, maxVar: int, cls: seq<seq<int>>, ws: seq<int>, maxWeight: int, k: nat)
    requires |asg| == Size(maxVar) && |ws| == |cls| && k <= |cls|
    requires ClauseMaxTally(asg, maxVar, cls[..k], ws[..k], maxWeight).Halted?
    ensures ClauseMaxTally(asg, maxVar, cls, ws, maxWeight) == ClauseMaxTally(asg, maxVar, cls[..k], ws[..k], maxWeight)
    decreases |cls| - k
  {
    if k < |cls| {
      assert cls[..k + 1][..k] == cls[..k] && ws[..k + 1][..k] == ws[..k];
      ClauseMaxHaltStays(asg, maxVar, cls, ws, maxWeight, k + 1);
    } else {
      assert cls[..k] == cls && ws[..k] == ws;
    }
  }

  lemma {:induction false} CardMaxHaltStays(asg: seq<int>, maxVar: int, cards: seq<Card>, ws: seq<int>, maxWeight: int, k: nat)
    requires |asg| == Size(maxVar) && |ws| == |cards| && k <= |cards|
    requires CardMaxTally(asg, maxVar, cards[..k], ws[..k], maxWeight).Halted?
    ensures CardMaxTally(asg, maxVar, cards, ws, maxWeight) == CardMaxTally(asg, maxVar, cards[..k], ws[..k], maxWeight)
    decreases |cards| - k
  {
    if k < |cards| {
      assert cards[..k + 1][..k] == cards[..k] && ws[..k + 1][..k] == ws[..k];
      CardMaxHaltStays(asg, maxVar, cards, ws, maxWeight, k + 1);
    } else {
      assert cards[..k] == cards && ws[..k] == ws;
    }
  }

  lemma {:induction false} UnassignedStays(asg: seq<int>, maxVar: int, toks: seq<Token>, k: nat)
    requires |asg| == Size(maxVar) && k <= |toks| && Assigned(asg, maxVar, toks[..k]).None?
    ensures Assigned(asg, maxVar, toks).None?
    decreases |toks| - k
  {
    if k < |toks| {
      assert toks[..k + 1][..k] == toks[..k];
      UnassignedStays(asg, maxVar, toks, k + 1);
    } else {
      assert toks[..k] == toks;
    }
  }

  /** Reading from all zeros leaves entries in -1..1, so the defaulted assignment is total. */
  lemma DefaultedTotal(asg: seq<int>, maxVar: int, toks: seq<Token>)
    requires Assigned(seq(Size(maxVar), _ => 0), maxVar, toks) == Some(asg)
    ensures Total01(Defaulted(asg))
  {
    forall v | 0 < v < |asg| ensures asg[v] == 0 || asg[v] == 1 || asg[v] == -1 {
      EntryValues(maxVar, toks, v);
    }
  }

  lemma {:induction false} EntryValues(maxVar: int, toks: seq<Token>, v: int)
    requires 0 <= v < Size(maxVar) && Assigned(seq(Size(maxVar), _ => 0), maxVar, toks).Some?
    ensures var r := Assigned(seq(Size(maxVar), _ => 0), maxVar, toks).value; r[v] == 0 || r[v] == 1 || r[v] == -1
  {
    if toks != [] {
      EntryValues(maxVar, toks[..|toks| - 1], v);
      var cur := Assigned(seq(Size(maxVar), _ => 0), maxVar, toks[..|toks| - 1]).value;
      assert Take(cur, maxVar, toks[|toks| - 1]).Some?;
    }
  }
}

/**
 * The Python prototype of the klause analysis (tools/kanalyze.py). A decision diagram over
 * the data variables is read one variable at a time: a layer holds one diagram per number of
 * true literals seen so far (CardLayer), each extension splits every diagram of the layer on
 * the next variable, and the leaves of the final layer give a lower and an upper bound on the
 * number of true literals, which become at most two klauses (Extractor.getConstraints).
 * Also the Constraint record with its KNF line, and the Permuter between ids and levels.
 */
module Kanalyze {
  import opened Lits
  import opened Bdd
  import opened Decoder
  import opened Text
  import Extractor

  // ----- CardLayer -------------------------------------------------------------------

  /** getChild raises unless every non-leaf node of the layer splits on vid. */
  predicate SplitsOn(layer: seq<Node>, vid: int)
  {
    forall i :: 0 <= i < |layer| ==> layer[i].Leaf? || layer[i].v == vid
  }

  /**
   * tryExtend: the children in `phase` (incrs) must equal the other children (sames) shifted
   * by one; the next layer is the first of sames followed by all of incrs.
   */
  function TryExtend(layer: seq<Node>, phase: int, vid: int): (r: Option<seq<Node>>)
    requires |layer| >= 1
    ensures r.Some? <==> SplitsOn(layer, vid) && Compatible(HChildren(layer), LChildren(layer), if phase == 1 then 1 else 0)
    ensures r.Some? ==> |r.value| == |layer| + 1
  {
    if !SplitsOn(layer, vid) then None
    else
      var h, l := HChildren(layer), LChildren(layer);
      if phase == 1 then (if LowShiftsHigh(h, l) then Some([l[0]] + h) else None)
      else (if HighShiftsLow(h, l) then Some([h[0]] + l) else None)
  }

  /** extend: the positive phase is tried first, then the negative one. */
  function Extend(layer: seq<Node>, vid: int): (r: Option<(seq<Node>, int)>)
    requires |layer| >= 1
    ensures r.Some? ==> |r.value.0| == |layer| + 1 && (r.value.1 == 0 || r.value.1 == 1)
  {
    match TryExtend(layer, 1, vid)
    case Some(next) => Some((next, 1))
    case None =>
      match TryExtend(layer, 0, vid)
      case Some(next) => Some((next, 0))
      case None => None
  }

  /** The literal an extension in `phase` counts: vid itself in phase 1, its negation in phase 0. */
  function PhaseLit(vid: int, phase: int): int { if phase == 1 then vid else -vid }

  /**
   * An extension keeps the meaning of the layer: entry c of the layer behaves like entry c of
   * the next layer when the counted literal is false, and like entry c + 1 when it is true.
   */
  lemma ExtendEval(layer: seq<Node>, vid: int, a: Assignment, c: int)
    requires |layer| >= 1 && vid > 0 && Extend(layer, vid).Some? && 0 <= c < |layer|
    ensures var (next, phase) := Extend(layer, vid).value;
      Eval(layer[c], a) == Eval(next[c + (if LitTrue(a, PhaseLit(vid, phase)) then 1 else 0)], a)
  {
    var (next, phase) := Extend(layer, vid).value;
    var h, l := HChildren(layer), LChildren(layer);
    EvalSplit(layer[c], vid, a);
    assert Eval(layer[c], a) == if vid in a then Eval(h[c], a) else Eval(l[c], a);
    if phase == 1 {
      assert LowShiftsHigh(h, l);
      if vid !in a && c > 0 { assert l[c] == h[c - 1]; }
    } else {
      assert HighShiftsLow(h, l);
      if vid in a && c > 0 { assert h[c] == l[c - 1]; }
    }
  }

  /** check as written, on a final layer of n + 1 entries: (lb, ub), or None when some entry is not a leaf. */
  function Check(layer: seq<Node>): Option<(int, int)>
    requires |layer| >= 1
  {
    var n := |layer| - 1;
    if exists i :: 0 <= i < |layer| && !layer[i].Leaf? then None
    else if forall i :: 0 <= i < |layer| ==> layer[i] != Leaf(true) then Some((1, 0))
    else if forall i :: 0 <= i < |layer| ==> layer[i] != Leaf(false) then Some((0, n))
    else
      // the lower bound is looked for below index n only, and stays 0 when none is found there
      var first := FirstTrue(layer[..n], 0);
      var lb := if first < n then first else 0;
      Some((lb, LastTrue(layer, n)))
  }

  /** The check as intended: the whole layer is scanned, and the true leaves must form one run. */
  function CheckFixed(layer: seq<Node>): Option<(int, int)>
    requires |layer| >= 1
  {
    if (forall i :: 0 <= i < |layer| ==> layer[i].Leaf?) && FirstTrue(layer, 0) == |layer| then Some((1, 0))
    else CheckedBounds(layer)
  }

  /** The layer is made of leaves, true exactly on the run lb..ub. */
  predicate RunOf(layer: seq<Node>, lb: int, ub: int)
  {
    forall c :: 0 <= c < |layer| ==> layer[c].Leaf? && (layer[c].value <==> lb <= c <= ub)
  }

  /** The corrected check accepts exactly the layers of leaves that are true on one run lb..ub, or nowhere. */
  lemma CheckFixedMeaning(layer: seq<Node>)
    requires |layer| >= 1
    ensures CheckFixed(layer).Some? ==>
      var (lb, ub) := CheckFixed(layer).value;
      0 <= lb && ub < |layer| && RunOf(layer, lb, ub)
    ensures (exists lb, ub :: 0 <= lb && ub < |layer| && RunOf(layer, lb, ub)) ==> CheckFixed(layer).Some?
  {
    var l := FirstTrue(layer, 0);
    if (forall i :: 0 <= i < |layer| ==> layer[i].Leaf?) && l < |layer| {
      var h := LastTrue(layer, |layer| - 1);
      assert layer[l] == Leaf(true);
      assert l <= h;
      if CheckFixed(layer).Some? {
        forall c | 0 <= c < |layer| ensures layer[c].value <==> l <= c <= h {
          if c < l || c > h {
            assert layer[c] != Leaf(true) && layer[c].Leaf?;
          }
        }
      }
      if lb, ub :| 0 <= lb && ub < |layer| && RunOf(layer, lb, ub) {
        assert layer[l].value;
        assert lb <= l <= ub;
        assert layer[lb] == Leaf(true);
        assert l == lb;
        assert layer[ub] == Leaf(true);
        if ub > 0 { assert h == ub; } else { assert h == 0; }
      }
    }
  }

  /** Where both accept, the check as written agrees with the corrected one unless the only true entry is the last. */
  lemma CheckAgrees(layer: seq<Node>)
    requires |layer| >= 1
    requires CheckFixed(layer).Some?
    requires var (lb, ub) := CheckFixed(layer).value; lb > ub || lb < |layer| - 1
    ensures Check(layer) == CheckFixed(layer)
  {
    CheckFixedMeaning(layer);
    var n := |layer| - 1;
    var (lb, ub) := CheckFixed(layer).value;
    if lb <= ub {
      if forall i :: 0 <= i < |layer| ==> layer[i] != Leaf(false) {
        assert FirstTrue(layer, 0) == 0 by { assert layer[0].value; }
        assert layer[n].value;
      } else {
        var first := FirstTrue(layer[..n], 0);
        assert layer[..n][lb] == Leaf(true);
        assert first == lb;
      }
    }
  }

  /**
   * The check as written misses a run made of the last entry alone: with only the last of
   * n + 1 leaves true it reports the lower bound 0, so no lower-bound klause is generated and
   * the analysis claims the function holds when no literal is true.
   */
  lemma CheckMissesLast(n: nat)
    requires n >= 1
    ensures var layer := seq(n + 1, i requires 0 <= i <= n => Leaf(i == n));
      Check(layer) == Some((0, n as int)) && CheckFixed(layer) == Some((n as int, n as int))
  {
    var layer := seq(n + 1, i requires 0 <= i <= n => Leaf(i == n));
    assert layer[0] == Leaf(false) && layer[n] == Leaf(true);
    assert FirstTrue(layer[..n], 0) == n;
    assert FirstTrue(layer, 0) == n;
    CheckFixedMeaning(layer);
  }

  // ----- Extractor.findConstraints / getConstraints ----------------------------------

  /** The layers and phases after extending the root layer over vars, left to right; None when a step fails. */
  function Layered(root: Node, vars: seq<int>): (r: Option<(seq<Node>, seq<int>)>)
    ensures r.Some? ==> |r.value.0| == |vars| + 1 && |r.value.1| == |vars|
    ensures r.Some? ==> forall i :: 0 <= i < |vars| ==> r.value.1[i] == 0 || r.value.1[i] == 1
  {
    if vars == [] then Some(([root], []))
    else
      match Layered(root, vars[..|vars| - 1])
      case None => None
      case Some((layer, phases)) =>
        match Extend(layer, vars[|vars| - 1])
        case None => None
        case Some((next, phase)) => Some((next, phases + [phase]))
  }

  /** The literals read in each variable's phase (zip: as many as both lists have). */
  function PhaseLits(vars: seq<int>, phases: seq<int>, positive: int): (r: seq<int>)
    ensures |r| == if |vars| < |phases| then |vars| else |phases|
  {
    var n := if |vars| < |phases| then |vars| else |phases|;
    seq(n, i requires 0 <= i < n => if phases[i] == positive then vars[i] else -vars[i])
  }

  /** findConstraints as written: the phases and the bounds of `check`, or None when an extension or the check fails. */
  function FindSpec(root: Node, dvars: seq<int>): Option<(seq<int>, int, int)>
  {
    match Layered(root, dvars)
    case None => None
    case Some((layer, phases)) =>
      match Check(layer)
      case None => None
      case Some((lb, ub)) => Some((phases, lb, ub))
  }

  /** findConstraints with the corrected final check. */
  function FindSpecFixed(root: Node, dvars: seq<int>): Option<(seq<int>, int, int)>
  {
    match Layered(root, dvars)
    case None => None
    case Some((layer, phases)) =>
      match CheckFixed(layer)
      case None => None
      case Some((lb, ub)) => Some((phases, lb, ub))
  }

  /** findConstraints' loop: the layer is extended variable by variable, and the loop stops at the first failure. */
  method ExtendAll(root: Node, dvars: seq<int>) returns (r: Option<(seq<Node>, seq<int>)>)
    ensures r == Layered(root, dvars)
  {
    var layer, phases := [root], [];
    var k := 0;
    while k < |dvars|
      invariant 0 <= k <= |dvars|
      invariant Layered(root, dvars[..k]) == Some((layer, phases))
    {
      assert dvars[..k + 1][..k] == dvars[..k];
      var next := Extend(layer, dvars[k]);
      if next.None? {
        assert Layered(root, dvars[..k + 1]).None?;
        NoneStays(root, dvars, k + 1);
        return None;
      }
      layer, phases := next.value.0, phases + [next.value.1];
      k := k + 1;
    }
    assert dvars[..k] == dvars;
    r := Some((layer, phases));
  }

  /** findConstraints: the extensions, then `check` as written on the final layer. */
  method FindConstraints(root: Node, dvars: seq<int>) returns (r: Option<(seq<int>, int, int)>)
    ensures r == FindSpec(root, dvars)
  {
    var layered := ExtendAll(root, dvars);
    if layered.None? {
      return None;
    }
    var (layer, phases) := layered.value;
    match Check(layer)
    case None => r := None;
    case Some((lb, ub)) => r := Some((phases, lb, ub));
  }

  /** findConstraints with the corrected final check, which the exact analysis relies on. */
  method FindConstraintsFixed(root: Node, dvars: seq<int>) returns (r: Option<(seq<int>, int, int)>)
    ensures r == FindSpecFixed(root, dvars)
  {
    var layered := ExtendAll(root, dvars);
    if layered.None? {
      return None;
    }
    var (layer, phases) := layered.value;
    match CheckFixed(layer)
    case None => r := None;
    case Some((lb, ub)) => r := Some((phases, lb, ub));
  }

  /** Once an extension fails, every longer prefix fails too. */
  lemma {:induction false} NoneStays(root: Node, vars: seq<int>, k: nat)
    requires k <= |vars| && Layered(root, vars[..k]).None?
    ensures Layered(root, vars).None?
    decreases |vars| - k
  {
    if k < |vars| {
      assert vars[..k + 1][..k] == vars[..k];
      NoneStays(root, vars, k + 1);
    } else {
      assert vars[..k] == vars;
    }
  }

  /** Sorting a literal list by variable, as Constraint's constructor does (a stable insertion by Abs). */
  function InsertByAbs(x: int, s: seq<int>): (r: seq<int>)
  {
    if s == [] then [x]
    else if Abs(x) < Abs(s[0]) then [x] + s
    else [s[0]] + InsertByAbs(x, s[1..])
  }

  function SortByAbs(s: seq<int>): (r: seq<int>)
  {
    if s == [] then [] else InsertByAbs(s[|s| - 1], SortByAbs(s[..|s| - 1]))
  }

  predicate AbsSorted(s: seq<int>) { forall i, j :: 0 <= i < j < |s| ==> Abs(s[i]) <= Abs(s[j]) }

  lemma {:induction false} InsertByAbsCount(x: int, s: seq<int>, a: Assignment)
    ensures multiset(InsertByAbs(x, s)) == multiset(s) + multiset{x}
    ensures CountTrue(InsertByAbs(x, s), a) == CountTrue(s, a) + CountTrue([x], a)
  {
    if s == [] {
    } else if Abs(x) < Abs(s[0]) {
      CountTrueAppend([x], s, a);
    } else {
      var t := InsertByAbs(x, s[1..]);
      InsertByAbsCount(x, s[1..], a);
      assert s == [s[0]] + s[1..];
      CountTrueAppend([s[0]], t, a);
      CountTrueAppend([s[0]], s[1..], a);
    }
  }

  /** Inserting keeps a lower bound on the variables that x and s share. */
  lemma {:induction false} InsertByAbsAbove(x: int, s: seq<int>, m: int)
    requires Abs(x) >= m && forall i :: 0 <= i < |s| ==> Abs(s[i]) >= m
    ensures forall i :: 0 <= i < |InsertByAbs(x, s)| ==> Abs(InsertByAbs(x, s)[i]) >= m
  {
    if s != [] && Abs(x) >= Abs(s[0]) {
      InsertByAbsAbove(x, s[1..], m);
    }
  }

  lemma {:induction false} InsertByAbsSorted(x: int, s: seq<int>)
    requires AbsSorted(s)
    ensures AbsSorted(InsertByAbs(x, s))
  {
    if s != [] && Abs(x) >= Abs(s[0]) {
      var r, t := InsertByAbs(x, s), InsertByAbs(x, s[1..]);
      InsertByAbsSorted(x, s[1..]);
      InsertByAbsAbove(x, s[1..], Abs(s[0]));
      assert r == [s[0]] + t;
    }
  }

  /** Constraint's literal order: the same literals, sorted by variable, so the same number are true. */
  lemma {:induction false} SortByAbsProps(s: seq<int>, a: Assignment)
    ensures AbsSorted(SortByAbs(s))
    ensures multiset(SortByAbs(s)) == multiset(s)
    ensures CountTrue(SortByAbs(s), a) == CountTrue(s, a)
  {
    if s != [] {
      var init := s[..|s| - 1];
      SortByAbsProps(init, a);
      InsertByAbsSorted(s[|s| - 1], SortByAbs(init));
      InsertByAbsCount(s[|s| - 1], SortByAbs(init), a);
      assert s == init + [s[|s| - 1]];
      CountTrueAppend(init, [s[|s| - 1]], a);
    }
  }

  /** The Constraint record: literals sorted by variable, and the bound. */
  function MakeConstraint(lits: seq<int>, bound: int): (c: Constraint)
    ensures c.bound == bound && multiset(c.lits) == multiset(lits) && AbsSorted(c.lits)
  {
    SortByAbsProps(lits, {});
    Constraint(SortByAbs(lits), bound)
  }

  /**
   * getConstraints: (1, 0) becomes the empty klause; otherwise a positive lower bound gives a
   * klause over the literals in their phase, and an upper bound below ndata a klause over the
   * negated literals with bound ndata - ub.
   */
  function GetConstraints(vars: seq<int>, phases: seq<int>, lb: int, ub: int, ndata: int): seq<Constraint>
  {
    if lb > ub then [MakeConstraint([], 1)]
    else
      (if lb > 0 then [MakeConstraint(PhaseLits(vars, phases, 1), lb)] else []) +
      (if ub < ndata then [MakeConstraint(PhaseLits(vars, phases, 0), ndata - ub)] else [])
  }

  predicate AllHold(cs: seq<Constraint>, a: Assignment)
  {
    forall i :: 0 <= i < |cs| ==> AtLeast(cs[i].lits, cs[i].bound, a)
  }

  /** A Constraint holds exactly when enough of the literals it was made from are true. */
  lemma MakeConstraintHolds(lits: seq<int>, bound: int, a: Assignment)
    ensures AtLeast(MakeConstraint(lits, bound).lits, bound, a) <==> CountTrue(lits, a) >= bound
  {
    SortByAbsProps(lits, a);
  }

  lemma AllHoldAppend(xs: seq<Constraint>, ys: seq<Constraint>, a: Assignment)
    ensures AllHold(xs + ys, a) <==> AllHold(xs, a) && AllHold(ys, a)
  {
    var zs := xs + ys;
    assert forall i :: 0 <= i < |xs| ==> zs[i] == xs[i];
    assert forall i :: 0 <= i < |ys| ==> zs[i + |xs|] == ys[i];
    if AllHold(xs, a) && AllHold(ys, a) {
      forall i | 0 <= i < |zs| ensures AtLeast(zs[i].lits, zs[i].bound, a) {
        if i >= |xs| { assert zs[i] == ys[i - |xs|]; }
      }
    }
  }

  lemma AllHoldOne(c: Constraint, a: Assignment)
    ensures AllHold([c], a) <==> AtLeast(c.lits, c.bound, a)
  {
    assert [c][0] == c;
  }

  /** Over 0/1 phases, the upper-bound literals are the lower-bound ones negated. */
  lemma PhaseLitsNegate(vars: seq<int>, phases: seq<int>)
    requires |vars| == |phases| && NonZero(vars)
    requires forall i :: 0 <= i < |phases| ==> phases[i] == 0 || phases[i] == 1
    ensures PhaseLits(vars, phases, 0) == Negate(PhaseLits(vars, phases, 1))
    ensures NonZero(PhaseLits(vars, phases, 1))
  {
  }

  /** The klauses generated for bounds lb..ub hold exactly when the count of true phase literals lies in lb..ub. */
  lemma GetConstraintsMeaning(vars: seq<int>, phases: seq<int>, lb: int, ub: int, a: Assignment)
    requires |vars| == |phases| && NonZero(vars)
    requires forall i :: 0 <= i < |phases| ==> phases[i] == 0 || phases[i] == 1
    requires lb > ub || (0 <= lb && ub <= |vars|)
    ensures AllHold(GetConstraints(vars, phases, lb, ub, |vars|), a) <==>
      lb <= CountTrue(PhaseLits(vars, phases, 1), a) <= ub
  {
    var pos, neg := PhaseLits(vars, phases, 1), PhaseLits(vars, phases, 0);
    var k := CountTrue(pos, a);
    CountTrueBound(pos, a);
    if lb > ub {
      MakeConstraintHolds([], 1, a);
      AllHoldOne(MakeConstraint([], 1), a);
    } else {
      var low := if lb > 0 then [MakeConstraint(pos, lb)] else [];
      var up := if ub < |vars| then [MakeConstraint(neg, |vars| - ub)] else [];
      assert GetConstraints(vars, phases, lb, ub, |vars|) == low + up;
      AllHoldAppend(low, up, a);
      MakeConstraintHolds(pos, lb, a);
      AllHoldOne(MakeConstraint(pos, lb), a);
      assert AllHold(low, a) <==> lb <= k;
      PhaseLitsNegate(vars, phases);
      CountNegate(pos, a);
      MakeConstraintHolds(neg, |vars| - ub, a);
      AllHoldOne(MakeConstraint(neg, |vars| - ub), a);
      assert AllHold(up, a) <==> k <= ub;
    }
  }

  /**
   * The analysis with the corrected check is exact: when it succeeds over positive data
   * variables, the klauses getConstraints makes hold under an assignment exactly when the
   * diagram does.
   */
  lemma KanalyzeMeaning(root: Node, dvars: seq<int>, a: Assignment)
    requires forall i :: 0 <= i < |dvars| ==> dvars[i] > 0
    requires FindSpecFixed(root, dvars).Some?
    ensures var (phases, lb, ub) := FindSpecFixed(root, dvars).value;
      Eval(root, a) <==> AllHold(GetConstraints(dvars, phases, lb, ub, |dvars|), a)
  {
    var (layer, phases) := Layered(root, dvars).value;
    var (_, lb, ub) := FindSpecFixed(root, dvars).value;
    LayeredEval(root, dvars, a);
    CheckFixedMeaning(layer);
    var k := CountTrue(PhaseLits(dvars, phases, 1), a);
    CountTrueBound(PhaseLits(dvars, phases, 1), a);
    assert Eval(layer[k], a) == layer[k].value;
    GetConstraintsMeaning(dvars, phases, lb, ub, a);
  }

  /**
   * The analysis as written agrees with the corrected one wherever the corrected check accepts,
   * except when the only true leaf is the last: there the klauses are exact as well.
   */
  lemma FindSpecAgrees(root: Node, dvars: seq<int>)
    requires FindSpecFixed(root, dvars).Some?
    requires var (_, lb, ub) := FindSpecFixed(root, dvars).value; lb > ub || lb < |dvars|
    ensures FindSpec(root, dvars) == FindSpecFixed(root, dvars)
  {
    var (layer, phases) := Layered(root, dvars).value;
    CheckAgrees(layer);
  }

  /**
   * check as written accepts a final layer whose true leaves are not one run: on [F, T, F, T]
   * it reports the bounds 1..3, where the corrected check fails.
   */
  lemma CheckAcceptsGap()
    ensures var layer := [Leaf(false), Leaf(true), Leaf(false), Leaf(true)];
      Check(layer) == Some((1, 3)) && CheckFixed(layer).None?
  {
    var layer := [Leaf(false), Leaf(true), Leaf(false), Leaf(true)];
    assert layer[..3] == [Leaf(false), Leaf(true), Leaf(false)];
    assert FirstTrue(layer[..3], 0) == 1;
    assert FirstTrue(layer, 0) == 1;
    assert LastTrue(layer, 3) == 3;
    assert layer[2] != Leaf(true);
  }

  /** The layers of odd parity over x1, x2, x3: every extension takes the positive phase. */
  lemma ParityLayered()
    ensures Layered(ParityRoot(), [1, 2, 3]) == Some(([Leaf(false), Leaf(true), Leaf(false), Leaf(true)], [1, 1, 1]))
  {
    var odd3 := Branch(3, Leaf(false), Leaf(true));
    var even3 := Branch(3, Leaf(true), Leaf(false));
    var p0 := Branch(2, odd3, even3);
    var p1 := Branch(2, even3, odd3);
    var root := ParityRoot();
    assert [1, 2, 3][..2] == [1, 2] && [1, 2][..1] == [1] && [1][..0] == [];
    assert HChildren([root]) == [p1] && LChildren([root]) == [p0];
    assert SplitsOn([root], 1);
    assert LowShiftsHigh([p1], [p0]);
    assert [p0] + [p1] == [p0, p1];
    assert TryExtend([root], 1, 1) == Some([p0, p1]);
    assert Extend([root], 1) == Some(([p0, p1], 1));
    assert Layered(root, []) == Some(([root], []));
    assert [] + [1] == [1];
    assert Layered(root, [1]) == Some(([p0, p1], [1]));
    var h2, l2 := HChildren([p0, p1]), LChildren([p0, p1]);
    assert h2 == [even3, odd3] && l2 == [odd3, even3];
    assert LowShiftsHigh(h2, l2) by {
      forall i, j | 0 <= i < |h2| && j == i + 1 && j < |l2| ensures l2[j] == h2[i] { assert i == 0; }
    }
    assert [l2[0]] + h2 == [odd3, even3, odd3];
    assert SplitsOn([p0, p1], 2);
    assert TryExtend([p0, p1], 1, 2) == Some([odd3, even3, odd3]);
    assert Extend([p0, p1], 2) == Some(([odd3, even3, odd3], 1));
    assert [1] + [1] == [1, 1];
    assert Layered(root, [1, 2]) == Some(([odd3, even3, odd3], [1, 1]));
    var l3 := [odd3, even3, odd3];
    var h3, lo3 := HChildren(l3), LChildren(l3);
    assert h3 == [Leaf(true), Leaf(false), Leaf(true)] && lo3 == [Leaf(false), Leaf(true), Leaf(false)];
    assert LowShiftsHigh(h3, lo3) by {
      forall i, j | 0 <= i < |h3| && j == i + 1 && j < |lo3| ensures lo3[j] == h3[i] { assert i == 0 || i == 1; }
    }
    assert [lo3[0]] + h3 == [Leaf(false), Leaf(true), Leaf(false), Leaf(true)];
    assert SplitsOn(l3, 3);
    assert TryExtend(l3, 1, 3) == Some([Leaf(false), Leaf(true), Leaf(false), Leaf(true)]);
    assert Extend(l3, 3) == Some(([Leaf(false), Leaf(true), Leaf(false), Leaf(true)], 1));
    assert [1, 1] + [1] == [1, 1, 1];
  }

  /**
   * On odd parity the analysis as written reports at least one of x1, x2, x3, the only klause
   * it makes; x1 = x2 = true satisfies that klause although parity is false. The corrected
   * analysis reports nothing.
   */
  lemma GapNotCaptured(dvars: seq<int>, a: Assignment)
    requires dvars == [1, 2, 3] && a == {1, 2}
    ensures FindSpec(ParityRoot(), dvars) == Some(([1, 1, 1], 1, 3))
    ensures FindSpecFixed(ParityRoot(), dvars).None?
    ensures AllHold(GetConstraints(dvars, [1, 1, 1], 1, 3, |dvars|), a) && !Eval(ParityRoot(), a)
  {
    ParityLayered();
    CheckAcceptsGap();
    var phases := [1, 1, 1];
    GapCount(dvars, phases, a);
    GetConstraintsMeaning(dvars, phases, 1, 3, a);
    var odd3 := Branch(3, Leaf(false), Leaf(true));
    assert 1 in a && 2 in a && 3 !in a;
    assert Eval(ParityRoot(), a) == Eval(Branch(2, Branch(3, Leaf(true), Leaf(false)), odd3), a) == Eval(odd3, a);
    assert !Eval(odd3, a);
  }

  /** Two of the positive phase literals x1, x2, x3 are true under x1 = x2 = true. */
  lemma GapCount(dvars: seq<int>, phases: seq<int>, a: Assignment)
    requires dvars == [1, 2, 3] && phases == [1, 1, 1] && a == {1, 2}
    ensures CountTrue(PhaseLits(dvars, phases, 1), a) == 2
  {
    var lits := PhaseLits(dvars, phases, 1);
    assert lits == dvars;
    assert lits[..2] == [1, 2] && lits[..2][..1] == [1] && lits[..2][..1][..0] == [];
    assert LitTrue(a, 1) && LitTrue(a, 2) && !LitTrue(a, 3);
    assert CountTrue(lits[..1], a) == 1;
    assert CountTrue(lits[..2], a) == 2;
  }

  /** One more variable adds its phase literal at the end. */
  lemma PhaseLitsSnoc(vars: seq<int>, phases: seq<int>)
    requires |vars| == |phases| > 0
    ensures var n := |vars| - 1;
      PhaseLits(vars, phases, 1) == PhaseLits(vars[..n], phases[..n], 1) + [PhaseLit(vars[n], phases[n])]
  {
  }

  /** Layered on a non-empty list: the layers of the shorter list, extended by the last variable. */
  lemma LayeredLast(root: Node, vars: seq<int>)
    requires vars != [] && Layered(root, vars).Some?
    ensures var n := |vars| - 1;
      Layered(root, vars[..n]).Some? && Extend(Layered(root, vars[..n]).value.0, vars[n]).Some? &&
      var e := Extend(Layered(root, vars[..n]).value.0, vars[n]).value;
      Layered(root, vars).value == (e.0, Layered(root, vars[..n]).value.1 + [e.1])
  {
  }

  /** After the extensions, the root behaves like the layer entry indexed by the number of true phase literals. */
  lemma {:induction false} LayeredEval(root: Node, vars: seq<int>, a: Assignment)
    requires forall i :: 0 <= i < |vars| ==> vars[i] > 0
    requires Layered(root, vars).Some?
    ensures var r := Layered(root, vars).value;
      CountTrue(PhaseLits(vars, r.1, 1), a) <= |vars| &&
      Eval(root, a) == Eval(r.0[CountTrue(PhaseLits(vars, r.1, 1), a)], a)
  {
    var r := Layered(root, vars).value;
    var lits := PhaseLits(vars, r.1, 1);
    CountTrueBound(lits, a);
    if vars != [] {
      var n := |vars| - 1;
      var init, x := vars[..n], vars[n];
      LayeredLast(root, vars);
      var p := Layered(root, init).value;
      var e := Extend(p.0, x).value;
      LayeredEval(root, init, a);
      var c0 := CountTrue(PhaseLits(init, p.1, 1), a);
      var step := if LitTrue(a, PhaseLit(x, e.1)) then 1 else 0;
      ExtendEval(p.0, x, a, c0);
      assert Eval(p.0[c0], a) == Eval(e.0[c0 + step], a);
      assert r.1[..n] == p.1 && r.1[n] == e.1;
      PhaseLitsSnoc(vars, r.1);
      assert lits[..n] == PhaseLits(init, p.1, 1) && lits[n] == PhaseLit(x, e.1);
      assert CountTrue(lits, a) == c0 + step;
    }
  }

  /** Constraint.knfString: the literals and the closing 0, after "k" and the bound unless the bound is 1. */
  function KnfString(c: Constraint): string
  {
    (if c.bound != 1 then "k " + ShowInt(c.bound) + " " else "") + Closed(c.lits)
  }

  /** The prototype writes a constraint as the C++ extractor writes a klause or a clause line. */
  lemma KnfStringAgrees(c: Constraint)
    ensures c.bound != 1 ==> KnfString(c) + "\n" == Extractor.KlauseLine(Extractor.Klause(c.lits, c.bound, false))
    ensures c.bound == 1 ==> KnfString(c) + "\n" == Extractor.ClauseLine(Extractor.Klause(c.lits, c.bound, false))
    ensures NonZeroAll(c.lits) ==> LiteralsOf(Closed(c.lits) + "\n") == c.lits
  {
    if NonZeroAll(c.lits) {
      ReadShowLits(c.lits, "\n");
    }
  }

  // ----- Permuter ----------------------------------------------------------------------

  datatype Permuter = Permuter(forwardMap: map<int, int>, reverseMap: map<int, int>)

  datatype PermResult = Built(p: Permuter) | UnequalLengths | NotPermutation

  /** The map the pairing loop leaves: pair i maps vs[i] to ps[i], later pairs overwriting earlier ones. */
  function Pairs(vs: seq<int>, ps: seq<int>): map<int, int>
    requires |vs| == |ps|
  {
    if vs == [] then map[] else Pairs(vs[..|vs| - 1], ps[..|ps| - 1])[vs[|vs| - 1] := ps[|ps| - 1]]
  }

  /** Every value of one list occurs in the other. */
  predicate SameValues(vs: seq<int>, qs: seq<int>)
  {
    (forall i :: 0 <= i < |vs| ==> vs[i] in qs) && (forall j :: 0 <= j < |qs| ==> qs[j] in vs)
  }

  /** The constructor: an empty permuted list means the identity; the lists must have equal length and, unless identity, the same values. */
  function PermuterOf(vs: seq<int>, ps: seq<int>): PermResult
  {
    var qs := if ps == [] then vs else ps;
    if |vs| != |qs| then UnequalLengths
    else if ps != [] && !SameValues(vs, qs) then NotPermutation
    else Built(Permuter(Pairs(vs, qs), Pairs(qs, vs)))
  }

  /** The constructor's pairing loop: each pair enters the forward map one way and the reverse map the other. */
  method PairMaps(vs: seq<int>, ps: seq<int>) returns (forward: map<int, int>, reverse: map<int, int>)
    requires |vs| == |ps|
    ensures forward == Pairs(vs, ps) && reverse == Pairs(ps, vs)
  {
    forward, reverse := map[], map[];
    var i := 0;
    while i < |vs|
      invariant 0 <= i <= |vs|
      invariant forward == Pairs(vs[..i], ps[..i]) && reverse == Pairs(ps[..i], vs[..i])
    {
      assert vs[..i + 1][..i] == vs[..i] && ps[..i + 1][..i] == ps[..i];
      forward, reverse := forward[vs[i] := ps[i]], reverse[ps[i] := vs[i]];
      i := i + 1;
    }
    assert vs[..i] == vs && ps[..i] == ps;
  }

  /** The constructor's permutation check: every listed value must be a key of the map. */
  method AllKeys(xs: seq<int>, m: map<int, int>) returns (ok: bool)
    ensures ok <==> forall k :: 0 <= k < |xs| ==> xs[k] in m
  {
    var j := 0;
    while j < |xs|
      invariant 0 <= j <= |xs|
      invariant forall k :: 0 <= k < j ==> xs[k] in m
    {
      if xs[j] !in m {
        return false;
      }
      j := j + 1;
    }
    return true;
  }

  /** The constructor: the pairs are entered, then (unless identity) every value is looked up in both maps. */
  method NewPermuter(valueList: seq<int>, permutedList: seq<int>) returns (r: PermResult)
    ensures r == PermuterOf(valueList, permutedList)
  {
    var identity := permutedList == [];
    var qs := if identity then valueList else permutedList;
    if |valueList| != |qs| {
      return UnequalLengths;
    }
    var forward, reverse := PairMaps(valueList, qs);
    r := Built(Permuter(forward, reverse));
    if identity {
      return;
    }
    var mapped := AllKeys(valueList, reverse);
    var mapping := AllKeys(qs, forward);
    SameValuesByKeys(valueList, qs);
    if !mapped || !mapping {
      r := NotPermutation;
    }
  }

  /** The permutation check looks values up in the maps; the keys of each map are the values of one list. */
  lemma SameValuesByKeys(vs: seq<int>, qs: seq<int>)
    requires |vs| == |qs|
    ensures SameValues(vs, qs) <==>
      (forall k :: 0 <= k < |vs| ==> vs[k] in Pairs(qs, vs)) && (forall k :: 0 <= k < |qs| ==> qs[k] in Pairs(vs, qs))
  {
    PairsKeys(vs, qs);
    PairsKeys(qs, vs);
    forall k | 0 <= k < |vs| ensures vs[k] in Pairs(qs, vs) <==> vs[k] in qs {
      var x := vs[k];
      assert x in Pairs(qs, vs) <==> x in qs;
    }
    forall k | 0 <= k < |qs| ensures qs[k] in Pairs(vs, qs) <==> qs[k] in vs {
      var x := qs[k];
      assert x in Pairs(vs, qs) <==> x in vs;
    }
  }

  /** The keys of the paired map are exactly the listed values. */
  lemma {:induction false} PairsKeys(vs: seq<int>, ps: seq<int>)
    requires |vs| == |ps|
    ensures forall v :: v in Pairs(vs, ps) <==> v in vs
  {
    if vs != [] {
      var n := |vs| - 1;
      PairsKeys(vs[..n], ps[..n]);
      assert vs == vs[..n] + [vs[n]];
    }
  }

  /** Over a duplicate-free list, pair i is never overwritten. */
  lemma {:induction false} PairsAt(vs: seq<int>, ps: seq<int>, i: int)
    requires |vs| == |ps| && Distinct(vs) && 0 <= i < |vs|
    ensures vs[i] in Pairs(vs, ps) && Pairs(vs, ps)[vs[i]] == ps[i]
  {
    var n := |vs| - 1;
    if i < n {
      PairsAt(vs[..n], ps[..n], i);
    }
  }

  /** Built over two duplicate-free lists, forward and reverse undo each other. */
  lemma PermuterInverse(vs: seq<int>, ps: seq<int>)
    requires Distinct(vs) && Distinct(ps)
    requires PermuterOf(vs, ps).Built?
    ensures var p := PermuterOf(vs, ps).p;
      (forall v :: v in p.forwardMap ==> p.forwardMap[v] in p.reverseMap && p.reverseMap[p.forwardMap[v]] == v) &&
      (forall q :: q in p.reverseMap ==> p.reverseMap[q] in p.forwardMap && p.forwardMap[p.reverseMap[q]] == q)
  {
    var qs := if ps == [] then vs else ps;
    var p := PermuterOf(vs, ps).p;
    PairsKeys(vs, qs);
    PairsKeys(qs, vs);
    forall v | v in p.forwardMap
      ensures p.forwardMap[v] in p.reverseMap && p.reverseMap[p.forwardMap[v]] == v
    {
      var i :| 0 <= i < |vs| && vs[i] == v;
      PairsAt(vs, qs, i);
      PairsAt(qs, vs, i);
    }
    forall q | q in p.reverseMap
      ensures p.reverseMap[q] in p.forwardMap && p.forwardMap[p.reverseMap[q]] == q
    {
      var i :| 0 <= i < |qs| && qs[i] == q;
      PairsAt(qs, vs, i);
      PairsAt(vs, qs, i);
    }
  }

  /** forward and reverse: a value outside the map raises. */
  function Forward(p: Permuter, v: int): (r: Option<int>)
    ensures r.Some? <==> v in p.forwardMap
  {
    if v in p.forwardMap then Some(p.forwardMap[v]) else None
  }

  function Reverse(p: Permuter, v: int): (r: Option<int>)
    ensures r.Some? <==> v in p.reverseMap
  {
    if v in p.reverseMap then Some(p.reverseMap[v]) else None
  }
}

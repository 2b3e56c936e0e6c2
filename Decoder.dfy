/**
 * The "staircase" decoder that reads a cardinality constraint off a decision diagram
 * (Extractor/cnf2knf/tbuddy/eval.cpp, TermSet::cardinality_converter), as specification
 * functions. Layer k holds one diagram per possible number of true literals among the
 * first k decoded ones; each step splits every diagram of the layer on one shared
 * variable and shifts the high children against the low children by one position.
 */
module Decoder {
  import opened Lits
  import opened Bdd

  function HChildren(layer: seq<Node>): (r: seq<Node>)
    ensures |r| == |layer|
  {
    seq(|layer|, i requires 0 <= i < |layer| => if layer[i].Leaf? then layer[i] else layer[i].hi)
  }

  function LChildren(layer: seq<Node>): (r: seq<Node>)
    ensures |r| == |layer|
  {
    seq(|layer|, i requires 0 <= i < |layer| => if layer[i].Leaf? then layer[i] else layer[i].lo)
  }

  /** The variable shared by the non-terminal nodes of a layer (0 when there is none); None when two differ. */
  function LayerVar(layer: seq<Node>): Option<int>
  {
    if layer == [] then Some(0)
    else
      match LayerVar(layer[..|layer| - 1])
      case None => None
      case Some(x) =>
        var b := layer[|layer| - 1];
        if b.Leaf? then Some(x)
        else if x == 0 then Some(b.v)
        else if x != b.v then None
        else Some(x)
  }

  /** Phase 0 fits when high child i + 1 is the very node that is low child i. */
  predicate HighShiftsLow(h: seq<Node>, l: seq<Node>)
  {
    forall i, j :: 0 <= i < |l| && j == i + 1 && j < |h| ==> h[j] == l[i]
  }

  /** Phase 1 fits when low child i + 1 is the very node that is high child i. */
  predicate LowShiftsHigh(h: seq<Node>, l: seq<Node>)
  {
    forall i, j :: 0 <= i < |h| && j == i + 1 && j < |l| ==> l[j] == h[i]
  }

  predicate Compatible(h: seq<Node>, l: seq<Node>, p: int)
  {
    if p == 0 then HighShiftsLow(h, l) else LowShiftsHigh(h, l)
  }

  datatype StepResult = StepResult(layer: seq<Node>, splitVar: int, phase: int)

  /** The literal a step decodes: its variable, negated in phase 0. */
  function StepLit(s: StepResult): int { if s.phase == 1 then s.splitVar else -s.splitVar }

  /** One decoding step; phase 0 (a negative literal) is tried before phase 1. */
  function Step(layer: seq<Node>): Option<StepResult>
    requires |layer| >= 1
  {
    match LayerVar(layer)
    case None => None
    case Some(x) =>
      var h, l := HChildren(layer), LChildren(layer);
      if Compatible(h, l, 0) then Some(StepResult([h[0]] + l, x, 0))
      else if Compatible(h, l, 1) then Some(StepResult([l[0]] + h, x, 1))
      else None
  }

  datatype Decoded = Decoded(layer: seq<Node>, lits: seq<int>)

  /** Step number k (counted from 1): a layer without a decision variable is allowed only as the last one. */
  function Next(d: Decoded, k: nat, ndata: nat): Option<Decoded>
    requires |d.layer| >= 1
  {
    match Step(d.layer)
    case None => None
    case Some(s) =>
      if s.splitVar != 0 then Some(Decoded(s.layer, d.lits + [StepLit(s)]))
      else if k - 1 < ndata - 1 then None
      else Some(Decoded(s.layer, d.lits))
  }

  /** The first k steps from the root. */
  function Layers(root: Node, k: nat, ndata: nat): (r: Option<Decoded>)
    ensures r.Some? ==> |r.value.layer| == k + 1
  {
    if k == 0 then Some(Decoded([root], []))
    else
      match Layers(root, k - 1, ndata)
      case None => None
      case Some(d) => Next(d, k, ndata)
  }

  /** First index from `from` on that holds the true leaf, or |layer| if there is none. */
  function FirstTrue(layer: seq<Node>, from: nat): (r: nat)
    requires from <= |layer|
    ensures from <= r <= |layer|
    ensures r < |layer| ==> layer[r] == Leaf(true)
    ensures forall i :: from <= i < r ==> layer[i] != Leaf(true)
    decreases |layer| - from
  {
    if from == |layer| then |layer|
    else if layer[from] == Leaf(true) then from
    else FirstTrue(layer, from + 1)
  }

  /** Scanning down from h to 1: the first index holding the true leaf, or 0. Index 0 itself is never inspected. */
  function LastTrue(layer: seq<Node>, h: nat): (r: nat)
    requires h < |layer|
    ensures r <= h
    ensures r > 0 ==> layer[r] == Leaf(true)
    ensures forall i :: r < i <= h ==> layer[i] != Leaf(true)
  {
    if h == 0 then 0
    else if layer[h] == Leaf(true) then h
    else LastTrue(layer, h - 1)
  }

  datatype Card = Card(lits: seq<int>, lower: int, upper: int)

  function Range(n: nat): (r: seq<int>)
    ensures |r| == n && forall i :: 0 <= i < n ==> r[i] == i + 1
  {
    seq(n, i requires 0 <= i < n => i + 1)
  }

  /** The decoder as written: lower = first true entry below ndata, upper = last true entry above 0, (1, 0) if they cross. */
  function Converter(root: Node, ndata: nat): Option<Card>
  {
    if root.Leaf? then
      Some(Card(Range(ndata), if root.value then 0 else ndata, if root.value then ndata else 0))
    else
      match Layers(root, ndata, ndata)
      case None => None
      case Some(d) =>
        var l := FirstTrue(d.layer[..ndata], 0);
        var h := LastTrue(d.layer, ndata);
        if l > h then Some(Card(d.lits, 1, 0)) else Some(Card(d.lits, l, h))
  }

  /**
   * The bounds read off the final layer, checked: every entry must be a leaf, some entry
   * must be true, and the true entries must form one run.
   */
  function CheckedBounds(layer: seq<Node>): Option<(int, int)>
    requires |layer| >= 1
  {
    if exists i :: 0 <= i < |layer| && !layer[i].Leaf? then None
    else
      var l := FirstTrue(layer, 0);
      if l == |layer| then None
      else
        var h := LastTrue(layer, |layer| - 1);
        if exists i :: l <= i <= h && layer[i] != Leaf(true) then None
        else Some((l, h))
  }

  /** The decoder with the checked final scan. */
  function CheckedConverter(root: Node, ndata: nat): Option<Card>
  {
    if root.Leaf? then
      Some(Card(Range(ndata), if root.value then 0 else ndata, if root.value then ndata else 0))
    else
      match Layers(root, ndata, ndata)
      case None => None
      case Some(d) =>
        match CheckedBounds(d.layer)
        case None => None
        case Some(b) => Some(Card(d.lits, b.0, b.1))
  }

  predicate PositiveSupport(n: Node) { forall v :: v in Support(n) ==> v > 0 }

  predicate Within(layer: seq<Node>, root: Node)
  {
    forall i :: 0 <= i < |layer| ==> Support(layer[i]) <= Support(root)
  }

  lemma {:induction false} LayerVarMeaning(layer: seq<Node>, x: int)
    requires forall i :: 0 <= i < |layer| ==> PositiveSupport(layer[i])
    requires LayerVar(layer) == Some(x)
    ensures x >= 0
    ensures x == 0 ==> forall i :: 0 <= i < |layer| ==> layer[i].Leaf?
    ensures x != 0 ==> forall i :: 0 <= i < |layer| && !layer[i].Leaf? ==> layer[i].v == x
  {
    if layer != [] {
      var init := layer[..|layer| - 1];
      var b := layer[|layer| - 1];
      var y :| LayerVar(init) == Some(y);
      LayerVarMeaning(init, y);
      assert forall i :: 0 <= i < |init| ==> layer[i] == init[i];
      if !b.Leaf? {
        assert b.v in Support(b);
      }
    }
  }

  /** Every entry of the next layer is a child of (or equal to) an entry of the current one. */
  lemma StepSupport(layer: seq<Node>)
    requires |layer| >= 1 && Step(layer).Some?
    ensures var s := Step(layer).value;
      |s.layer| == |layer| + 1 &&
      forall j :: 0 <= j < |s.layer| ==> exists i :: 0 <= i < |layer| && Support(s.layer[j]) <= Support(layer[i])
  {
    var s := Step(layer).value;
    var h, l := HChildren(layer), LChildren(layer);
    forall j | 0 <= j < |s.layer|
      ensures exists i :: 0 <= i < |layer| && Support(s.layer[j]) <= Support(layer[i])
    {
      var i := if j == 0 then 0 else j - 1;
      assert s.layer[j] == h[i] || s.layer[j] == l[i];
      assert Support(h[i]) <= Support(layer[i]) && Support(l[i]) <= Support(layer[i]);
    }
  }

  /** A layer with no decision variable is one constant leaf repeated, and so is the next one. */
  lemma StepConstant(layer: seq<Node>)
    requires |layer| >= 1
    requires forall i :: 0 <= i < |layer| ==> PositiveSupport(layer[i])
    requires Step(layer).Some? && Step(layer).value.splitVar == 0
    ensures (forall i :: 0 <= i < |layer| ==> layer[i] == layer[0]) && layer[0].Leaf?
    ensures var s := Step(layer).value; forall j :: 0 <= j < |s.layer| ==> s.layer[j] == layer[0]
  {
    var s := Step(layer).value;
    LayerVarMeaning(layer, 0);
    var h, l := HChildren(layer), LChildren(layer);
    assert h == layer && l == layer;
    forall i | 0 <= i < |layer| - 1 ensures layer[i + 1] == layer[i] {
      assert HighShiftsLow(layer, layer);
      assert layer[i + 1] == layer[i];
    }
    AllEqual(layer);
  }

  /** A node labelled by x, or a leaf, evaluates to its high or low child according to x. */
  lemma EvalSplit(n: Node, x: int, a: Assignment)
    requires n.Leaf? || n.v == x
    ensures Eval(n, a) == if x in a then Eval(if n.Leaf? then n else n.hi, a) else Eval(if n.Leaf? then n else n.lo, a)
  {
  }

  /** One decoding step on literal lit: entry c of the layer agrees with entry c + [lit true] of the next. */
  lemma StepEval(layer: seq<Node>, a: Assignment)
    requires |layer| >= 1
    requires forall i :: 0 <= i < |layer| ==> PositiveSupport(layer[i])
    requires Step(layer).Some? && Step(layer).value.splitVar != 0
    ensures Step(layer).value.splitVar > 0
    ensures forall c :: 0 <= c < |layer| ==>
      Eval(layer[c], a) == Eval(Step(layer).value.layer[c + (if LitTrue(a, StepLit(Step(layer).value)) then 1 else 0)], a)
  {
    var s := Step(layer).value;
    var x := s.splitVar;
    LayerVarMeaning(layer, x);
    var h, l := HChildren(layer), LChildren(layer);
    forall c | 0 <= c < |layer|
      ensures Eval(layer[c], a) == Eval(s.layer[c + (if LitTrue(a, StepLit(s)) then 1 else 0)], a)
    {
      EvalSplit(layer[c], x, a);
      assert Eval(layer[c], a) == if x in a then Eval(h[c], a) else Eval(l[c], a);
      if s.phase == 0 {
        assert Compatible(h, l, 0);
        if x in a && c > 0 { assert h[c] == l[c - 1]; }
      } else {
        assert Compatible(h, l, 1);
        if x !in a && c > 0 { assert l[c] == h[c - 1]; }
      }
    }
  }

  lemma {:induction false} AllEqual(s: seq<Node>)
    requires forall i :: 0 <= i < |s| - 1 ==> s[i + 1] == s[i]
    ensures forall i :: 0 <= i < |s| ==> s[i] == s[0]
    decreases |s|
  {
    if |s| > 1 {
      AllEqual(s[..|s| - 1]);
      assert s[|s| - 1] == s[|s| - 2];
    }
  }

  /**
   * The layer invariant after k steps: the root agrees, under every assignment, with the
   * layer entry indexed by the number of true decoded literals; fewer literals than steps
   * only after a final step over a constant layer.
   */
  ghost predicate Decodes(root: Node, d: Decoded, k: nat, ndata: nat)
  {
    |d.layer| == k + 1 && |d.lits| <= k && NonZero(d.lits) && Within(d.layer, root) &&
    (forall a :: CountTrue(d.lits, a) <= |d.lits| && Eval(root, a) == Eval(d.layer[CountTrue(d.lits, a)], a)) &&
    (|d.lits| < k ==> k == ndata && d.layer[0].Leaf? && forall j :: 0 <= j < |d.layer| ==> d.layer[j] == d.layer[0])
  }

  lemma NextEval(root: Node, e: Decoded, k: nat, ndata: nat, a: Assignment)
    requires 1 <= k <= ndata
    requires |e.layer| == k && |e.lits| <= k - 1
    requires forall i :: 0 <= i < |e.layer| ==> PositiveSupport(e.layer[i])
    requires CountTrue(e.lits, a) <= |e.lits| && Eval(root, a) == Eval(e.layer[CountTrue(e.lits, a)], a)
    requires Next(e, k, ndata).Some?
    ensures var d := Next(e, k, ndata).value;
      CountTrue(d.lits, a) <= |d.lits| && |d.lits| < |d.layer| && Eval(root, a) == Eval(d.layer[CountTrue(d.lits, a)], a)
  {
    if Step(e.layer).value.splitVar != 0 {
      NextEvalSplit(root, e, k, ndata, a);
    } else {
      NextEvalConstant(root, e, k, ndata, a);
    }
  }

  /** The step split on a variable: the count moves past the new literal exactly when it is true. */
  lemma NextEvalSplit(root: Node, e: Decoded, k: nat, ndata: nat, a: Assignment)
    requires 1 <= k <= ndata
    requires |e.layer| == k && |e.lits| <= k - 1
    requires forall i :: 0 <= i < |e.layer| ==> PositiveSupport(e.layer[i])
    requires CountTrue(e.lits, a) <= |e.lits| && Eval(root, a) == Eval(e.layer[CountTrue(e.lits, a)], a)
    requires Next(e, k, ndata).Some? && Step(e.layer).value.splitVar != 0
    ensures var d := Next(e, k, ndata).value;
      CountTrue(d.lits, a) <= |d.lits| && |d.lits| < |d.layer| && Eval(root, a) == Eval(d.layer[CountTrue(d.lits, a)], a)
  {
    var s := Step(e.layer).value;
    var lit := StepLit(s);
    assert Next(e, k, ndata).value == Decoded(s.layer, e.lits + [lit]);
    var c := CountTrue(e.lits, a);
    StepEval(e.layer, a);
    assert Eval(e.layer[c], a) == Eval(s.layer[c + (if LitTrue(a, lit) then 1 else 0)], a);
    ShiftEval(root, s.layer, e.lits, lit, a);
  }

  /** Appending lit to the decoded literals moves the count past it exactly when it is true. */
  lemma ShiftEval(root: Node, next: seq<Node>, lits: seq<int>, lit: int, a: Assignment)
    requires CountTrue(lits, a) <= |lits| && |lits| + 1 < |next|
    requires Eval(root, a) == Eval(next[CountTrue(lits, a) + (if LitTrue(a, lit) then 1 else 0)], a)
    ensures CountTrue(lits + [lit], a) <= |lits + [lit]| < |next|
    ensures Eval(root, a) == Eval(next[CountTrue(lits + [lit], a)], a)
  {
    CountTrueAppend(lits, [lit], a);
    assert [lit][..0] == [];
  }

  /** The step on constant layers: every node is the same leaf, so any position evaluates alike. */
  lemma NextEvalConstant(root: Node, e: Decoded, k: nat, ndata: nat, a: Assignment)
    requires 1 <= k <= ndata
    requires |e.layer| == k && |e.lits| <= k - 1
    requires forall i :: 0 <= i < |e.layer| ==> PositiveSupport(e.layer[i])
    requires CountTrue(e.lits, a) <= |e.lits| && Eval(root, a) == Eval(e.layer[CountTrue(e.lits, a)], a)
    requires Next(e, k, ndata).Some? && Step(e.layer).value.splitVar == 0
    ensures var d := Next(e, k, ndata).value;
      CountTrue(d.lits, a) <= |d.lits| && |d.lits| < |d.layer| && Eval(root, a) == Eval(d.layer[CountTrue(d.lits, a)], a)
  {
    var d := Next(e, k, ndata).value;
    var s := Step(e.layer).value;
    var c := CountTrue(e.lits, a);
    StepConstant(e.layer);
    assert d.layer == s.layer && d.lits == e.lits;
    assert e.layer[c] == e.layer[0] && s.layer[c] == e.layer[0];
  }

  lemma NextMeaning(root: Node, e: Decoded, k: nat, ndata: nat)
    requires 1 <= k <= ndata && PositiveSupport(root)
    requires Decodes(root, e, k - 1, ndata) && Next(e, k, ndata).Some?
    ensures Decodes(root, Next(e, k, ndata).value, k, ndata)
  {
    var d := Next(e, k, ndata).value;
    assert forall i :: 0 <= i < |e.layer| ==> PositiveSupport(e.layer[i]) by {
      forall i | 0 <= i < |e.layer| ensures PositiveSupport(e.layer[i]) { assert Support(e.layer[i]) <= Support(root); }
    }
    var s := Step(e.layer).value;
    StepSupport(e.layer);
    assert Within(d.layer, root) by {
      forall j | 0 <= j < |d.layer| ensures Support(d.layer[j]) <= Support(root) {
        var i :| 0 <= i < |e.layer| && Support(s.layer[j]) <= Support(e.layer[i]);
      }
    }
    forall a ensures CountTrue(d.lits, a) <= |d.lits| && Eval(root, a) == Eval(d.layer[CountTrue(d.lits, a)], a) {
      NextEval(root, e, k, ndata, a);
    }
    if s.splitVar == 0 {
      StepConstant(e.layer);
    }
  }

  lemma {:induction false} LayersMeaning(root: Node, k: nat, ndata: nat)
    requires k <= ndata && PositiveSupport(root)
    requires Layers(root, k, ndata).Some?
    ensures Decodes(root, Layers(root, k, ndata).value, k, ndata)
  {
    if k > 0 {
      LayersMeaning(root, k - 1, ndata);
      NextMeaning(root, Layers(root, k - 1, ndata).value, k, ndata);
    }
  }

  /** On a final layer of leaves whose true entries form the run l..h, an entry is true exactly inside the run. */
  lemma CheckedBoundsMeaning(layer: seq<Node>, n: nat)
    requires |layer| >= 1 && CheckedBounds(layer).Some? && n < |layer|
    ensures var b := CheckedBounds(layer).value;
      0 <= b.0 <= b.1 < |layer| && layer[n].Leaf? &&
      (layer[n].value <==> b.0 <= n <= b.1)
  {
    var l := FirstTrue(layer, 0);
    var h := LastTrue(layer, |layer| - 1);
    assert layer[l] == Leaf(true);
    assert l <= h;
    assert forall i :: l <= i <= h ==> layer[i] == Leaf(true);
    assert layer[n].Leaf?;
  }

  /** With the checked scan, the decoded klause pair means exactly what the diagram means. */
  lemma CheckedConverterMeaning(root: Node, ndata: nat, a: Assignment)
    requires PositiveSupport(root) && ndata >= 1
    requires CheckedConverter(root, ndata).Some?
    ensures var c := CheckedConverter(root, ndata).value;
      |c.lits| <= ndata && NonZero(c.lits) &&
      0 <= c.lower <= ndata && 0 <= c.upper <= ndata &&
      (|c.lits| < ndata ==> c.lower == 0 && c.upper == ndata) &&
      (Eval(root, a) <==> c.lower <= CountTrue(c.lits, a) <= c.upper)
  {
    var c := CheckedConverter(root, ndata).value;
    CountTrueBound(c.lits, a);
    if !root.Leaf? {
      LayersMeaning(root, ndata, ndata);
      var d := Layers(root, ndata, ndata).value;
      var n := CountTrue(d.lits, a);
      CheckedBoundsMeaning(d.layer, n);
      if |d.lits| < ndata {
        CheckedBoundsMeaning(d.layer, 0);
        CheckedBoundsMeaning(d.layer, ndata);
      }
    }
  }

  /**
   * The threshold round trip: a diagram that says "exactly k of the literals the decoder
   * reads off", over ndata literals on distinct variables, is read back with lower and upper
   * both k.
   */
  lemma ExactlyRoundTrip(root: Node, ndata: nat, k: nat)
    requires PositiveSupport(root) && ndata >= 1 && k <= ndata
    requires CheckedConverter(root, ndata).Some?
    requires var c := CheckedConverter(root, ndata).value;
      |c.lits| == ndata && DistinctVars(c.lits) && forall a :: Eval(root, a) <==> CountTrue(c.lits, a) == k
    ensures CheckedConverter(root, ndata).value.lower == k && CheckedConverter(root, ndata).value.upper == k
  {
    var c := CheckedConverter(root, ndata).value;
    CheckedConverterMeaning(root, ndata, PrefixTrue(c.lits, k));
    PrefixTrueCount(c.lits, k);
    CheckedConverterMeaning(root, ndata, PrefixTrue(c.lits, c.lower));
    PrefixTrueCount(c.lits, c.lower);
    CheckedConverterMeaning(root, ndata, PrefixTrue(c.lits, c.upper));
    PrefixTrueCount(c.lits, c.upper);
  }

  /** The one-sided round trip: "at least k" (k >= 1) is read back as lower k, upper left at ndata. */
  lemma AtLeastRoundTrip(root: Node, ndata: nat, k: nat)
    requires PositiveSupport(root) && 1 <= k <= ndata
    requires CheckedConverter(root, ndata).Some?
    requires var c := CheckedConverter(root, ndata).value;
      |c.lits| == ndata && DistinctVars(c.lits) && forall a :: Eval(root, a) <==> CountTrue(c.lits, a) >= k
    ensures CheckedConverter(root, ndata).value.lower == k && CheckedConverter(root, ndata).value.upper == ndata
  {
    var c := CheckedConverter(root, ndata).value;
    CheckedConverterMeaning(root, ndata, PrefixTrue(c.lits, k));
    PrefixTrueCount(c.lits, k);
    CheckedConverterMeaning(root, ndata, PrefixTrue(c.lits, ndata));
    PrefixTrueCount(c.lits, ndata);
    CheckedConverterMeaning(root, ndata, PrefixTrue(c.lits, c.lower));
    PrefixTrueCount(c.lits, c.lower);
  }

  /** The one-sided round trip: "at most k" (k < ndata) is read back as upper k, lower left at 0. */
  lemma AtMostRoundTrip(root: Node, ndata: nat, k: nat)
    requires PositiveSupport(root) && k < ndata
    requires CheckedConverter(root, ndata).Some?
    requires var c := CheckedConverter(root, ndata).value;
      |c.lits| == ndata && DistinctVars(c.lits) && forall a :: Eval(root, a) <==> CountTrue(c.lits, a) <= k
    ensures CheckedConverter(root, ndata).value.lower == 0 && CheckedConverter(root, ndata).value.upper == k
  {
    var c := CheckedConverter(root, ndata).value;
    CheckedConverterMeaning(root, ndata, PrefixTrue(c.lits, k));
    PrefixTrueCount(c.lits, k);
    CheckedConverterMeaning(root, ndata, PrefixTrue(c.lits, 0));
    PrefixTrueCount(c.lits, 0);
    CheckedConverterMeaning(root, ndata, PrefixTrue(c.lits, c.upper));
    PrefixTrueCount(c.lits, c.upper);
  }

  /**
   * The staircase diagram over x1..xn, reduced as the package builds it: the node at depth i
   * that has seen j true variables decides on x(i+1), and the leaf after xn is true when j
   * lies in lo..hi. It is the diagram of "between lo and hi of x1..xn".
   */
  function Cell(n: nat, lo: int, hi: int, i: nat, j: nat): Node
    decreases n - i
  {
    if i >= n then Leaf(lo <= j <= hi)
    else Mk(i + 1, Cell(n, lo, hi, i + 1, j), Cell(n, lo, hi, i + 1, j + 1))
  }

  function Staircase(n: nat, lo: int, hi: int): Node { Cell(n, lo, hi, 0, 0) }

  /** A cell at depth i holds when its count so far plus the true variables of x(i+1)..xn lies in lo..hi. */
  lemma {:induction false} CellMeaning(n: nat, lo: int, hi: int, i: nat, j: nat, a: Assignment)
    requires i <= n
    ensures Eval(Cell(n, lo, hi, i, j), a) <==> lo <= j + CountTrue(Range(n)[i..], a) <= hi
    decreases n - i
  {
    if i < n {
      var rest := Range(n)[i + 1..];
      assert Range(n)[i..] == [i + 1] + rest;
      CountTrueAppend([i + 1], rest, a);
      assert CountTrue([i + 1], a) == (if i + 1 in a then 1 else 0) by {
        assert [i + 1][..0] == [];
      }
      CellMeaning(n, lo, hi, i + 1, j, a);
      CellMeaning(n, lo, hi, i + 1, j + 1, a);
    }
  }

  /** The staircase means "between lo and hi of x1..xn are true". */
  lemma StaircaseMeaning(n: nat, lo: int, hi: int, a: Assignment)
    ensures Eval(Staircase(n, lo, hi), a) <==> lo <= CountTrue(Range(n), a) <= hi
  {
    CellMeaning(n, lo, hi, 0, 0, a);
    assert Range(n)[0..] == Range(n);
  }

  /** A cell at depth i mentions only x(i+1)..xn. */
  lemma {:induction false} CellSupport(n: nat, lo: int, hi: int, i: nat, j: nat)
    ensures forall v :: v in Support(Cell(n, lo, hi, i, j)) ==> i < v <= n
    decreases n - i
  {
    if i < n {
      CellSupport(n, lo, hi, i + 1, j);
      CellSupport(n, lo, hi, i + 1, j + 1);
    }
  }

  /**
   * The shape of a reduced cell, with m = n - i variables still to come: the false leaf when
   * no count j..j+m reaches lo..hi, the true leaf when every one does, and otherwise a branch
   * on x(i+1) over its two children.
   */
  lemma {:induction false} CellShape(n: nat, lo: int, hi: int, i: nat, j: nat)
    requires i <= n && lo <= hi
    ensures var m := n - i;
      Cell(n, lo, hi, i, j) ==
        if j > hi || j + m < lo then Leaf(false)
        else if lo <= j && j + m <= hi then Leaf(true)
        else Branch(i + 1, Cell(n, lo, hi, i + 1, j), Cell(n, lo, hi, i + 1, j + 1))
    decreases n - i
  {
    if i < n {
      var A, B := Cell(n, lo, hi, i + 1, j), Cell(n, lo, hi, i + 1, j + 1);
      CellShape(n, lo, hi, i + 1, j);
      CellShape(n, lo, hi, i + 1, j + 1);
      if A.Branch? && B.Branch? {
        CellShape(n, lo, hi, i + 2, j + 1);
        CellShape(n, lo, hi, i + 2, j + 2);
      }
    }
  }

  /** Layer k of the staircase: entry c is the depth-k cell that has seen k - c true variables. */
  function StairRow(n: nat, lo: int, hi: int, k: nat): (r: seq<Node>)
    ensures |r| == k + 1
  {
    seq(k + 1, c requires 0 <= c <= k => Cell(n, lo, hi, k, k - c))
  }

  /** A layer of leaves and branches on one variable x != 0: its decision variable is x if it has a branch, else 0. */
  lemma {:induction false} LayerVarShared(layer: seq<Node>, x: int)
    requires x != 0 && forall i :: 0 <= i < |layer| ==> layer[i].Leaf? || layer[i].v == x
    ensures LayerVar(layer) == if exists i :: 0 <= i < |layer| && layer[i].Branch? then Some(x) else Some(0)
  {
    if layer != [] {
      var init := layer[..|layer| - 1];
      LayerVarShared(init, x);
      if exists i :: 0 <= i < |init| && init[i].Branch? {
        var i :| 0 <= i < |init| && init[i].Branch?;
        assert layer[i] == init[i];
      }
      if exists i :: 0 <= i < |layer| && layer[i].Branch? {
        var i :| 0 <= i < |layer| && layer[i].Branch?;
        if i < |init| { assert init[i] == layer[i]; }
      }
    }
  }

  /**
   * Unless it is constantly true, the staircase has a branch in every layer before the last:
   * the cell that has seen lo - m true variables (or none) when lo >= 1, and the one that has
   * seen min(d, hi) otherwise.
   */
  lemma StairBranch(n: nat, lo: nat, hi: nat, d: nat) returns (c: nat)
    requires lo <= hi <= n && d < n && !(lo == 0 && hi == n)
    ensures c <= d && StairRow(n, lo, hi, d)[c].Branch?
  {
    var m := n - d;
    var j: nat;
    if lo >= 1 {
      j := if lo >= m then lo - m else 0;
    } else {
      j := if d <= hi then d else hi;
    }
    CellShape(n, lo, hi, d, j);
    c := d - j;
    assert StairRow(n, lo, hi, d)[c] == Cell(n, lo, hi, d, j);
  }

  /**
   * Every round on the staircase splits on the next variable in phase 0. A branch at depth
   * k - 1 has the two cells of depth k as children; a leaf stands for itself and equals both
   * of them, since Mk only collapses equal children. So high child c + 1 is low child c.
   */
  lemma StairStep(n: nat, lo: nat, hi: nat, k: nat)
    requires 1 <= k <= n && lo <= hi <= n && !(lo == 0 && hi == n)
    ensures Step(StairRow(n, lo, hi, k - 1)) == Some(StepResult(StairRow(n, lo, hi, k), k, 0))
  {
    var layer := StairRow(n, lo, hi, k - 1);
    var h, l := HChildren(layer), LChildren(layer);
    forall c | 0 <= c < k
      ensures layer[c].Leaf? || layer[c].v == k
      ensures h[c] == Cell(n, lo, hi, k, k - c) && l[c] == Cell(n, lo, hi, k, k - 1 - c)
    {
      assert layer[c] == Mk(k, Cell(n, lo, hi, k, k - 1 - c), Cell(n, lo, hi, k, k - c));
      CellShape(n, lo, hi, k - 1, k - 1 - c);
    }
    var b := StairBranch(n, lo, hi, k - 1);
    LayerVarShared(layer, k);
    assert HighShiftsLow(h, l);
    assert [h[0]] + l == StairRow(n, lo, hi, k);
  }

  /** So the first k rounds decode -x1..-xk and leave StairRow k. */
  lemma {:induction false} StaircaseLayers(n: nat, lo: nat, hi: nat, k: nat)
    requires k <= n && lo <= hi <= n && !(lo == 0 && hi == n)
    ensures Layers(Staircase(n, lo, hi), k, n) == Some(Decoded(StairRow(n, lo, hi, k), Negate(Range(k))))
  {
    if k == 0 {
      assert StairRow(n, lo, hi, 0) == [Staircase(n, lo, hi)];
    } else {
      StaircaseLayers(n, lo, hi, k - 1);
      StairStep(n, lo, hi, k);
      var lit := -(k as int);
      assert Negate(Range(k - 1)) + [lit] == Negate(Range(k));
    }
  }

  /**
   * The checked decoder accepts the staircase of lo..hi over n >= 1 variables, unless it is
   * constantly true: it reads the literals -x1..-xn with the bounds n - hi..n - lo, since c of
   * them are true exactly when n - c of x1..xn are.
   */
  lemma StaircaseDecodes(n: nat, lo: nat, hi: nat)
    requires 1 <= n && lo <= hi <= n && !(lo == 0 && hi == n)
    ensures CheckedConverter(Staircase(n, lo, hi), n) == Some(Card(Negate(Range(n)), n - hi, n - lo))
  {
    var b := StairBranch(n, lo, hi, 0);
    assert Staircase(n, lo, hi) == StairRow(n, lo, hi, 0)[0];
    StaircaseLayers(n, lo, hi, n);
    StairBounds(n, lo, hi);
  }

  /** The final layer of the staircase: leaves, true exactly on the run n - hi..n - lo. */
  lemma StairBounds(n: nat, lo: nat, hi: nat)
    requires 1 <= n && lo <= hi <= n
    ensures CheckedBounds(StairRow(n, lo, hi, n)) == Some((n - hi, n - lo))
  {
    var layer := StairRow(n, lo, hi, n);
    forall c | 0 <= c <= n
      ensures layer[c] == Leaf(lo <= n - c <= hi)
    {
      assert layer[c] == Cell(n, lo, hi, n, n - c);
    }
    assert layer[n - hi] == Leaf(true);
    assert FirstTrue(layer, 0) == n - hi;
    if n - lo > 0 {
      assert layer[n - lo] == Leaf(true);
    }
    assert LastTrue(layer, n) == n - lo;
  }

  /** The decoded literals -x1..-xn are non-zero and on distinct variables. */
  lemma NegRangeFacts(n: nat)
    ensures NonZero(Negate(Range(n))) && DistinctVars(Negate(Range(n)))
  {
  }

  /**
   * The exactly-k gadget: the staircase of "exactly k of -x1..-xn" is accepted and read back
   * with lower == upper == k. It meets every premise of ExactlyRoundTrip.
   */
  lemma ExactlyGadget(n: nat, k: nat)
    requires 1 <= n && k <= n
    ensures var root := Staircase(n, n - k, n - k);
      PositiveSupport(root) && DistinctVars(Negate(Range(n))) &&
      (forall a :: Eval(root, a) <==> CountTrue(Negate(Range(n)), a) == k) &&
      CheckedConverter(root, n) == Some(Card(Negate(Range(n)), k, k))
  {
    GadgetFacts(n, n - k, n - k);
  }

  /**
   * The at-least-k gadget: the staircase of "at least k of -x1..-xn" (at most n - k of x1..xn)
   * is accepted and read back with the bounds k..n, as AtLeastRoundTrip states.
   */
  lemma AtLeastGadget(n: nat, k: nat)
    requires 1 <= k <= n
    ensures var root := Staircase(n, 0, n - k);
      PositiveSupport(root) && DistinctVars(Negate(Range(n))) &&
      (forall a :: Eval(root, a) <==> CountTrue(Negate(Range(n)), a) >= k) &&
      CheckedConverter(root, n) == Some(Card(Negate(Range(n)), k, n))
  {
    var root := Staircase(n, 0, n - k);
    GadgetFacts(n, 0, n - k);
    assert n - (n - k) == k;
    forall a: Assignment
      ensures Eval(root, a) <==> CountTrue(Negate(Range(n)), a) >= k
    {
      CountTrueBound(Negate(Range(n)), a);
    }
  }

  /**
   * The at-most-k gadget: the staircase of "at most k of -x1..-xn" (at least n - k of x1..xn)
   * is accepted and read back with the bounds 0..k, as AtMostRoundTrip states.
   */
  lemma AtMostGadget(n: nat, k: nat)
    requires k < n
    ensures var root := Staircase(n, n - k, n);
      PositiveSupport(root) && DistinctVars(Negate(Range(n))) &&
      (forall a :: Eval(root, a) <==> CountTrue(Negate(Range(n)), a) <= k) &&
      CheckedConverter(root, n) == Some(Card(Negate(Range(n)), 0, k))
  {
    GadgetFacts(n, n - k, n);
  }

  /** What the three gadgets share: support, decoding, and the meaning over the negated literals. */
  lemma GadgetFacts(n: nat, lo: nat, hi: nat)
    requires 1 <= n && lo <= hi <= n && !(lo == 0 && hi == n)
    ensures PositiveSupport(Staircase(n, lo, hi)) && DistinctVars(Negate(Range(n)))
    ensures forall a :: Eval(Staircase(n, lo, hi), a) <==> n - hi <= CountTrue(Negate(Range(n)), a) <= n - lo
    ensures CheckedConverter(Staircase(n, lo, hi), n) == Some(Card(Negate(Range(n)), n - hi, n - lo))
  {
    CellSupport(n, lo, hi, 0, 0);
    NegRangeFacts(n);
    StaircaseDecodes(n, lo, hi);
    forall a: Assignment
      ensures Eval(Staircase(n, lo, hi), a) <==> n - hi <= CountTrue(Negate(Range(n)), a) <= n - lo
    {
      StaircaseMeaning(n, lo, hi, a);
      CountNegate(Range(n), a);
    }
  }

  /**
   * The decoder as written reads the same klause as the checked one off every diagram the
   * checked one accepts; the two differ only on final layers the check rejects.
   */
  lemma ConverterAgrees(root: Node, ndata: nat)
    requires CheckedConverter(root, ndata).Some?
    ensures Converter(root, ndata) == CheckedConverter(root, ndata)
  {
    if !root.Leaf? {
      var d := Layers(root, ndata, ndata).value;
      var layer := d.layer;
      var l := FirstTrue(layer, 0);
      var h := LastTrue(layer, ndata);
      assert layer[l] == Leaf(true);
      assert l <= h;
      var l' := FirstTrue(layer[..ndata], 0);
      if l < ndata {
        assert layer[..ndata][l] == Leaf(true);
        assert l' == l;
      } else {
        assert l' == ndata;
      }
    }
  }

  /** A failed step stays failed: once the first k steps fail, so do the first n >= k. */
  lemma {:induction false} LayersNone(root: Node, k: nat, n: nat, ndata: nat)
    requires k <= n && Layers(root, k, ndata).None?
    ensures Layers(root, n, ndata).None?
    decreases n
  {
    if k < n {
      LayersNone(root, k, n - 1, ndata);
    }
  }

  /** Once two non-terminal nodes of a prefix disagree on their variable, so does the whole layer. */
  lemma {:induction false} LayerVarNone(layer: seq<Node>, j: nat)
    requires j <= |layer| && LayerVar(layer[..j]) == None
    ensures LayerVar(layer) == None
    decreases |layer|
  {
    if j < |layer| {
      assert layer[..|layer| - 1][..j] == layer[..j];
      LayerVarNone(layer[..|layer| - 1], j);
    } else {
      assert layer[..j] == layer;
    }
  }

  /**
   * The children of a layer, as the decoder's inner loop gathers them: a leaf is its own
   * high and low child; None as soon as two nodes split on different variables.
   */
  method SplitLayer(layer: seq<Node>) returns (r: Option<(int, seq<Node>, seq<Node>)>)
    ensures LayerVar(layer).None? ==> r.None?
    ensures LayerVar(layer).Some? ==> r == Some((LayerVar(layer).value, HChildren(layer), LChildren(layer)))
  {
    var x := 0;
    var hchildren: seq<Node> := [];
    var lchildren: seq<Node> := [];
    for j := 0 to |layer|
      invariant LayerVar(layer[..j]) == Some(x)
      invariant hchildren == HChildren(layer[..j]) && lchildren == LChildren(layer[..j])
    {
      var b := layer[j];
      assert layer[..j + 1][..j] == layer[..j];
      if b.Leaf? {
        hchildren := hchildren + [b];
        lchildren := lchildren + [b];
      } else {
        if x == 0 {
          x := b.v;
        } else if x != b.v {
          LayerVarNone(layer, j + 1);
          return None;
        }
        hchildren := hchildren + [b.hi];
        lchildren := lchildren + [b.lo];
      }
    }
    assert layer[..|layer|] == layer;
    return Some((x, hchildren, lchildren));
  }

  /** Position k of the shift test for phase p: high child (1 - p) + k against low child p + k. */
  predicate ShiftAt(h: seq<Node>, l: seq<Node>, p: int, k: int)
    requires 0 <= p <= 1 && 0 <= k && (1 - p) + k < |h| && p + k < |l|
  {
    h[(1 - p) + k] == l[p + k]
  }

  lemma ShiftAll(h: seq<Node>, l: seq<Node>, p: int)
    requires |h| == |l| >= 1 && 0 <= p <= 1
    ensures Compatible(h, l, p) <==> forall k :: 0 <= k < |h| - 1 ==> ShiftAt(h, l, p, k)
  {
    if forall k :: 0 <= k < |h| - 1 ==> ShiftAt(h, l, p, k) {
      forall i, j | 0 <= i && j == i + 1 && j < |h| ensures if p == 0 then h[j] == l[i] else l[j] == h[i] {
        assert ShiftAt(h, l, p, i);
      }
    }
    if Compatible(h, l, p) {
      forall k | 0 <= k < |h| - 1 ensures ShiftAt(h, l, p, k) {
        if p == 0 { assert h[k + 1] == l[k]; } else { assert l[k + 1] == h[k]; }
      }
    }
  }

  /** The first phase, 0 then 1, whose shift condition holds; None when neither does. */
  method FindPhase(h: seq<Node>, l: seq<Node>) returns (r: Option<int>)
    requires |h| == |l| >= 1
    ensures r.None? <==> !Compatible(h, l, 0) && !Compatible(h, l, 1)
    ensures r.Some? ==> r.value == (if Compatible(h, l, 0) then 0 else 1)
  {
    var p := 0;
    while p < 2
      invariant 0 <= p <= 2
      invariant forall q :: 0 <= q < p ==> !Compatible(h, l, q)
    {
      var compatible := true;
      var i := 0;
      while compatible && i < |h| - 1
        invariant 0 <= i <= |h| - 1
        invariant compatible <==> forall k :: 0 <= k < i ==> ShiftAt(h, l, p, k)
      {
        if h[(1 - p) + i] != l[p + i] {
          assert !ShiftAt(h, l, p, i);
          compatible := false;
        } else {
          assert ShiftAt(h, l, p, i);
        }
        i := i + 1;
      }
      ShiftAll(h, l, p);
      if compatible {
        return Some(p);
      }
      p := p + 1;
    }
    return None;
  }

  /**
   * One round of the decoder's layer loop (round k, counted from 1): split the layer, find
   * the phase, build the next layer and append the literal.
   */
  method NextLayer(layer: seq<Node>, lits: seq<int>, k: nat, ndata: nat) returns (r: Option<Decoded>)
    requires |layer| >= 1
    ensures r == Next(Decoded(layer, lits), k, ndata)
  {
    var split := SplitLayer(layer);
    if split.None? {
      return None;
    }
    var (x, hchildren, lchildren) := split.value;
    var phase := FindPhase(hchildren, lchildren);
    if phase.None? {
      return None;
    }
    var p := phase.value;
    var next := if p == 0 then [hchildren[0]] + lchildren else [lchildren[0]] + hchildren;
    if x != 0 {
      return Some(Decoded(next, lits + [if p == 1 then x else -x]));
    } else if k - 1 < ndata - 1 {
      return None;
    }
    return Some(Decoded(next, lits));
  }

  /** The final scan: first true entry below ndata, last true entry scanning down from ndata to 1, (1, 0) when they cross. */
  method ScanBounds(layer: seq<Node>, ndata: nat) returns (lower: int, upper: int)
    requires |layer| == ndata + 1
    ensures var l := FirstTrue(layer[..ndata], 0); var h := LastTrue(layer, ndata);
      (lower, upper) == if l > h then (1, 0) else (l, h)
  {
    var l := 0;
    while l < ndata && layer[l] != Leaf(true)
      invariant 0 <= l <= ndata && FirstTrue(layer[..ndata], l) == FirstTrue(layer[..ndata], 0)
    {
      l := l + 1;
    }
    var h := ndata;
    while h > 0 && layer[h] != Leaf(true)
      invariant 0 <= h <= ndata && LastTrue(layer, h) == LastTrue(layer, ndata)
    {
      h := h - 1;
    }
    if l > h {
      l, h := 1, 0;
    }
    return l, h;
  }

  /**
   * The final scan with the checks the decoder leaves out: every entry a leaf, some entry
   * true, and the true entries one run.
   */
  method CheckedScan(layer: seq<Node>) returns (r: Option<(int, int)>)
    requires |layer| >= 1
    ensures r == CheckedBounds(layer)
  {
    for i := 0 to |layer|
      invariant forall j :: 0 <= j < i ==> layer[j].Leaf?
    {
      if !layer[i].Leaf? {
        return None;
      }
    }
    var l := 0;
    while l < |layer| && layer[l] != Leaf(true)
      invariant 0 <= l <= |layer| && FirstTrue(layer, l) == FirstTrue(layer, 0)
    {
      l := l + 1;
    }
    if l == |layer| {
      return None;
    }
    var h := |layer| - 1;
    while h > 0 && layer[h] != Leaf(true)
      invariant 0 <= h < |layer| && LastTrue(layer, h) == LastTrue(layer, |layer| - 1)
    {
      h := h - 1;
    }
    for i := l to h + 1
      invariant forall j :: l <= j < i ==> layer[j] == Leaf(true)
    {
      if layer[i] != Leaf(true) {
        return None;
      }
    }
    return Some((l, h));
  }

  /** Odd parity of x1, x2, x3 as a reduced, ordered diagram. */
  function ParityRoot(): Node
  {
    var odd3 := Branch(3, Leaf(false), Leaf(true));
    var even3 := Branch(3, Leaf(true), Leaf(false));
    Branch(1, Branch(2, odd3, even3), Branch(2, even3, odd3))
  }

  /**
   * The decoder as written accepts odd parity, whose true counts {0, 2} of the negated
   * literals are not one run, and reports the range 0..2; under x1 = x2 = true, x3 = false
   * that range holds but parity is false.
   */
  lemma ConverterAcceptsParity()
    ensures Converter(ParityRoot(), 3) == Some(Card([-1, -2, -3], 0, 2))
    ensures var a := {1, 2};
      !Eval(ParityRoot(), a) && 0 <= CountTrue([-1, -2, -3], a) <= 2
    ensures CheckedConverter(ParityRoot(), 3) == None
  {
    ParityLayer3();
    var fin := [Leaf(true), Leaf(false), Leaf(true), Leaf(false)];
    assert FirstTrue(fin[..3], 0) == 0;
    assert fin[3] != Leaf(true) && fin[2] == Leaf(true);
    assert LastTrue(fin, 2) == 2;
    assert LastTrue(fin, 3) == 2;
    var lits := [-1, -2, -3];
    var a: Assignment := {1, 2};
    assert CountTrue(lits, a) == 1 by {
      assert lits[..2] == [-1, -2] && lits[..2][..1] == [-1] && lits[..2][..1][..0] == [];
      assert !LitTrue(a, -1) && !LitTrue(a, -2) && LitTrue(a, -3);
      assert CountTrue([-1], a) == 0;
      assert CountTrue([-1, -2], a) == 0;
    }
    assert FirstTrue(fin, 0) == 0;
    assert fin[1] != Leaf(true);
  }

  /** The first two layers of the parity diagram. */
  lemma ParityLayer2()
    ensures var odd3, even3 := Branch(3, Leaf(false), Leaf(true)), Branch(3, Leaf(true), Leaf(false));
      Layers(ParityRoot(), 2, 3) == Some(Decoded([odd3, even3, odd3], [-1, -2]))
  {
    var odd3 := Branch(3, Leaf(false), Leaf(true));
    var even3 := Branch(3, Leaf(true), Leaf(false));
    var p0 := Branch(2, odd3, even3);
    var p1 := Branch(2, even3, odd3);
    var root := ParityRoot();
    assert LayerVar([root]) == Some(1) by { assert [root][..0] == []; }
    assert HChildren([root]) == [p1] && LChildren([root]) == [p0];
    assert Compatible([p1], [p0], 0);
    assert [p1] + [p0] == [p1, p0];
    assert Step([root]) == Some(StepResult([p1, p0], 1, 0));
    assert Layers(root, 0, 3) == Some(Decoded([root], []));
    assert [] + [-1] == [-1];
    assert Next(Decoded([root], []), 1, 3) == Some(Decoded([p1, p0], [-1]));
    assert Layers(root, 1, 3) == Some(Decoded([p1, p0], [-1]));
    var l2 := [p1, p0];
    assert LayerVar(l2) == Some(2) by { assert l2[..1] == [p1] && l2[..1][..0] == []; }
    var h2, lo2 := HChildren(l2), LChildren(l2);
    assert h2 == [odd3, even3] && lo2 == [even3, odd3];
    assert HighShiftsLow(h2, lo2) by {
      forall i, j | 0 <= i < |lo2| && j == i + 1 && j < |h2| ensures h2[j] == lo2[i] { assert i == 0; }
    }
    assert Compatible(h2, lo2, 0);
    assert [h2[0]] + lo2 == [odd3, even3, odd3];
    assert Step(l2) == Some(StepResult([odd3, even3, odd3], 2, 0));
    assert [-1] + [-2] == [-1, -2];
    assert Next(Decoded(l2, [-1]), 2, 3) == Some(Decoded([odd3, even3, odd3], [-1, -2]));
  }

  /** All three layers of the parity diagram. */
  lemma ParityLayer3()
    ensures Layers(ParityRoot(), 3, 3) == Some(Decoded([Leaf(true), Leaf(false), Leaf(true), Leaf(false)], [-1, -2, -3]))
  {
    ParityLayer2();
    var odd3 := Branch(3, Leaf(false), Leaf(true));
    var even3 := Branch(3, Leaf(true), Leaf(false));
    var l3 := [odd3, even3, odd3];
    assert LayerVar(l3) == Some(3) by {
      assert l3[..2] == [odd3, even3] && l3[..2][..1] == [odd3] && l3[..2][..1][..0] == [];
    }
    var h3, lo3 := HChildren(l3), LChildren(l3);
    assert h3 == [Leaf(true), Leaf(false), Leaf(true)];
    assert lo3 == [Leaf(false), Leaf(true), Leaf(false)];
    assert HighShiftsLow(h3, lo3) by {
      forall i, j | 0 <= i < |lo3| && j == i + 1 && j < |h3| ensures h3[j] == lo3[i] { assert i == 0 || i == 1; }
    }
    var fin := [Leaf(true), Leaf(false), Leaf(true), Leaf(false)];
    assert Compatible(h3, lo3, 0);
    assert [h3[0]] + lo3 == fin;
    assert Step(l3) == Some(StepResult(fin, 3, 0));
    assert [-1, -2] + [-3] == [-1, -2, -3];
    assert Next(Decoded(l3, [-1, -2]), 3, 3) == Some(Decoded(fin, [-1, -2, -3]));
  }
}

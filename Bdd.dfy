/**
 * An abstract decision-diagram kernel: the operations the extractor asks of its BDD
 * package (AND, OR, existential quantification, support, variable, low and high child,
 * node count), stated as functions on a tree datatype. Node identity in the package
 * becomes structural equality here. Variables are ordered by the level table `lv`
 * (the package's var2level); `Mk` keeps nodes reduced.
 */
module Bdd {
  import opened Lits

  datatype Node = Leaf(value: bool) | Branch(v: int, lo: Node, hi: Node)

  datatype Op = And | Or

  function OpEval(op: Op, x: bool, y: bool): bool { if op == And then x && y else x || y }

  /** Value of a diagram under an assignment: a branch follows `hi` when its variable is true. */
  function Eval(n: Node, a: Assignment): bool
  {
    match n
    case Leaf(b) => b
    case Branch(v, lo, hi) => if v in a then Eval(hi, a) else Eval(lo, a)
  }

  /** Variables that label some branch of the diagram. */
  function Support(n: Node): set<int>
  {
    match n
    case Leaf(_) => {}
    case Branch(v, lo, hi) => {v} + Support(lo) + Support(hi)
  }

  /** The non-terminal nodes of the diagram; shared sub-diagrams are counted once. */
  function Internal(n: Node): set<Node>
  {
    match n
    case Leaf(_) => {}
    case Branch(_, lo, hi) => {n} + Internal(lo) + Internal(hi)
  }

  function NodeCount(n: Node): nat { |Internal(n)| }

  function Rank(lv: map<int, int>, v: int): int { if v in lv then lv[v] else 0 }

  /** Reduced node constructor: a test whose two outcomes agree is dropped. */
  function Mk(v: int, lo: Node, hi: Node): Node { if lo == hi then lo else Branch(v, lo, hi) }

  function True(): Node { Leaf(true) }
  function False(): Node { Leaf(false) }

  /** Binary apply, splitting on the variable of lower level first. */
  function Apply(op: Op, f: Node, g: Node, lv: map<int, int>): Node
    decreases f, g
  {
    if f.Leaf? then
      (if op == And then (if f.value then g else f) else (if f.value then f else g))
    else if g.Leaf? then
      (if op == And then (if g.value then f else g) else (if g.value then g else f))
    else if f.v == g.v then
      Mk(f.v, Apply(op, f.lo, g.lo, lv), Apply(op, f.hi, g.hi, lv))
    else if Rank(lv, f.v) <= Rank(lv, g.v) then
      Mk(f.v, Apply(op, f.lo, g, lv), Apply(op, f.hi, g, lv))
    else
      Mk(g.v, Apply(op, f, g.lo, lv), Apply(op, f, g.hi, lv))
  }

  /** Cofactor: the diagram with variable `x` fixed to `b`. */
  function Restrict(n: Node, x: int, b: bool): Node
  {
    match n
    case Leaf(_) => n
    case Branch(v, lo, hi) =>
      if v == x then Restrict(if b then hi else lo, x, b)
      else Mk(v, Restrict(lo, x, b), Restrict(hi, x, b))
  }

  /** Existential quantification of one variable. */
  function Exist(n: Node, x: int, lv: map<int, int>): Node
  {
    Apply(Or, Restrict(n, x, false), Restrict(n, x, true), lv)
  }

  /** The diagram of one literal. */
  function LitNode(lit: int): Node
  {
    if lit > 0 then Branch(lit, Leaf(false), Leaf(true)) else Branch(-lit, Leaf(true), Leaf(false))
  }

  /** The diagram of a clause: the disjunction of its literals. */
  function ClauseNode(lits: seq<int>, lv: map<int, int>): Node
  {
    if lits == [] then Leaf(false)
    else Apply(Or, ClauseNode(lits[..|lits| - 1], lv), LitNode(lits[|lits| - 1]), lv)
  }

  function Assign(a: Assignment, x: int, b: bool): Assignment { if b then a + {x} else a - {x} }

  lemma {:induction false} EvalApply(op: Op, f: Node, g: Node, lv: map<int, int>, a: Assignment)
    ensures Eval(Apply(op, f, g, lv), a) == OpEval(op, Eval(f, a), Eval(g, a))
    decreases f, g
  {
    if f.Leaf? || g.Leaf? {
    } else if f.v == g.v {
      EvalApply(op, f.lo, g.lo, lv, a);
      EvalApply(op, f.hi, g.hi, lv, a);
    } else if Rank(lv, f.v) <= Rank(lv, g.v) {
      EvalApply(op, f.lo, g, lv, a);
      EvalApply(op, f.hi, g, lv, a);
    } else {
      EvalApply(op, f, g.lo, lv, a);
      EvalApply(op, f, g.hi, lv, a);
    }
  }

  lemma {:induction false} SupportApply(op: Op, f: Node, g: Node, lv: map<int, int>)
    ensures Support(Apply(op, f, g, lv)) <= Support(f) + Support(g)
    decreases f, g
  {
    if f.Leaf? || g.Leaf? {
    } else if f.v == g.v {
      SupportApply(op, f.lo, g.lo, lv);
      SupportApply(op, f.hi, g.hi, lv);
    } else if Rank(lv, f.v) <= Rank(lv, g.v) {
      SupportApply(op, f.lo, g, lv);
      SupportApply(op, f.hi, g, lv);
    } else {
      SupportApply(op, f, g.lo, lv);
      SupportApply(op, f, g.hi, lv);
    }
  }

  lemma {:induction false} EvalRestrict(n: Node, x: int, b: bool, a: Assignment)
    ensures Eval(Restrict(n, x, b), a) == Eval(n, Assign(a, x, b))
  {
    match n
    case Leaf(_) =>
    case Branch(v, lo, hi) =>
      if v == x {
        EvalRestrict(if b then hi else lo, x, b, a);
      } else {
        EvalRestrict(lo, x, b, a);
        EvalRestrict(hi, x, b, a);
      }
  }

  lemma {:induction false} SupportRestrict(n: Node, x: int, b: bool)
    ensures Support(Restrict(n, x, b)) <= Support(n) - {x}
  {
    match n
    case Leaf(_) =>
    case Branch(v, lo, hi) =>
      if v == x {
        SupportRestrict(if b then hi else lo, x, b);
      } else {
        SupportRestrict(lo, x, b);
        SupportRestrict(hi, x, b);
      }
  }

  /** Exist(n, x) holds exactly when n holds for some value of x. */
  lemma EvalExist(n: Node, x: int, lv: map<int, int>, a: Assignment)
    ensures Eval(Exist(n, x, lv), a) == (Eval(n, a - {x}) || Eval(n, a + {x}))
  {
    EvalApply(Or, Restrict(n, x, false), Restrict(n, x, true), lv, a);
    EvalRestrict(n, x, false, a);
    EvalRestrict(n, x, true, a);
  }

  lemma SupportExist(n: Node, x: int, lv: map<int, int>)
    ensures Support(Exist(n, x, lv)) <= Support(n) - {x}
  {
    SupportApply(Or, Restrict(n, x, false), Restrict(n, x, true), lv);
    SupportRestrict(n, x, false);
    SupportRestrict(n, x, true);
  }

  /** A diagram only looks at the variables of its support. */
  lemma {:induction false} EvalSupport(n: Node, a: Assignment, b: Assignment)
    requires forall v :: v in Support(n) ==> (v in a <==> v in b)
    ensures Eval(n, a) == Eval(n, b)
  {
    match n
    case Leaf(_) =>
    case Branch(v, lo, hi) =>
      EvalSupport(lo, a, b);
      EvalSupport(hi, a, b);
  }

  lemma {:induction false} EvalClauseNode(lits: seq<int>, lv: map<int, int>, a: Assignment)
    ensures Eval(ClauseNode(lits, lv), a) <==> CountTrue(lits, a) >= 1
  {
    if lits != [] {
      var init := lits[..|lits| - 1];
      EvalClauseNode(init, lv, a);
      EvalApply(Or, ClauseNode(init, lv), LitNode(lits[|lits| - 1]), lv, a);
    }
  }

  lemma {:induction false} SupportClauseNode(lits: seq<int>, lv: map<int, int>)
    ensures forall v :: v in Support(ClauseNode(lits, lv)) ==> exists i :: 0 <= i < |lits| && v == Abs(lits[i])
  {
    if lits != [] {
      var init := lits[..|lits| - 1];
      SupportClauseNode(init, lv);
      SupportApply(Or, ClauseNode(init, lv), LitNode(lits[|lits| - 1]), lv);
      forall v | v in Support(ClauseNode(lits, lv))
        ensures exists i :: 0 <= i < |lits| && v == Abs(lits[i])
      {
        if v in Support(ClauseNode(init, lv)) {
          var i :| 0 <= i < |init| && v == Abs(init[i]);
          assert lits[i] == init[i];
        } else {
          assert v == Abs(lits[|lits| - 1]);
        }
      }
    }
  }
}

/**
 * The totalizer the solver builds for a cardinality constraint
 * (cardinality-cadical/src/cardinality_encoding.cpp): every node of a binary tree over the
 * literals carries unary counter outputs `mid`, where `mid[i]` says "at least i + 1 of the
 * leaves below are true", cut off at bound + 1 outputs; the clauses of each merge force the
 * outputs up, and a unit on output `bound` forbids more than `bound` true leaves.
 */
module Totalizer {
  import opened Lits

  function Min(x: int, y: int): int { if x < y then x else y }

  /** totalizer_mid_variables's output count for children of l and r outputs. */
  function MidSize(l: int, r: int, bound: int): int
  {
    Min(l + r, bound + 1)
  }

  // ---------------------------------------------------------------------------
  // The clauses of one merge (totalizer_branch_clauses).

  /** The clauses (mid[i], -side[i]) for i < min(|side|, bound + 1): one true input is one true output. */
  function Inits(mid: seq<int>, side: seq<int>, bound: int): seq<seq<int>>
    requires bound >= 0 && Min(|side|, bound + 1) <= |mid|
  {
    seq(Min(|side|, bound + 1), i requires 0 <= i < Min(|side|, bound + 1) => [mid[i], -side[i]])
  }

  /** How many j < upto satisfy i + j + 2 <= bound + 1. */
  function Width(i: int, upto: int, bound: int): nat
  {
    if bound - i < upto then (if bound - i > 0 then bound - i else 0)
    else if upto > 0 then upto else 0
  }

  /** The clauses (mid[i + j + 1], -l[i], -r[j]) for j < upto with i + j + 2 <= bound + 1. */
  function SumRow(mid: seq<int>, l: seq<int>, r: seq<int>, bound: int, i: int, upto: int): seq<seq<int>>
    requires bound >= 0 && |mid| == MidSize(|l|, |r|, bound)
    requires 0 <= i < |l| && 0 <= upto <= |r|
  {
    seq(Width(i, upto, bound), j requires 0 <= j < Width(i, upto, bound) => [mid[i + j + 1], -l[i], -r[j]])
  }

  /** The rows of sum clauses for the first m left outputs. */
  function Sums(mid: seq<int>, l: seq<int>, r: seq<int>, bound: int, m: int): seq<seq<int>>
    requires bound >= 0 && |mid| == MidSize(|l|, |r|, bound)
    requires 0 <= m <= |l|
  {
    if m == 0 then [] else Sums(mid, l, r, bound, m - 1) + SumRow(mid, l, r, bound, m - 1, |r|)
  }

  /** The unit -mid[bound], present when the children have more than `bound` outputs together. */
  function Unit(mid: seq<int>, l: seq<int>, r: seq<int>, bound: int): seq<seq<int>>
    requires bound >= 0 && |mid| == MidSize(|l|, |r|, bound)
  {
    if |l| + |r| > bound then [[-mid[bound]]] else []
  }

  /** All clauses of one merge, in the order totalizer_branch_clauses pushes them. */
  function Branch(mid: seq<int>, l: seq<int>, r: seq<int>, bound: int): seq<seq<int>>
    requires bound >= 0 && |mid| == MidSize(|l|, |r|, bound)
  {
    Inits(mid, l, bound) + Inits(mid, r, bound) + Sums(mid, l, r, bound, |l|) + Unit(mid, l, r, bound)
  }

  // ---------------------------------------------------------------------------
  // What the clauses of one merge say.

  predicate InitsHold(mid: seq<int>, side: seq<int>, bound: int, a: Assignment)
    requires bound >= 0 && Min(|side|, bound + 1) <= |mid|
  {
    forall i :: 0 <= i < |side| && i <= bound ==> LitTrue(a, side[i]) ==> LitTrue(a, mid[i])
  }

  predicate RowHolds(mid: seq<int>, l: seq<int>, r: seq<int>, bound: int, i: int, a: Assignment)
    requires bound >= 0 && |mid| == MidSize(|l|, |r|, bound) && 0 <= i < |l|
  {
    forall j :: 0 <= j < |r| && i + j + 1 <= bound ==> LitTrue(a, l[i]) && LitTrue(a, r[j]) ==> LitTrue(a, mid[i + j + 1])
  }

  predicate SumsHold(mid: seq<int>, l: seq<int>, r: seq<int>, bound: int, m: int, a: Assignment)
    requires bound >= 0 && |mid| == MidSize(|l|, |r|, bound) && 0 <= m <= |l|
  {
    forall i :: 0 <= i < m ==> RowHolds(mid, l, r, bound, i, a)
  }

  lemma InitsMeaning(mid: seq<int>, side: seq<int>, bound: int, a: Assignment)
    requires bound >= 0 && Min(|side|, bound + 1) <= |mid| && NonZero(side)
    ensures Sat(Inits(mid, side, bound), a) <==> InitsHold(mid, side, bound, a)
  {
    var cs := Inits(mid, side, bound);
    forall i | 0 <= i < |cs| ensures CountTrue(cs[i], a) >= 1 <==> LitTrue(a, mid[i]) || !LitTrue(a, side[i]) {
      CountTwo(mid[i], -side[i], a);
      NegTrue(side[i], a);
    }
  }

  lemma RowMeaning(mid: seq<int>, l: seq<int>, r: seq<int>, bound: int, i: int, a: Assignment)
    requires bound >= 0 && |mid| == MidSize(|l|, |r|, bound) && 0 <= i < |l|
    requires NonZero(l) && NonZero(r)
    ensures Sat(SumRow(mid, l, r, bound, i, |r|), a) <==> RowHolds(mid, l, r, bound, i, a)
  {
    var cs := SumRow(mid, l, r, bound, i, |r|);
    forall j | 0 <= j < |cs|
      ensures CountTrue(cs[j], a) >= 1 <==> LitTrue(a, mid[i + j + 1]) || !LitTrue(a, l[i]) || !LitTrue(a, r[j])
    {
      CountThree(mid[i + j + 1], -l[i], -r[j], a);
      NegTrue(l[i], a);
      NegTrue(r[j], a);
    }
  }

  lemma {:induction false} SumsMeaning(mid: seq<int>, l: seq<int>, r: seq<int>, bound: int, m: int, a: Assignment)
    requires bound >= 0 && |mid| == MidSize(|l|, |r|, bound) && 0 <= m <= |l|
    requires NonZero(l) && NonZero(r)
    ensures Sat(Sums(mid, l, r, bound, m), a) <==> SumsHold(mid, l, r, bound, m, a)
  {
    if m > 0 {
      SumsMeaning(mid, l, r, bound, m - 1, a);
      RowMeaning(mid, l, r, bound, m - 1, a);
      SatAppend(Sums(mid, l, r, bound, m - 1), SumRow(mid, l, r, bound, m - 1, |r|), a);
    }
  }

  /**
   * What a merge's clauses say: a true input is a true output at the same position, a true
   * left input i and right input j make output i + j + 1 true, and output `bound` is false.
   */
  predicate MergeHolds(mid: seq<int>, l: seq<int>, r: seq<int>, bound: int, a: Assignment)
    requires bound >= 0 && |mid| == MidSize(|l|, |r|, bound)
  {
    InitsHold(mid, l, bound, a) && InitsHold(mid, r, bound, a) && SumsHold(mid, l, r, bound, |l|, a)
    && (|l| + |r| > bound ==> !LitTrue(a, mid[bound]))
  }

  /** The clauses of one merge hold exactly when the implications it encodes do. */
  lemma BranchMeaning(mid: seq<int>, l: seq<int>, r: seq<int>, bound: int, a: Assignment)
    requires bound >= 0 && |mid| == MidSize(|l|, |r|, bound)
    requires NonZero(l) && NonZero(r) && NonZero(mid)
    ensures Sat(Branch(mid, l, r, bound), a) <==> MergeHolds(mid, l, r, bound, a)
  {
    InitsMeaning(mid, l, bound, a);
    InitsMeaning(mid, r, bound, a);
    SumsMeaning(mid, l, r, bound, |l|, a);
    SatAppend(Inits(mid, l, bound), Inits(mid, r, bound), a);
    SatAppend(Inits(mid, l, bound) + Inits(mid, r, bound), Sums(mid, l, r, bound, |l|), a);
    SatAppend(Inits(mid, l, bound) + Inits(mid, r, bound) + Sums(mid, l, r, bound, |l|), Unit(mid, l, r, bound), a);
    if |l| + |r| > bound {
      CountOne(-mid[bound], a);
      NegTrue(mid[bound], a);
      assert Sat(Unit(mid, l, r, bound), a) <==> CountTrue(Unit(mid, l, r, bound)[0], a) >= 1;
    }
  }

  /** The outputs o count the leaves L from below: if at least i + 1 leaves are true, so is o[i]. */
  predicate Up(o: seq<int>, leaves: seq<int>, a: Assignment)
  {
    forall i :: 0 <= i < |o| && i < CountTrue(leaves, a) ==> LitTrue(a, o[i])
  }

  /** The outputs o count the leaves L exactly: o[i] holds iff at least i + 1 leaves are true. */
  predicate Exact(o: seq<int>, leaves: seq<int>, a: Assignment)
  {
    forall i :: 0 <= i < |o| ==> (LitTrue(a, o[i]) <==> i < CountTrue(leaves, a))
  }

  /**
   * A merge is sound: when the children count their leaves from below, so does the new node
   * for all leaves together, and the unit caps their count at `bound`.
   */
  lemma BranchSound(mid: seq<int>, l: seq<int>, r: seq<int>, ll: seq<int>, lr: seq<int>, bound: int, a: Assignment)
    requires bound >= 0 && |mid| == MidSize(|l|, |r|, bound)
    requires |l| == Min(|ll|, bound + 1) && |r| == Min(|lr|, bound + 1)
    requires Up(l, ll, a) && Up(r, lr, a)
    requires MergeHolds(mid, l, r, bound, a)
    ensures |mid| == Min(|ll + lr|, bound + 1)
    ensures Up(mid, ll + lr, a)
    ensures |ll + lr| > bound ==> CountTrue(ll + lr, a) <= bound
  {
    CountTrueAppend(ll, lr, a);
    CountTrueBound(ll, a);
    CountTrueBound(lr, a);
    var cl, cr := CountTrue(ll, a), CountTrue(lr, a);
    forall i | 0 <= i < |mid| && i < CountTrue(ll + lr, a) ensures LitTrue(a, mid[i]) {
      if i < cl && i < |l| {
        assert LitTrue(a, l[i]);
      } else if i < cr && i < |r| {
        assert LitTrue(a, r[i]);
      } else {
        var p, q := cl - 1, i - cl;
        assert LitTrue(a, l[p]) && LitTrue(a, r[q]);
        assert RowHolds(mid, l, r, bound, p, a);
      }
    }
  }

  /**
   * A merge is complete: when the children and the new node count their leaves exactly and
   * the leaves below have at most `bound` true (where the unit is present), every clause holds.
   */
  lemma BranchComplete(mid: seq<int>, l: seq<int>, r: seq<int>, ll: seq<int>, lr: seq<int>, bound: int, a: Assignment)
    requires bound >= 0 && |mid| == MidSize(|l|, |r|, bound)
    requires |l| == Min(|ll|, bound + 1) && |r| == Min(|lr|, bound + 1)
    requires Exact(l, ll, a) && Exact(r, lr, a) && Exact(mid, ll + lr, a)
    requires |ll + lr| > bound ==> CountTrue(ll + lr, a) <= bound
    ensures MergeHolds(mid, l, r, bound, a)
  {
    CountTrueAppend(ll, lr, a);
    forall i | 0 <= i < |l| ensures RowHolds(mid, l, r, bound, i, a) {
      forall j | 0 <= j < |r| && i + j + 1 <= bound && LitTrue(a, l[i]) && LitTrue(a, r[j])
        ensures LitTrue(a, mid[i + j + 1])
      {
      }
    }
  }

  // ---------------------------------------------------------------------------
  // The tree (totalizer_full_encoding).

  /** totalizer_mid_variables's result: n consecutive variables from lo. */
  function Fresh(lo: int, n: int): seq<int>
  {
    seq(if n > 0 then n else 0, i => lo + i)
  }

  lemma FreshNonZero(lo: int, n: int)
    requires lo > 0
    ensures NonZero(Fresh(lo, n))
  {
  }

  /** The literals of the leaf lists, in order. */
  function Flatten(ls: seq<seq<int>>): seq<int>
  {
    if ls == [] then [] else Flatten(ls[..|ls| - 1]) + ls[|ls| - 1]
  }

  lemma {:induction false} FlattenAppend(xs: seq<seq<int>>, ys: seq<seq<int>>)
    ensures Flatten(xs + ys) == Flatten(xs) + Flatten(ys)
    decreases |ys|
  {
    if ys == [] {
      assert xs + ys == xs;
    } else {
      assert (xs + ys)[..|xs + ys| - 1] == xs + ys[..|ys| - 1];
      FlattenAppend(xs, ys[..|ys| - 1]);
    }
  }

  /** The initial nodes: one per literal. */
  function Leaves(lits: seq<int>): (r: seq<seq<int>>)
    ensures |r| == |lits| && forall i :: 0 <= i < |lits| ==> r[i] == [lits[i]]
  {
    seq(|lits|, i requires 0 <= i < |lits| => [lits[i]])
  }

  lemma {:induction false} FlattenLeaves(lits: seq<int>)
    ensures Flatten(Leaves(lits)) == lits
  {
    if lits != [] {
      assert Leaves(lits)[..|lits| - 1] == Leaves(lits[..|lits| - 1]);
      FlattenLeaves(lits[..|lits| - 1]);
    }
  }

  /**
   * The two nodes the loop merges next, the nodes left at this level and the merged nodes
   * kept for the next: the first two of `nodes`, or, when one is left, the last merged node
   * and that one.
   */
  datatype Picked<T> = Picked(left: T, right: T, rest: seq<T>, kept: seq<T>)

  function Pick<T>(nodes: seq<T>, next: seq<T>): Picked<T>
    requires nodes != [] && (next == [] ==> |nodes| >= 2)
  {
    if |nodes| >= 2 then Picked(nodes[0], nodes[1], nodes[2..], next)
    else Picked(next[|next| - 1], nodes[0], [], next[..|next| - 1])
  }

  /** Merging the picked nodes keeps the leaves in their order. */
  lemma PickFlatten(nodes: seq<seq<int>>, next: seq<seq<int>>)
    requires nodes != [] && (next == [] ==> |nodes| >= 2)
    ensures var p := Pick(nodes, next); var l, r, rest, kept := p.left, p.right, p.rest, p.kept;
      Flatten(next + nodes) == Flatten(kept) + (l + r) + Flatten(rest)
  {
    var p := Pick(nodes, next); var l, r, rest, kept := p.left, p.right, p.rest, p.kept;
    if |nodes| >= 2 {
      assert next + nodes == kept + ([l] + [r]) + rest;
      FlattenAppend(kept + ([l] + [r]), rest);
      FlattenAppend(kept, [l] + [r]);
      assert ([l] + [r])[..1] == [l];
      assert Flatten([l]) == l by { assert [l][..0] == []; }
    } else {
      assert next + nodes == kept + ([l] + [r]) + rest;
      FlattenAppend(kept + ([l] + [r]), rest);
      FlattenAppend(kept, [l] + [r]);
      assert ([l] + [r])[..1] == [l];
      assert Flatten([l]) == l by { assert [l][..0] == []; }
    }
  }


  /** The first fresh variable after the outputs `mid` taken from freshVar. */
  function After(freshVar: int, mid: seq<int>): int { freshVar + |mid| }

  /**
   * totalizer_full_encoding's loop from the state (nodes, next): the clauses it still pushes.
   * A merged node gets MidSize consecutive fresh variables.
   */
  function Tree(nodes: seq<seq<int>>, next: seq<seq<int>>, bound: int, freshVar: int): seq<seq<int>>
    requires bound >= 0
    requires nodes != [] && (next == [] ==> |nodes| >= 2)
    decreases |nodes| + |next|
  {
    var p := Pick(nodes, next);
    var mid := Fresh(freshVar, MidSize(|p.left|, |p.right|, bound));
    Branch(mid, p.left, p.right, bound) +
      (if p.rest == [] && p.kept == [] then []
       else if p.rest == [] then Tree(p.kept + [mid], [], bound, After(freshVar, mid))
       else Tree(p.rest, p.kept + [mid], bound, After(freshVar, mid)))
  }

  /** The fresh variable totalizer_full_encoding returns from the state (nodes, next). */
  function TreeNext(nodes: seq<seq<int>>, next: seq<seq<int>>, bound: int, freshVar: int): int
    requires bound >= 0
    requires nodes != [] && (next == [] ==> |nodes| >= 2)
    decreases |nodes| + |next|
  {
    var p := Pick(nodes, next);
    var mid := Fresh(freshVar, MidSize(|p.left|, |p.right|, bound));
    if p.rest == [] && p.kept == [] then After(freshVar, mid)
    else if p.rest == [] then TreeNext(p.kept + [mid], [], bound, After(freshVar, mid))
    else TreeNext(p.rest, p.kept + [mid], bound, After(freshVar, mid))
  }

  /** What the clauses of the remaining run say, merge by merge. */
  predicate TreeHolds(nodes: seq<seq<int>>, next: seq<seq<int>>, bound: int, freshVar: int, a: Assignment)
    requires bound >= 0
    requires nodes != [] && (next == [] ==> |nodes| >= 2)
    decreases |nodes| + |next|
  {
    var p := Pick(nodes, next);
    var mid := Fresh(freshVar, MidSize(|p.left|, |p.right|, bound));
    MergeHolds(mid, p.left, p.right, bound, a) &&
      (if p.rest == [] && p.kept == [] then true
       else if p.rest == [] then TreeHolds(p.kept + [mid], [], bound, After(freshVar, mid), a)
       else TreeHolds(p.rest, p.kept + [mid], bound, After(freshVar, mid), a))
  }

  predicate AllNonZero(nodes: seq<seq<int>>)
  {
    forall k :: 0 <= k < |nodes| ==> NonZero(nodes[k])
  }

  /** The run's clauses hold exactly when every merge's implications do. */
  lemma {:induction false} TreeMeaning(nodes: seq<seq<int>>, next: seq<seq<int>>, bound: int, freshVar: int, a: Assignment)
    requires bound >= 0 && freshVar > 0
    requires nodes != [] && (next == [] ==> |nodes| >= 2)
    requires AllNonZero(nodes) && AllNonZero(next)
    ensures Sat(Tree(nodes, next, bound, freshVar), a) <==> TreeHolds(nodes, next, bound, freshVar, a)
    decreases |nodes| + |next|
  {
    var p := Pick(nodes, next);
    var mid := Fresh(freshVar, MidSize(|p.left|, |p.right|, bound));
    PickNonZero(nodes, next);
    FreshNonZero(freshVar, MidSize(|p.left|, |p.right|, bound));
    assert |p.rest| + |p.kept| + 2 == |nodes| + |next|;
    if p.rest == [] && p.kept == [] {
      BranchMeaning(mid, p.left, p.right, bound, a);
      assert Tree(nodes, next, bound, freshVar) == Branch(mid, p.left, p.right, bound) + [];
      SatAppend(Branch(mid, p.left, p.right, bound), [], a);
    } else if p.rest == [] {
      assert AllNonZero(p.kept + [mid]);
      TreeSatLevel(nodes, next, bound, freshVar, a);
      TreeHoldsUnfoldLevel(nodes, next, bound, freshVar, a);
      TreeMeaning(p.kept + [mid], [], bound, After(freshVar, mid), a);
    } else {
      assert AllNonZero(p.kept + [mid]);
      TreeSatStep(nodes, next, bound, freshVar, a);
      TreeHoldsUnfoldStep(nodes, next, bound, freshVar, a);
      TreeMeaning(p.rest, p.kept + [mid], bound, After(freshVar, mid), a);
    }
  }

  /** A formula made of a first part that means m and a later part. */
  lemma SatSplit(first: seq<seq<int>>, later: seq<seq<int>>, m: bool, a: Assignment)
    requires Sat(first, a) <==> m
    ensures Sat(first + later, a) <==> m && Sat(later, a)
  {
    SatAppend(first, later, a);
  }

  /** A merge that ends its level: its clauses, then the next level's. */
  lemma TreeSatLevel(nodes: seq<seq<int>>, next: seq<seq<int>>, bound: int, freshVar: int, a: Assignment)
    requires bound >= 0 && nodes != [] && (next == [] ==> |nodes| >= 2)
    requires Pick(nodes, next).rest == [] && Pick(nodes, next).kept != []
    requires NonZero(Pick(nodes, next).left) && NonZero(Pick(nodes, next).right) && freshVar > 0
    ensures var p := Pick(nodes, next);
      var mid := Fresh(freshVar, MidSize(|p.left|, |p.right|, bound));
      Sat(Tree(nodes, next, bound, freshVar), a) <==>
      MergeHolds(mid, p.left, p.right, bound, a) && Sat(Tree(p.kept + [mid], [], bound, After(freshVar, mid)), a)
  {
    var p := Pick(nodes, next);
    var mid := Fresh(freshVar, MidSize(|p.left|, |p.right|, bound));
    TreeUnfoldLevel(nodes, next, bound, freshVar, a);
    BranchMeaning(mid, p.left, p.right, bound, a);
    SatSplit(Branch(mid, p.left, p.right, bound),
      Tree(p.kept + [mid], [], bound, After(freshVar, mid)),
      MergeHolds(mid, p.left, p.right, bound, a), a);
  }

  /** A merge within its level: its clauses, then the rest of the run. */
  lemma TreeSatStep(nodes: seq<seq<int>>, next: seq<seq<int>>, bound: int, freshVar: int, a: Assignment)
    requires bound >= 0 && nodes != [] && (next == [] ==> |nodes| >= 2)
    requires Pick(nodes, next).rest != []
    requires NonZero(Pick(nodes, next).left) && NonZero(Pick(nodes, next).right) && freshVar > 0
    ensures var p := Pick(nodes, next);
      var mid := Fresh(freshVar, MidSize(|p.left|, |p.right|, bound));
      Sat(Tree(nodes, next, bound, freshVar), a) <==>
      MergeHolds(mid, p.left, p.right, bound, a) && Sat(Tree(p.rest, p.kept + [mid], bound, After(freshVar, mid)), a)
  {
    var p := Pick(nodes, next);
    var mid := Fresh(freshVar, MidSize(|p.left|, |p.right|, bound));
    TreeUnfoldStep(nodes, next, bound, freshVar, a);
    BranchMeaning(mid, p.left, p.right, bound, a);
    SatSplit(Branch(mid, p.left, p.right, bound),
      Tree(p.rest, p.kept + [mid], bound, After(freshVar, mid)),
      MergeHolds(mid, p.left, p.right, bound, a), a);
  }

  /** A merge that ends its level: the merged node starts the next level. */
  lemma TreeUnfoldLevel(nodes: seq<seq<int>>, next: seq<seq<int>>, bound: int, freshVar: int, a: Assignment)
    requires bound >= 0 && nodes != [] && (next == [] ==> |nodes| >= 2)
    requires Pick(nodes, next).rest == [] && Pick(nodes, next).kept != []
    ensures var p := Pick(nodes, next);
      var mid := Fresh(freshVar, MidSize(|p.left|, |p.right|, bound));
      Sat(Tree(nodes, next, bound, freshVar), a) == Sat(Branch(mid, p.left, p.right, bound) + Tree(p.kept + [mid], [], bound, After(freshVar, mid)), a)
  {
  }

  lemma TreeHoldsUnfoldLevel(nodes: seq<seq<int>>, next: seq<seq<int>>, bound: int, freshVar: int, a: Assignment)
    requires bound >= 0 && nodes != [] && (next == [] ==> |nodes| >= 2)
    requires Pick(nodes, next).rest == [] && Pick(nodes, next).kept != []
    ensures var p := Pick(nodes, next);
      var mid := Fresh(freshVar, MidSize(|p.left|, |p.right|, bound));
      TreeHolds(nodes, next, bound, freshVar, a) <==>
      MergeHolds(mid, p.left, p.right, bound, a) && TreeHolds(p.kept + [mid], [], bound, After(freshVar, mid), a)
  {
  }

  /** A merge within its level: the merged node is kept for the next level. */
  lemma TreeUnfoldStep(nodes: seq<seq<int>>, next: seq<seq<int>>, bound: int, freshVar: int, a: Assignment)
    requires bound >= 0 && nodes != [] && (next == [] ==> |nodes| >= 2)
    requires Pick(nodes, next).rest != []
    ensures var p := Pick(nodes, next);
      var mid := Fresh(freshVar, MidSize(|p.left|, |p.right|, bound));
      Sat(Tree(nodes, next, bound, freshVar), a) == Sat(Branch(mid, p.left, p.right, bound) + Tree(p.rest, p.kept + [mid], bound, After(freshVar, mid)), a)
  {
  }

  lemma TreeHoldsUnfoldStep(nodes: seq<seq<int>>, next: seq<seq<int>>, bound: int, freshVar: int, a: Assignment)
    requires bound >= 0 && nodes != [] && (next == [] ==> |nodes| >= 2)
    requires Pick(nodes, next).rest != []
    ensures var p := Pick(nodes, next);
      var mid := Fresh(freshVar, MidSize(|p.left|, |p.right|, bound));
      TreeHolds(nodes, next, bound, freshVar, a) <==>
      MergeHolds(mid, p.left, p.right, bound, a) && TreeHolds(p.rest, p.kept + [mid], bound, After(freshVar, mid), a)
  {
  }

  lemma PickNonZero(nodes: seq<seq<int>>, next: seq<seq<int>>)
    requires nodes != [] && (next == [] ==> |nodes| >= 2)
    requires AllNonZero(nodes) && AllNonZero(next)
    ensures var p := Pick(nodes, next);
      NonZero(p.left) && NonZero(p.right) && AllNonZero(p.rest) && AllNonZero(p.kept)
  {
    if |nodes| >= 2 {
      assert Pick(nodes, next).left == nodes[0] && Pick(nodes, next).right == nodes[1];
    } else {
      assert Pick(nodes, next).left == next[|next| - 1] && Pick(nodes, next).right == nodes[0];
    }
  }

  /** Every node has the size its leaves call for. */
  predicate Shaped(nodes: seq<seq<int>>, ls: seq<seq<int>>, bound: int)
  {
    |nodes| == |ls| && forall k :: 0 <= k < |nodes| ==> |nodes[k]| == Min(|ls[k]|, bound + 1)
  }

  predicate AllUp(nodes: seq<seq<int>>, ls: seq<seq<int>>, a: Assignment)
    requires |nodes| == |ls|
  {
    forall k :: 0 <= k < |nodes| ==> Up(nodes[k], ls[k], a)
  }

  /**
   * The tree is sound: if every merge's implications hold and every node so far counts its
   * leaves from below, then at most `bound` of all the leaves are true.
   */
  lemma {:induction false} TreeSound(nodes: seq<seq<int>>, next: seq<seq<int>>, ln: seq<seq<int>>, lx: seq<seq<int>>,
      bound: int, freshVar: int, a: Assignment)
    requires bound >= 0
    requires nodes != [] && (next == [] ==> |nodes| >= 2)
    requires Shaped(nodes, ln, bound) && Shaped(next, lx, bound)
    requires AllUp(nodes, ln, a) && AllUp(next, lx, a)
    requires TreeHolds(nodes, next, bound, freshVar, a)
    ensures |Flatten(lx + ln)| > bound ==> CountTrue(Flatten(lx + ln), a) <= bound
    decreases |nodes| + |next|, 2
  {
    var p := Pick(nodes, next);
    if p.rest == [] && p.kept == [] {
      TreeSoundLast(nodes, next, ln, lx, bound, freshVar, a);
    } else if p.rest == [] {
      TreeSoundLevel(nodes, next, ln, lx, bound, freshVar, a);
    } else {
      TreeSoundStep(nodes, next, ln, lx, bound, freshVar, a);
    }
  }

  /** The last merge: its unit caps the count of all leaves. */
  lemma TreeSoundLast(nodes: seq<seq<int>>, next: seq<seq<int>>, ln: seq<seq<int>>, lx: seq<seq<int>>,
      bound: int, freshVar: int, a: Assignment)
    requires bound >= 0
    requires nodes != [] && (next == [] ==> |nodes| >= 2)
    requires Shaped(nodes, ln, bound) && Shaped(next, lx, bound)
    requires AllUp(nodes, ln, a) && AllUp(next, lx, a)
    requires TreeHolds(nodes, next, bound, freshVar, a)
    requires Pick(nodes, next).rest == [] && Pick(nodes, next).kept == []
    ensures |Flatten(lx + ln)| > bound ==> CountTrue(Flatten(lx + ln), a) <= bound
  {
    var p := Pick(nodes, next); var q := Pick(ln, lx);
    var mid := Fresh(freshVar, MidSize(|p.left|, |p.right|, bound));
    PickParts(nodes, next, ln, lx, bound, a);
    HoldsFirst(nodes, next, bound, freshVar, a);
    BranchSound(mid, p.left, p.right, q.left, q.right, bound, a);
    PickLast(ln, lx);
  }

  /** When the last two nodes are merged, they hold all the leaves. */
  lemma PickLast(ln: seq<seq<int>>, lx: seq<seq<int>>)
    requires ln != [] && (lx == [] ==> |ln| >= 2)
    requires Pick(ln, lx).rest == [] && Pick(ln, lx).kept == []
    ensures Flatten(lx + ln) == Pick(ln, lx).left + Pick(ln, lx).right
  {
    var q := Pick(ln, lx);
    PickFlatten(ln, lx);
    assert Flatten(q.kept) == [] && Flatten(q.rest) == [];
  }

  /** The merged node joins the next level, and the next level's node sequence is split into pairs. */
  lemma {:induction false} TreeSoundStep(nodes: seq<seq<int>>, next: seq<seq<int>>, ln: seq<seq<int>>, lx: seq<seq<int>>,
      bound: int, freshVar: int, a: Assignment)
    requires bound >= 0
    requires nodes != [] && (next == [] ==> |nodes| >= 2)
    requires Shaped(nodes, ln, bound) && Shaped(next, lx, bound)
    requires AllUp(nodes, ln, a) && AllUp(next, lx, a)
    requires TreeHolds(nodes, next, bound, freshVar, a)
    requires Pick(nodes, next).rest != []
    ensures |Flatten(lx + ln)| > bound ==> CountTrue(Flatten(lx + ln), a) <= bound
    decreases |nodes| + |next|, 1
  {
    var p := Pick(nodes, next); var q := Pick(ln, lx);
    var mid := Fresh(freshVar, MidSize(|p.left|, |p.right|, bound));
    PickParts(nodes, next, ln, lx, bound, a);
    HoldsFirst(nodes, next, bound, freshVar, a);
    BranchSound(mid, p.left, p.right, q.left, q.right, bound, a);
    PickKeeps(p.kept, q.kept, mid, q.left + q.right, bound, a);
    PickJoin(ln, lx);
    TreeSound(p.rest, p.kept + [mid], q.rest, q.kept + [q.left + q.right], bound, After(freshVar, mid), a);
  }

  /** The level is done: the merged nodes become the nodes of the next level. */
  lemma {:induction false} TreeSoundLevel(nodes: seq<seq<int>>, next: seq<seq<int>>, ln: seq<seq<int>>, lx: seq<seq<int>>,
      bound: int, freshVar: int, a: Assignment)
    requires bound >= 0
    requires nodes != [] && (next == [] ==> |nodes| >= 2)
    requires Shaped(nodes, ln, bound) && Shaped(next, lx, bound)
    requires AllUp(nodes, ln, a) && AllUp(next, lx, a)
    requires TreeHolds(nodes, next, bound, freshVar, a)
    requires Pick(nodes, next).rest == [] && Pick(nodes, next).kept != []
    ensures |Flatten(lx + ln)| > bound ==> CountTrue(Flatten(lx + ln), a) <= bound
    decreases |nodes| + |next|, 1
  {
    var p := Pick(nodes, next); var q := Pick(ln, lx);
    var mid := Fresh(freshVar, MidSize(|p.left|, |p.right|, bound));
    PickParts(nodes, next, ln, lx, bound, a);
    HoldsFirst(nodes, next, bound, freshVar, a);
    BranchSound(mid, p.left, p.right, q.left, q.right, bound, a);
    PickKeeps(p.kept, q.kept, mid, q.left + q.right, bound, a);
    PickJoin(ln, lx);
    assert q.rest == [];
    TreeSound(p.kept + [mid], [], q.kept + [q.left + q.right], [], bound, After(freshVar, mid), a);
    assert [] + (q.kept + [q.left + q.right]) == q.kept + [q.left + q.right] + q.rest;
  }

  /** The run's first merge holds, and so does the rest of the run. */
  lemma HoldsFirst(nodes: seq<seq<int>>, next: seq<seq<int>>, bound: int, freshVar: int, a: Assignment)
    requires bound >= 0
    requires nodes != [] && (next == [] ==> |nodes| >= 2)
    requires TreeHolds(nodes, next, bound, freshVar, a)
    ensures var p := Pick(nodes, next); var mid := Fresh(freshVar, MidSize(|p.left|, |p.right|, bound));
      MergeHolds(mid, p.left, p.right, bound, a)
      && (p.rest != [] ==> TreeHolds(p.rest, p.kept + [mid], bound, After(freshVar, mid), a))
      && (p.rest == [] && p.kept != [] ==> TreeHolds(p.kept + [mid], [], bound, After(freshVar, mid), a))
  {
  }

  /** Merging the picked nodes keeps the leaves in their order. */
  lemma PickJoin(ln: seq<seq<int>>, lx: seq<seq<int>>)
    requires ln != [] && (lx == [] ==> |ln| >= 2)
    ensures var q := Pick(ln, lx); Flatten(lx + ln) == Flatten(q.kept + [q.left + q.right] + q.rest)
  {
    var q := Pick(ln, lx);
    PickFlatten(ln, lx);
    FlattenAppend(q.kept, [q.left + q.right]);
    assert Flatten([q.left + q.right]) == q.left + q.right by { assert [q.left + q.right][..0] == []; }
    FlattenAppend(q.kept + [q.left + q.right], q.rest);
  }

  /** The picked nodes and what is left of both levels keep their shape and their counting. */
  lemma PickParts(nodes: seq<seq<int>>, next: seq<seq<int>>, ln: seq<seq<int>>, lx: seq<seq<int>>, bound: int, a: Assignment)
    requires nodes != [] && (next == [] ==> |nodes| >= 2)
    requires Shaped(nodes, ln, bound) && Shaped(next, lx, bound)
    requires AllUp(nodes, ln, a) && AllUp(next, lx, a)
    ensures var p := Pick(nodes, next); var q := Pick(ln, lx);
      |p.left| == Min(|q.left|, bound + 1) && Up(p.left, q.left, a)
      && |p.right| == Min(|q.right|, bound + 1) && Up(p.right, q.right, a)
      && Shaped(p.rest, q.rest, bound) && AllUp(p.rest, q.rest, a)
      && Shaped(p.kept, q.kept, bound) && AllUp(p.kept, q.kept, a)
  {
    if |nodes| >= 2 {
      assert Pick(nodes, next).left == nodes[0] && Pick(ln, lx).left == ln[0];
      assert Pick(nodes, next).right == nodes[1] && Pick(ln, lx).right == ln[1];
    } else {
      assert Pick(nodes, next).left == next[|next| - 1] && Pick(ln, lx).left == lx[|lx| - 1];
      assert Pick(nodes, next).right == nodes[0] && Pick(ln, lx).right == ln[0];
    }
  }

  /** Appending a node that counts its leaves keeps the next level's shape and counting. */
  lemma PickKeeps(kept: seq<seq<int>>, lkept: seq<seq<int>>, mid: seq<int>, lm: seq<int>, bound: int, a: Assignment)
    requires Shaped(kept, lkept, bound) && AllUp(kept, lkept, a)
    requires |mid| == Min(|lm|, bound + 1) && Up(mid, lm, a)
    ensures Shaped(kept + [mid], lkept + [lm], bound) && AllUp(kept + [mid], lkept + [lm], a)
  {
  }

  // ---------------------------------------------------------------------------
  // Completeness: setting every merged node's variables from its leaves' count.

  /** `a` with the n variables from lo set so that exactly the first c of them are true. */
  function SetCount(a: Assignment, lo: int, n: int, c: int): Assignment
  {
    (set v | v in a && !(lo <= v < lo + n)) + (set v | v in Fresh(lo, Min(c, n)))
  }

  predicate AllBelow(nodes: seq<seq<int>>, bound: int)
  {
    forall k :: 0 <= k < |nodes| ==> Below(nodes[k], bound)
  }

  predicate AllExact(nodes: seq<seq<int>>, ls: seq<seq<int>>, a: Assignment)
    requires |nodes| == |ls|
  {
    forall k :: 0 <= k < |nodes| ==> Exact(nodes[k], ls[k], a)
  }

  /** Setting a new node's variables from the count of its leaves makes it count them exactly. */
  lemma SetCountExact(a: Assignment, lo: int, n: int, leaves: seq<int>)
    requires lo > 0 && Below(leaves, lo)
    ensures Agree(a, SetCount(a, lo, n, CountTrue(leaves, a)), lo)
    ensures Exact(Fresh(lo, n), leaves, SetCount(a, lo, n, CountTrue(leaves, a)))
  {
    var c := CountTrue(leaves, a);
    var b := SetCount(a, lo, n, c);
    var on := Fresh(lo, Min(c, n));
    forall v | 0 < v < lo ensures v in a <==> v in b {
      assert v !in on;
    }
    CountAgree(leaves, a, b, lo);
    forall i | 0 <= i < |Fresh(lo, n)| ensures LitTrue(b, Fresh(lo, n)[i]) <==> i < c {
      if i < c {
        assert on[i] == lo + i;
      }
    }
  }

  lemma ExactAgree(o: seq<int>, leaves: seq<int>, a: Assignment, b: Assignment, bound: int)
    requires Below(o, bound) && Below(leaves, bound) && Agree(a, b, bound)
    requires Exact(o, leaves, a)
    ensures Exact(o, leaves, b)
  {
    CountAgree(leaves, a, b, bound);
    AgreeLits(o, a, b, bound);
  }

  lemma AllExactAgree(nodes: seq<seq<int>>, ls: seq<seq<int>>, a: Assignment, b: Assignment, bound: int)
    requires |nodes| == |ls| && AllBelow(nodes, bound) && AllBelow(ls, bound) && Agree(a, b, bound)
    requires AllExact(nodes, ls, a)
    ensures AllExact(nodes, ls, b)
  {
    forall k | 0 <= k < |nodes| ensures Exact(nodes[k], ls[k], b) {
      ExactAgree(nodes[k], ls[k], a, b, bound);
    }
  }

  lemma {:induction false} FlattenBelow(ls: seq<seq<int>>, bound: int)
    requires AllBelow(ls, bound)
    ensures Below(Flatten(ls), bound)
    decreases |ls|
  {
    if ls != [] {
      FlattenBelow(ls[..|ls| - 1], bound);
    }
  }

  /** The invariant of the completeness run: shapes, variable ranges, exact counting, and the bound. */
  predicate Counting(nodes: seq<seq<int>>, next: seq<seq<int>>, ln: seq<seq<int>>, lx: seq<seq<int>>,
      bound: int, freshVar: int, a: Assignment)
  {
    Side(nodes, ln, bound, freshVar, a) && Side(next, lx, bound, freshVar, a)
    && CountTrue(Flatten(lx + ln), a) <= bound
  }

  /** Nodes with their leaf lists: the right sizes, old variables only, exact counting. */
  predicate Side(nodes: seq<seq<int>>, ls: seq<seq<int>>, bound: int, freshVar: int, a: Assignment)
  {
    Shaped(nodes, ls, bound) && AllBelow(nodes, freshVar) && AllBelow(ls, freshVar) && AllExact(nodes, ls, a)
  }

  /** The two nodes about to be merged, with their leaves. */
  predicate Pair(l: seq<int>, r: seq<int>, ll: seq<int>, lr: seq<int>, bound: int, freshVar: int, a: Assignment)
  {
    |l| == Min(|ll|, bound + 1) && |r| == Min(|lr|, bound + 1)
    && Below(l, freshVar) && Below(r, freshVar) && Below(ll, freshVar) && Below(lr, freshVar)
    && Exact(l, ll, a) && Exact(r, lr, a)
  }

  /** A merge whose new node counts its leaves exactly, which are at most `bound` true. */
  predicate Joined(mid: seq<int>, l: seq<int>, r: seq<int>, ll: seq<int>, lr: seq<int>, bound: int, freshVar: int, a: Assignment)
  {
    bound >= 0 && |mid| == MidSize(|l|, |r|, bound) && Pair(l, r, ll, lr, bound, freshVar, a)
    && Below(mid, freshVar) && Exact(mid, ll + lr, a) && CountTrue(ll + lr, a) <= bound
  }

  /**
   * The tree is complete: when every node so far counts its leaves exactly and at most `bound`
   * leaves are true, some assignment that keeps the old variables satisfies every remaining
   * merge (each merged node's outputs set from its leaves' count).
   */
  lemma {:induction false} TreeComplete(nodes: seq<seq<int>>, next: seq<seq<int>>, ln: seq<seq<int>>, lx: seq<seq<int>>,
      bound: int, freshVar: int, a: Assignment)
    requires bound >= 0 && freshVar > 0
    requires nodes != [] && (next == [] ==> |nodes| >= 2)
    requires Counting(nodes, next, ln, lx, bound, freshVar, a)
    ensures exists b :: Agree(a, b, freshVar) && TreeHolds(nodes, next, bound, freshVar, b)
    decreases |nodes| + |next|, 2
  {
    var p := Pick(nodes, next);
    if p.rest == [] && p.kept == [] {
      TreeCompleteLast(nodes, next, ln, lx, bound, freshVar, a);
    } else if p.rest == [] {
      TreeCompleteLevel(nodes, next, ln, lx, bound, freshVar, a);
    } else {
      TreeCompleteStep(nodes, next, ln, lx, bound, freshVar, a);
    }
  }

  lemma TreeCompleteLast(nodes: seq<seq<int>>, next: seq<seq<int>>, ln: seq<seq<int>>, lx: seq<seq<int>>,
      bound: int, freshVar: int, a: Assignment)
    requires bound >= 0 && freshVar > 0
    requires nodes != [] && (next == [] ==> |nodes| >= 2)
    requires Counting(nodes, next, ln, lx, bound, freshVar, a)
    requires Pick(nodes, next).rest == [] && Pick(nodes, next).kept == []
    ensures exists b :: Agree(a, b, freshVar) && TreeHolds(nodes, next, bound, freshVar, b)
  {
    var p := Pick(nodes, next); var q := Pick(ln, lx);
    var mid := Fresh(freshVar, MidSize(|p.left|, |p.right|, bound));
    var lm := q.left + q.right;
    var a1 := SetCount(a, freshVar, |mid|, CountTrue(lm, a));
    var f1 := After(freshVar, mid);
    PickShapes(nodes, next, ln, lx, bound, freshVar, a);
    PickFlatten(ln, lx);
    PickJoin(ln, lx);
    MergeEnter(p.left, p.right, q.left, q.right, p.kept, p.rest, q.kept, q.rest, bound, freshVar, a, mid, a1, f1);
    MergeLeave(mid, p.left, p.right, q.left, q.right, bound, a1, a1, f1);
    assert TreeHolds(nodes, next, bound, freshVar, a1);
  }

  lemma {:induction false} TreeCompleteLevel(nodes: seq<seq<int>>, next: seq<seq<int>>, ln: seq<seq<int>>, lx: seq<seq<int>>,
      bound: int, freshVar: int, a: Assignment)
    requires bound >= 0 && freshVar > 0
    requires nodes != [] && (next == [] ==> |nodes| >= 2)
    requires Counting(nodes, next, ln, lx, bound, freshVar, a)
    requires Pick(nodes, next).rest == [] && Pick(nodes, next).kept != []
    ensures exists b :: Agree(a, b, freshVar) && TreeHolds(nodes, next, bound, freshVar, b)
    decreases |nodes| + |next|, 1
  {
    var p := Pick(nodes, next); var q := Pick(ln, lx);
    var mid := Fresh(freshVar, MidSize(|p.left|, |p.right|, bound));
    var lm := q.left + q.right;
    var a1 := SetCount(a, freshVar, |mid|, CountTrue(lm, a));
    var f1 := After(freshVar, mid);
    PickShapes(nodes, next, ln, lx, bound, freshVar, a);
    PickFlatten(ln, lx);
    PickJoin(ln, lx);
    MergeEnter(p.left, p.right, q.left, q.right, p.kept, p.rest, q.kept, q.rest, bound, freshVar, a, mid, a1, f1);
    CountingFlip(p.kept + [mid], q.kept + [lm], bound, f1, a1);
    TreeComplete(p.kept + [mid], [], q.kept + [lm], [], bound, f1, a1);
    var b :| Agree(a1, b, f1) && TreeHolds(p.kept + [mid], [], bound, f1, b);
    MergeLeave(mid, p.left, p.right, q.left, q.right, bound, a1, b, f1);
    HoldsLevel(nodes, next, bound, freshVar, a, a1, b, mid, f1);
  }

  lemma {:induction false} TreeCompleteStep(nodes: seq<seq<int>>, next: seq<seq<int>>, ln: seq<seq<int>>, lx: seq<seq<int>>,
      bound: int, freshVar: int, a: Assignment)
    requires bound >= 0 && freshVar > 0
    requires nodes != [] && (next == [] ==> |nodes| >= 2)
    requires Counting(nodes, next, ln, lx, bound, freshVar, a)
    requires Pick(nodes, next).rest != []
    ensures exists b :: Agree(a, b, freshVar) && TreeHolds(nodes, next, bound, freshVar, b)
    decreases |nodes| + |next|, 1
  {
    var p := Pick(nodes, next); var q := Pick(ln, lx);
    var mid := Fresh(freshVar, MidSize(|p.left|, |p.right|, bound));
    var lm := q.left + q.right;
    var a1 := SetCount(a, freshVar, |mid|, CountTrue(lm, a));
    var f1 := After(freshVar, mid);
    PickShapes(nodes, next, ln, lx, bound, freshVar, a);
    PickFlatten(ln, lx);
    PickJoin(ln, lx);
    MergeEnter(p.left, p.right, q.left, q.right, p.kept, p.rest, q.kept, q.rest, bound, freshVar, a, mid, a1, f1);
    TreeComplete(p.rest, p.kept + [mid], q.rest, q.kept + [lm], bound, f1, a1);
    var b :| Agree(a1, b, f1) && TreeHolds(p.rest, p.kept + [mid], bound, f1, b);
    MergeLeave(mid, p.left, p.right, q.left, q.right, bound, a1, b, f1);
    HoldsStep(nodes, next, bound, freshVar, a, a1, b, mid, f1);
  }

  /** The first merge and the rest of the run hold, when nodes remain at this level: so does the run. */
  lemma HoldsStep(nodes: seq<seq<int>>, next: seq<seq<int>>, bound: int, freshVar: int,
      a: Assignment, a1: Assignment, b: Assignment, mid: seq<int>, f1: int)
    requires bound >= 0
    requires nodes != [] && (next == [] ==> |nodes| >= 2)
    requires Pick(nodes, next).rest != []
    requires mid == Fresh(freshVar, MidSize(|Pick(nodes, next).left|, |Pick(nodes, next).right|, bound))
    requires f1 == After(freshVar, mid)
    requires Agree(a, a1, freshVar) && Agree(a1, b, f1)
    requires MergeHolds(mid, Pick(nodes, next).left, Pick(nodes, next).right, bound, b)
    requires TreeHolds(Pick(nodes, next).rest, Pick(nodes, next).kept + [mid], bound, f1, b)
    ensures exists b' :: Agree(a, b', freshVar) && TreeHolds(nodes, next, bound, freshVar, b')
  {
    AgreeTrans(a, a1, b, freshVar, f1);
    assert TreeHolds(nodes, next, bound, freshVar, b);
  }

  /** The first merge and the rest of the run hold, when the level is done: so does the run. */
  lemma HoldsLevel(nodes: seq<seq<int>>, next: seq<seq<int>>, bound: int, freshVar: int,
      a: Assignment, a1: Assignment, b: Assignment, mid: seq<int>, f1: int)
    requires bound >= 0
    requires nodes != [] && (next == [] ==> |nodes| >= 2)
    requires Pick(nodes, next).rest == [] && Pick(nodes, next).kept != []
    requires mid == Fresh(freshVar, MidSize(|Pick(nodes, next).left|, |Pick(nodes, next).right|, bound))
    requires f1 == After(freshVar, mid)
    requires Agree(a, a1, freshVar) && Agree(a1, b, f1)
    requires MergeHolds(mid, Pick(nodes, next).left, Pick(nodes, next).right, bound, b)
    requires TreeHolds(Pick(nodes, next).kept + [mid], [], bound, f1, b)
    ensures exists b' :: Agree(a, b', freshVar) && TreeHolds(nodes, next, bound, freshVar, b')
  {
    AgreeTrans(a, a1, b, freshVar, f1);
    assert TreeHolds(nodes, next, bound, freshVar, b);
  }

  /**
   * One merge of the completeness run: the new node's variables are set from its leaves'
   * count, so it counts exactly, and the invariant carries over to the remaining nodes.
   */
  lemma MergeEnter(l: seq<int>, r: seq<int>, ll: seq<int>, lr: seq<int>,
      kept: seq<seq<int>>, rest: seq<seq<int>>, lkept: seq<seq<int>>, lrest: seq<seq<int>>,
      bound: int, freshVar: int, a: Assignment, mid: seq<int>, a1: Assignment, f1: int)
    requires bound >= 0 && freshVar > 0
    requires mid == Fresh(freshVar, MidSize(|l|, |r|, bound)) && f1 == After(freshVar, mid)
    requires a1 == SetCount(a, freshVar, |mid|, CountTrue(ll + lr, a))
    requires Pair(l, r, ll, lr, bound, freshVar, a)
    requires Side(kept, lkept, bound, freshVar, a) && Side(rest, lrest, bound, freshVar, a)
    requires CountTrue(Flatten(lkept) + (ll + lr) + Flatten(lrest), a) <= bound
    ensures Agree(a, a1, freshVar) && f1 >= freshVar
    ensures Joined(mid, l, r, ll, lr, bound, f1, a1)
    ensures Counting(rest, kept + [mid], lrest, lkept + [ll + lr], bound, f1, a1)
  {
    var lm := ll + lr;
    BelowJoin(ll, lr, freshVar);
    SetCountExact(a, freshVar, |mid|, lm);
    ExactAgree(l, ll, a, a1, freshVar);
    ExactAgree(r, lr, a, a1, freshVar);
    AllExactAgree(kept, lkept, a, a1, freshVar);
    AllExactAgree(rest, lrest, a, a1, freshVar);
    MergeCount(lkept, lm, lrest, a, a1, freshVar);
    assert Below(mid, f1);
    BelowMono(l, freshVar, f1);
    BelowMono(r, freshVar, f1);
    BelowMono(ll, freshVar, f1);
    BelowMono(lr, freshVar, f1);
    BelowMono(lm, freshVar, f1);
    AllBelowPush(kept, mid, freshVar, f1);
    AllBelowPush(lkept, lm, freshVar, f1);
    AllBelowMono(rest, freshVar, f1);
    AllBelowMono(lrest, freshVar, f1);
    PushShape(kept, lkept, mid, lm, bound, a1);
  }

  /** When a level is done, the next level's nodes become the nodes. */
  lemma CountingFlip(ns: seq<seq<int>>, ls: seq<seq<int>>, bound: int, freshVar: int, a: Assignment)
    requires Counting([], ns, [], ls, bound, freshVar, a)
    ensures Counting(ns, [], ls, [], bound, freshVar, a)
  {
    assert ls + [] == ls == [] + ls;
  }

  lemma AgreeTrans(a: Assignment, a1: Assignment, b: Assignment, bound: int, bound1: int)
    requires Agree(a, a1, bound) && Agree(a1, b, bound1) && bound <= bound1
    ensures Agree(a, b, bound)
  {
  }

  lemma BelowJoin(x: seq<int>, y: seq<int>, bound: int)
    requires Below(x, bound) && Below(y, bound)
    ensures Below(x + y, bound)
  {
    forall i | 0 <= i < |x + y| ensures 0 < Abs((x + y)[i]) < bound {
      if i < |x| { assert (x + y)[i] == x[i]; } else { assert (x + y)[i] == y[i - |x|]; }
    }
  }

  lemma BelowMono(x: seq<int>, bound: int, bound': int)
    requires Below(x, bound) && bound <= bound'
    ensures Below(x, bound')
  {
  }

  lemma AllBelowMono(ns: seq<seq<int>>, bound: int, bound': int)
    requires AllBelow(ns, bound) && bound <= bound'
    ensures AllBelow(ns, bound')
  {
    forall k | 0 <= k < |ns| ensures Below(ns[k], bound') {
      BelowMono(ns[k], bound, bound');
    }
  }

  lemma AllBelowPush(ns: seq<seq<int>>, x: seq<int>, bound: int, bound': int)
    requires AllBelow(ns, bound) && bound <= bound' && Below(x, bound')
    ensures AllBelow(ns + [x], bound')
  {
    AllBelowMono(ns, bound, bound');
  }

  lemma PushShape(kept: seq<seq<int>>, lkept: seq<seq<int>>, mid: seq<int>, lm: seq<int>, bound: int, a: Assignment)
    requires Shaped(kept, lkept, bound) && AllExact(kept, lkept, a)
    requires |mid| == Min(|lm|, bound + 1) && Exact(mid, lm, a)
    ensures Shaped(kept + [mid], lkept + [lm], bound) && AllExact(kept + [mid], lkept + [lm], a)
  {
  }

  /** The count of all leaves does not change, and bounds the count of the merged node's leaves. */
  lemma MergeCount(lkept: seq<seq<int>>, lm: seq<int>, lrest: seq<seq<int>>, a: Assignment, a1: Assignment, freshVar: int)
    requires AllBelow(lkept, freshVar) && AllBelow(lrest, freshVar) && Below(lm, freshVar)
    requires Agree(a, a1, freshVar)
    ensures CountTrue(lm, a1) == CountTrue(lm, a) <= CountTrue(Flatten(lkept) + lm + Flatten(lrest), a)
    ensures CountTrue(Flatten(lkept + [lm] + lrest), a1) == CountTrue(Flatten(lkept) + lm + Flatten(lrest), a)
  {
    FlattenAppend(lkept + [lm], lrest);
    FlattenAppend(lkept, [lm]);
    assert Flatten([lm]) == lm by { assert [lm][..0] == []; }
    var all := Flatten(lkept) + lm + Flatten(lrest);
    assert Flatten(lkept + [lm] + lrest) == all;
    FlattenBelow(lkept, freshVar);
    FlattenBelow(lrest, freshVar);
    assert Below(all, freshVar);
    CountAgree(all, a, a1, freshVar);
    CountAgree(lm, a, a1, freshVar);
    CountTrueAppend(Flatten(lkept) + lm, Flatten(lrest), a);
    CountTrueAppend(Flatten(lkept), lm, a);
  }

  /** The picked nodes and what is left of both levels keep their shape, range and counting. */
  lemma PickShapes(nodes: seq<seq<int>>, next: seq<seq<int>>, ln: seq<seq<int>>, lx: seq<seq<int>>,
      bound: int, freshVar: int, a: Assignment)
    requires nodes != [] && (next == [] ==> |nodes| >= 2)
    requires Counting(nodes, next, ln, lx, bound, freshVar, a)
    ensures var p := Pick(nodes, next); var q := Pick(ln, lx);
      Pair(p.left, p.right, q.left, q.right, bound, freshVar, a)
      && Side(p.rest, q.rest, bound, freshVar, a) && Side(p.kept, q.kept, bound, freshVar, a)
  {
    if |nodes| >= 2 {
      assert Pick(nodes, next).left == nodes[0] && Pick(ln, lx).left == ln[0];
      assert Pick(nodes, next).right == nodes[1] && Pick(ln, lx).right == ln[1];
    } else {
      assert Pick(nodes, next).left == next[|next| - 1] && Pick(ln, lx).left == lx[|lx| - 1];
      assert Pick(nodes, next).right == nodes[0] && Pick(ln, lx).right == ln[0];
    }
  }

  /** The first merge's clauses hold under any later extension that keeps its variables. */
  lemma MergeLeave(mid: seq<int>, l: seq<int>, r: seq<int>, ll: seq<int>, lr: seq<int>, bound: int,
      a1: Assignment, b: Assignment, f1: int)
    requires Joined(mid, l, r, ll, lr, bound, f1, a1)
    requires Agree(a1, b, f1)
    ensures MergeHolds(mid, l, r, bound, b)
  {
    ExactAgree(l, ll, a1, b, f1);
    ExactAgree(r, lr, a1, b, f1);
    ExactAgree(mid, ll + lr, a1, b, f1);
    CountAgree(ll + lr, a1, b, f1);
    BranchComplete(mid, l, r, ll, lr, bound, b);
  }

  // ---------------------------------------------------------------------------
  // The whole encoding: totalizer_full_encoding on the leaves of `lits`.

  /** A leaf counts its one literal both from below and exactly. */
  lemma LeavesCount(lits: seq<int>, bound: int, freshVar: int, a: Assignment)
    requires bound >= 0
    ensures Shaped(Leaves(lits), Leaves(lits), bound)
    ensures AllUp(Leaves(lits), Leaves(lits), a) && AllExact(Leaves(lits), Leaves(lits), a)
    ensures NonZero(lits) ==> AllNonZero(Leaves(lits))
    ensures Below(lits, freshVar) ==> AllBelow(Leaves(lits), freshVar)
  {
    forall k | 0 <= k < |lits| ensures Exact([lits[k]], [lits[k]], a) {
      CountOne(lits[k], a);
    }
  }

  /**
   * The totalizer is sound: if its clauses hold, at most `bound` of the literals are true.
   */
  lemma TotalizerSound(lits: seq<int>, bound: int, freshVar: int, a: Assignment)
    requires |lits| >= 2 && bound >= 0 && freshVar > 0 && NonZero(lits)
    ensures Sat(Tree(Leaves(lits), [], bound, freshVar), a) ==> CountTrue(lits, a) <= bound
  {
    if Sat(Tree(Leaves(lits), [], bound, freshVar), a) {
      LeavesCount(lits, bound, freshVar, a);
      TreeMeaning(Leaves(lits), [], bound, freshVar, a);
      TreeSound(Leaves(lits), [], Leaves(lits), [], bound, freshVar, a);
      FlattenLeaves(lits);
      assert [] + Leaves(lits) == Leaves(lits);
      CountTrueBound(lits, a);
    }
  }

  /**
   * The totalizer is complete: if at most `bound` of the literals are true, some assignment
   * that keeps every variable below `freshVar` satisfies its clauses.
   */
  lemma TotalizerComplete(lits: seq<int>, bound: int, freshVar: int, a: Assignment)
    requires |lits| >= 2 && bound >= 0 && Below(lits, freshVar)
    ensures CountTrue(lits, a) <= bound ==>
      exists b :: Agree(a, b, freshVar) && Sat(Tree(Leaves(lits), [], bound, freshVar), b)
  {
    if CountTrue(lits, a) <= bound {
      assert 0 < Abs(lits[0]) < freshVar;
      LeavesCounting(lits, bound, freshVar, a);
      TreeComplete(Leaves(lits), [], Leaves(lits), [], bound, freshVar, a);
      HoldsSat(Leaves(lits), bound, freshVar, a);
    }
  }

  lemma LeavesCounting(lits: seq<int>, bound: int, freshVar: int, a: Assignment)
    requires bound >= 0 && Below(lits, freshVar) && CountTrue(lits, a) <= bound
    ensures Counting(Leaves(lits), [], Leaves(lits), [], bound, freshVar, a) && AllNonZero(Leaves(lits))
  {
    LeavesCount(lits, bound, freshVar, a);
    FlattenLeaves(lits);
    assert [] + Leaves(lits) == Leaves(lits);
  }

  lemma HoldsSat(nodes: seq<seq<int>>, bound: int, freshVar: int, a: Assignment)
    requires bound >= 0 && freshVar > 0 && |nodes| >= 2 && AllNonZero(nodes)
    requires exists b :: Agree(a, b, freshVar) && TreeHolds(nodes, [], bound, freshVar, b)
    ensures exists b :: Agree(a, b, freshVar) && Sat(Tree(nodes, [], bound, freshVar), b)
  {
    var b :| Agree(a, b, freshVar) && TreeHolds(nodes, [], bound, freshVar, b);
    TreeMeaning(nodes, [], bound, freshVar, b);
  }
}

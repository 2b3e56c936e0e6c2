/**
 * The clause store of cnf2knf (Extractor/cnf2knf/src): clauses and klauses, the store that
 * marks the clauses a new klause consumes as deleted, the orchestration that renumbers a
 * candidate cluster densely, hands it to the decision-diagram oracle and maps the result
 * back, and the KNF writer.
 */
module Extractor {
  import opened Lits
  import opened Bdd
  import opened Decoder
  import opened TermSets
  import Ord = Ordering
  import opened Text
  import Scan
  import CP = CnfParse

  /** A clause (bound 1) or klause: at least `bound` of `lits` are true; `deleted` once it is consumed. */
  datatype Klause = Klause(lits: seq<int>, bound: int, deleted: bool)

  /** A new klause copies its literals in order, keeps its bound and is not deleted. */
  function NewKlause(lits: seq<int>, bound: int): Klause
  {
    Klause(lits, bound, false)
  }

  function Size(k: Klause): nat { |k.lits| }

  /** ks extends ks0, and every klause appended has a bound of at least one and below its size. */
  predicate SaneGrowth(ks0: seq<Klause>, ks: seq<Klause>)
  {
    ks0 <= ks && forall t :: |ks0| <= t < |ks| ==> 1 <= ks[t].bound < |ks[t].lits|
  }

  /** A cardinality constraint proper, as opposed to an ordinary clause. */
  predicate IsKlause(k: Klause) { k.bound > 1 }

  predicate Satisfied(k: Klause, a: Assignment) { AtLeast(k.lits, k.bound, a) }

  predicate AllSatisfied(ks: seq<Klause>, a: Assignment)
  {
    forall i :: 0 <= i < |ks| ==> Satisfied(ks[i], a)
  }

  /** What is not a klause is a clause: bound 1 holds iff some literal does, a bound below 1 always holds. */
  lemma NotKlauseMeaning(k: Klause, a: Assignment)
    requires !IsKlause(k)
    ensures Satisfied(k, a) <==> k.bound <= 0 || exists i :: 0 <= i < Size(k) && LitTrue(a, k.lits[i])
  {
    CountTruePositive(k.lits, a);
  }

  /** compare_pair: the ordered map's comparison on pair keys. */
  predicate PairLess(l1: (int, int), l2: (int, int))
  {
    if l1.0 < l2.0 then true
    else if l1.0 == l2.0 then l1.1 < l2.1
    else false
  }

  /** compare_pair is the strict lexicographic order: irreflexive, transitive and total. */
  lemma PairLessOrder(l1: (int, int), l2: (int, int), l3: (int, int))
    ensures !PairLess(l1, l1)
    ensures PairLess(l1, l2) && PairLess(l2, l3) ==> PairLess(l1, l3)
    ensures l1 != l2 ==> PairLess(l1, l2) != PairLess(l2, l1)
  {
  }

  /** The extractor's statistics; the start time taken by the constructor is not modelled. */
  datatype Stats = Stats(cacheHits: int, cacheMisses: int, failures: int, successes: int,
                         nconstraints: int, constraintSizes: map<int, int>, extraTime: real,
                         eliminated: seq<int>)

  /** Every counter and the extra time start at zero. */
  const InitialStats := Stats(0, 0, 0, 0, 0, map[], 0.0, [])

  /** mark_deleted_clauses on a value: exactly the listed clauses become deleted. */
  function MarkDeleted(cs: seq<Klause>, ids: seq<int>): (r: seq<Klause>)
    ensures |r| == |cs|
    ensures forall i :: 0 <= i < |cs| ==>
      r[i].lits == cs[i].lits && r[i].bound == cs[i].bound && (r[i].deleted <==> cs[i].deleted || i in ids)
  {
    seq(|cs|, i requires 0 <= i < |cs| => if i in ids then cs[i].(deleted := true) else cs[i])
  }

  /** Marking the same clauses twice is marking them once. */
  lemma MarkDeletedIdempotent(cs: seq<Klause>, ids: seq<int>)
    ensures MarkDeleted(MarkDeleted(cs, ids), ids) == MarkDeleted(cs, ids)
  {
    var r, r2 := MarkDeleted(cs, ids), MarkDeleted(MarkDeleted(cs, ids), ids);
    forall i | 0 <= i < |cs| ensures r2[i] == r[i] {
      assert r2[i].lits == r[i].lits && r2[i].bound == r[i].bound && r2[i].deleted == r[i].deleted;
    }
  }

  /** Two markings in a row mark the union of the lists. */
  lemma MarkDeletedTwice(cs: seq<Klause>, ids1: seq<int>, ids2: seq<int>)
    ensures MarkDeleted(MarkDeleted(cs, ids1), ids2) == MarkDeleted(cs, ids1 + ids2)
  {
    var r, r2 := MarkDeleted(cs, ids1 + ids2), MarkDeleted(MarkDeleted(cs, ids1), ids2);
    forall i | 0 <= i < |cs| ensures r2[i] == r[i] {
      assert i in ids1 + ids2 <==> i in ids1 || i in ids2;
      assert r2[i].lits == r[i].lits && r2[i].bound == r[i].bound && r2[i].deleted == r[i].deleted;
    }
  }

  /** The clauses that are not deleted, in order. */
  function Kept(cs: seq<Klause>): (r: seq<Klause>)
    ensures |r| <= |cs|
    ensures forall k :: k in r <==> k in cs && !k.deleted
  {
    if cs == [] then []
    else Kept(cs[..|cs| - 1]) + (if cs[|cs| - 1].deleted then [] else [cs[|cs| - 1]])
  }

  /** `abs(lit) / lit`: the sign of a non-zero literal. */
  function Sign(lit: int): int { if lit > 0 then 1 else -1 }

  /** The dense numbering of validate_constraint: vars[i] gets first + i, a repeated variable its last place. */
  function Numbering(vars: seq<int>, first: int): (m: map<int, int>)
    ensures forall v :: v in m <==> v in vars
    ensures forall v :: v in m ==> first <= m[v] < first + |vars| && vars[m[v] - first] == v
  {
    if vars == [] then map[]
    else Numbering(vars[..|vars| - 1], first)[vars[|vars| - 1] := first + |vars| - 1]
  }

  /** The inverse table: number first + i back to vars[i]. */
  function Positions(vars: seq<int>, first: int): (m: map<int, int>)
    ensures forall k :: k in m <==> first <= k < first + |vars|
    ensures forall k :: k in m ==> m[k] == vars[k - first]
  {
    if vars == [] then map[]
    else Positions(vars[..|vars| - 1], first)[first + |vars| - 1 := vars[|vars| - 1]]
  }

  /** The number table after numbering vars from first on, starting from the table m. */
  function Renumbered(vars: seq<int>, m: map<int, int>, first: int): map<int, int>
  {
    if vars == [] then m else Renumbered(vars[..|vars| - 1], m, first)[vars[|vars| - 1] := first + |vars| - 1]
  }

  /** The table back after numbering vars from first on, starting from the table m. */
  function Repositioned(vars: seq<int>, m: map<int, int>, first: int): map<int, int>
  {
    if vars == [] then m else Repositioned(vars[..|vars| - 1], m, first)[first + |vars| - 1 := vars[|vars| - 1]]
  }

  /** Numbering two lists one after the other numbers their concatenation. */
  lemma {:induction false} NumberingAppend(xs: seq<int>, ys: seq<int>)
    ensures Renumbered(ys, Renumbered(xs, map[], 1), 1 + |xs|) == Numbering(xs + ys, 1)
    ensures Repositioned(ys, Repositioned(xs, map[], 1), 1 + |xs|) == Positions(xs + ys, 1)
    decreases |ys|
  {
    if ys == [] {
      assert xs + ys == xs;
      RenumberedEmpty(xs);
    } else {
      var ys' := ys[..|ys| - 1];
      NumberingAppend(xs, ys');
      assert (xs + ys)[..|xs + ys| - 1] == xs + ys';
    }
  }

  /** Numbering from the empty table from 1 on is the Numbering itself. */
  lemma {:induction false} RenumberedEmpty(xs: seq<int>)
    ensures Renumbered(xs, map[], 1) == Numbering(xs, 1) && Repositioned(xs, map[], 1) == Positions(xs, 1)
    decreases |xs|
  {
    if xs != [] {
      RenumberedEmpty(xs[..|xs| - 1]);
    }
  }

  /** from_normalization undoes to_normalization. */
  lemma NumberingInverse(vars: seq<int>, first: int, v: int)
    requires v in Numbering(vars, first)
    ensures Numbering(vars, first)[v] in Positions(vars, first)
    ensures Positions(vars, first)[Numbering(vars, first)[v]] == v
  {
  }

  /** With no repeated variable, to_normalization undoes from_normalization too. */
  lemma PositionsInverse(vars: seq<int>, first: int, k: int)
    requires Distinct(vars) && k in Positions(vars, first)
    ensures Positions(vars, first)[k] in Numbering(vars, first)
    ensures Numbering(vars, first)[Positions(vars, first)[k]] == k
  {
    PositionsAt(vars, first, k);
    InverseAt(vars, first, Numbering(vars, first), Positions(vars, first)[k], k);
  }

  /** The variable at number k, and the number the numbering gives it. */
  lemma PositionsAt(vars: seq<int>, first: int, k: int)
    requires k in Positions(vars, first)
    ensures var v, m := Positions(vars, first)[k], Numbering(vars, first);
      first <= k < first + |vars| && v == vars[k - first] &&
      v in m && first <= m[v] < first + |vars| && vars[m[v] - first] == v
  {
    assert vars[k - first] in vars;
  }

  /** A number table that points every variable back to its place sends vars[k - first] to k. */
  lemma InverseAt(vars: seq<int>, first: int, m: map<int, int>, v: int, k: int)
    requires Distinct(vars) && first <= k < first + |vars| && v == vars[k - first]
    requires v in m && first <= m[v] < first + |vars| && vars[m[v] - first] == v
    ensures m[v] == k
  {
    DistinctAt(vars, k - first, m[v] - first);
  }

  /** Every literal renamed through m, keeping its sign. */
  function Rename(lits: seq<int>, m: map<int, int>): (r: seq<int>)
    requires forall i :: 0 <= i < |lits| ==> Abs(lits[i]) in m
    ensures |r| == |lits|
    ensures forall i :: 0 <= i < |lits| ==> r[i] == Sign(lits[i]) * m[Abs(lits[i])]
  {
    if lits == [] then [] else Rename(lits[..|lits| - 1], m) + [Sign(lits[|lits| - 1]) * m[Abs(lits[|lits| - 1])]]
  }

  /** Renaming with the numbering and back through its inverse gives the literals back. */
  lemma RenameRoundTrip(lits: seq<int>, vars: seq<int>, first: int)
    requires first >= 1
    requires NonZero(lits) && forall i :: 0 <= i < |lits| ==> Abs(lits[i]) in vars
    ensures var r := Rename(lits, Numbering(vars, first));
      (forall i :: 0 <= i < |r| ==> Abs(r[i]) in Positions(vars, first)) &&
      Rename(r, Positions(vars, first)) == lits
  {
    var m, p := Numbering(vars, first), Positions(vars, first);
    var r := Rename(lits, m);
    forall i | 0 <= i < |r| ensures Abs(r[i]) == m[Abs(lits[i])] && Sign(r[i]) == Sign(lits[i]) && Abs(r[i]) in p {
      NumberingInverse(vars, first, Abs(lits[i]));
    }
    var back := Rename(r, p);
    forall i | 0 <= i < |lits| ensures back[i] == lits[i] {
      NumberingInverse(vars, first, Abs(lits[i]));
    }
  }

  /** The clause literals of the listed clauses, renamed. */
  function Normalized(cs: seq<Klause>, ids: seq<int>, m: map<int, int>): (r: seq<seq<int>>)
    requires forall j :: 0 <= j < |ids| ==> 0 <= ids[j] < |cs| && forall i :: 0 <= i < |cs[ids[j]].lits| ==> Abs(cs[ids[j]].lits[i]) in m
    ensures |r| == |ids| && forall j :: 0 <= j < |ids| ==> r[j] == Rename(cs[ids[j]].lits, m)
  {
    if ids == [] then [] else Normalized(cs, ids[..|ids| - 1], m) + [Rename(cs[ids[|ids| - 1]].lits, m)]
  }

  /** Each analyzed klause with its literals mapped back; a number with no entry reads as 0, as operator[] gives. */
  function MapBack(ks: seq<Klause>, from: map<int, int>): (r: seq<Klause>)
    ensures |r| == |ks|
    ensures forall i :: 0 <= i < |ks| ==> r[i] == ks[i].(lits := Unnormalize(ks[i].lits, from))
  {
    if ks == [] then [] else MapBack(ks[..|ks| - 1], from) + [ks[|ks| - 1].(lits := Unnormalize(ks[|ks| - 1].lits, from))]
  }

  lemma MapBackStep(ks: seq<Klause>, i: int, from: map<int, int>)
    requires 0 <= i < |ks|
    ensures MapBack(ks[..i + 1], from) == MapBack(ks[..i], from) + [ks[i].(lits := Unnormalize(ks[i].lits, from))]
  {
    assert ks[..i + 1][..i] == ks[..i];
  }

  function Unnormalize(lits: seq<int>, from: map<int, int>): (r: seq<int>)
    ensures |r| == |lits|
    ensures forall i :: 0 <= i < |lits| ==> r[i] == Sign(lits[i]) * (if Abs(lits[i]) in from then from[Abs(lits[i])] else 0)
  {
    if lits == [] then []
    else
      var l := lits[|lits| - 1];
      Unnormalize(lits[..|lits| - 1], from) + [Sign(l) * (if Abs(l) in from then from[Abs(l)] else 0)]
  }

  /** When every literal is numbered, mapping back is the renaming through the inverse table. */
  lemma UnnormalizeRename(lits: seq<int>, from: map<int, int>)
    requires forall i :: 0 <= i < |lits| ==> Abs(lits[i]) in from
    ensures Unnormalize(lits, from) == Rename(lits, from)
  {
  }

  /** The klauses bdd_analyze emits for the bounds lower..upper on lits: a lower klause, then an upper one over the negated literals. */
  function Emit(c: Card, ndata: int): seq<Klause>
  {
    (if c.lower > 0 && c.lower != |c.lits| then [NewKlause(c.lits, c.lower)] else [])
    + (if c.upper < ndata && c.upper != 0 then [NewKlause(Negate(c.lits), ndata - c.upper)] else [])
  }

  /** default_AMO: every data variable negated, bound one less than their number. */
  function DefaultAmo(dataVariables: seq<int>): (k: Klause)
    ensures Size(k) == |dataVariables| && k.bound == |dataVariables| - 1 && !k.deleted
    ensures forall i :: 0 <= i < |dataVariables| ==> k.lits[i] == -dataVariables[i]
  {
    NewKlause(Negate(dataVariables), |dataVariables| - 1)
  }

  /** The AMO klause holds exactly when at most one of the (positive) data variables is true. */
  lemma DefaultAmoMeaning(dataVariables: seq<int>, a: Assignment)
    requires NonZero(dataVariables)
    ensures Satisfied(DefaultAmo(dataVariables), a) <==> CountTrue(dataVariables, a) <= 1
  {
    CountNegate(dataVariables, a);
  }

  /**
   * When something is emitted, the emitted klauses together say exactly lower <= #true <= upper
   * (given the decoder's facts about the bounds); a dropped bound is one that always holds or
   * one that forces every literal, and then nothing is emitted at all.
   */
  lemma EmitMeaning(c: Card, ndata: int, a: Assignment)
    requires |c.lits| <= ndata && NonZero(c.lits) && 0 <= c.lower <= ndata && 0 <= c.upper <= ndata
    requires |c.lits| < ndata ==> c.lower == 0 && c.upper == ndata
    requires c.lower <= c.upper || (c.lower == |c.lits| && c.upper == 0)
    requires Emit(c, ndata) != []
    ensures AllSatisfied(Emit(c, ndata), a) <==> c.lower <= CountTrue(c.lits, a) <= c.upper
  {
    CountTrueBound(c.lits, a);
    CountNegate(c.lits, a);
    var e := Emit(c, ndata);
    var n := CountTrue(c.lits, a);
    if c.lower > 0 && c.lower != |c.lits| {
      assert e[0] == NewKlause(c.lits, c.lower);
    }
    if c.upper < ndata && c.upper != 0 {
      assert e[|e| - 1] == NewKlause(Negate(c.lits), ndata - c.upper);
    }
  }

  /**
   * Every klause Emit makes is a genuine one, given the decoder's facts about the bounds: its
   * bound is at least 1 and below its number of literals.
   */
  lemma EmitBounds(c: Card, ndata: int)
    requires |c.lits| <= ndata && 0 <= c.lower <= ndata && 0 <= c.upper <= ndata
    requires |c.lits| < ndata ==> c.lower == 0 && c.upper == ndata
    ensures forall k | k in Emit(c, ndata) :: 1 <= k.bound < |k.lits| && !k.deleted
  {
  }

  /** The klauses emitted from a checked decoding each have a bound of at least 1 and below their size. */
  lemma AnalyzedBounds(root: Node, ndata: nat)
    requires PositiveSupport(root) && CheckedConverter(root, ndata).Some?
    ensures forall k | k in Emit(CheckedConverter(root, ndata).value, ndata) :: 1 <= k.bound < |k.lits|
  {
    if ndata == 0 {
      NoDataNoKlause(root);
    } else {
      CheckedConverterMeaning(root, ndata, {});
      EmitBounds(CheckedConverter(root, ndata).value, ndata);
    }
  }

  /** The checked decoder's bounds are ordered, except for the constantly false diagram. */
  lemma CheckedConverterOrder(root: Node, ndata: nat)
    requires CheckedConverter(root, ndata).Some?
    ensures var c := CheckedConverter(root, ndata).value;
      c.lower <= c.upper || (c.lower == |c.lits| == ndata && c.upper == 0)
  {
    if !root.Leaf? {
      var d := Layers(root, ndata, ndata).value;
      CheckedBoundsMeaning(d.layer, 0);
    }
  }

  /** With no data variable nothing is ever emitted. */
  lemma NoDataNoKlause(root: Node)
    requires CheckedConverter(root, 0).Some?
    ensures Emit(CheckedConverter(root, 0).value, 0) == []
  {
  }

  /** Every clause has a true literal. */
  ghost predicate ClausesHold(cls: seq<seq<int>>, a: Assignment)
  {
    forall i :: 0 <= i < |cls| ==> CountTrue(cls[i], a) >= 1
  }

  /** a with the variables of e set to s. */
  function Rechoose(a: Assignment, e: set<int>, s: set<int>): Assignment { (a - e) + s }

  /** The encoding variables ndata + 1..nvar. */
  function Enc(ndata: int, nvar: int): set<int> { Interval(ndata + 1, nvar + 1) }

  /** a, with its encoding variables re-chosen, satisfies the clauses. */
  ghost predicate Projected(cls: seq<seq<int>>, ndata: int, nvar: int, a: Assignment)
  {
    exists s :: s <= Enc(ndata, nvar) && ClausesHold(cls, Rechoose(a, Enc(ndata, nvar), s))
  }

  /** The klauses say exactly what the clauses say about the data variables. */
  ghost predicate Captures(ks: seq<Klause>, cls: seq<seq<int>>, ndata: int, nvar: int)
  {
    forall a :: AllSatisfied(ks, a) <==> Projected(cls, ndata, nvar, a)
  }

  /** Every live clause of cs, read as the disjunction of its literals, holds under a. */
  ghost predicate LiveHold(cs: seq<Klause>, a: Assignment)
  {
    forall i :: 0 <= i < |cs| && !cs[i].deleted ==> CountTrue(cs[i].lits, a) >= 1
  }

  /** The klauses ks follow from the live clauses of cs (over assignments to real variables, which leave 0 out). */
  ghost predicate Implied(cs: seq<Klause>, ks: seq<Klause>)
  {
    forall a :: 0 !in a && LiveHold(cs, a) ==> AllSatisfied(ks, a)
  }

  /** ds is cs with possibly more clauses marked deleted, and nothing else changed. */
  predicate Retired(cs: seq<Klause>, ds: seq<Klause>)
  {
    |ds| == |cs| && forall i :: 0 <= i < |cs| ==> ds[i].lits == cs[i].lits && (cs[i].deleted ==> ds[i].deleted)
  }

  /** Marking clauses deleted retires them. */
  lemma MarkDeletedRetires(cs: seq<Klause>, ids: seq<int>)
    ensures Retired(cs, MarkDeleted(cs, ids))
  {
  }

  /** Retiring twice is retiring. */
  lemma RetiredTrans(cs: seq<Klause>, ds: seq<Klause>, es: seq<Klause>)
    requires Retired(cs, ds) && Retired(ds, es)
    ensures Retired(cs, es)
  {
  }

  /**
   * Klauses implied by the clauses, followed by klauses implied by what is left of them once
   * some are retired, are all implied by the clauses.
   */
  lemma ImpliedChain(cs: seq<Klause>, ds: seq<Klause>, ks1: seq<Klause>, ks2: seq<Klause>)
    requires Implied(cs, ks1) && Retired(cs, ds) && Implied(ds, ks2)
    ensures Implied(cs, ks1 + ks2)
  {
    forall a | 0 !in a && LiveHold(cs, a) ensures AllSatisfied(ks1 + ks2, a) {
      assert LiveHold(ds, a) by {
        forall i | 0 <= i < |ds| && !ds[i].deleted ensures CountTrue(ds[i].lits, a) >= 1 {
          assert !cs[i].deleted;
        }
      }
      var ks := ks1 + ks2;
      forall i | 0 <= i < |ks| ensures Satisfied(ks[i], a) {
        if i >= |ks1| {
          assert ks[i] == ks2[i - |ks1|];
        }
      }
    }
  }

  /** The assignment to the dense numbers that a induces: number k is true when its variable's positive literal is. */
  function Pull(a: Assignment, from: map<int, int>): Assignment
  {
    set k | k in from && LitTrue(a, from[k])
  }

  /** A clause renamed densely is true under the pulled assignment exactly as often as the clause under a. */
  lemma RenamePull(c: seq<int>, vars: seq<int>, a: Assignment)
    requires NonZero(c) && forall i :: 0 <= i < |c| ==> Abs(c[i]) in vars
    ensures CountTrue(Rename(c, Numbering(vars, 1)), Pull(a, Positions(vars, 1))) == CountTrue(c, a)
  {
    var to, from := Numbering(vars, 1), Positions(vars, 1);
    var r, b := Rename(c, to), Pull(a, from);
    forall i | 0 <= i < |c| ensures LitTrue(a, c[i]) <==> LitTrue(b, r[i]) {
      var v := Abs(c[i]);
      NumberingInverse(vars, 1, v);
      NegTrue(v, a);
      assert to[v] in b <==> LitTrue(a, v);
    }
    CountTrueMono(c, r, a, b);
    CountTrueMono(r, c, b, a);
  }

  /** A klause mapped back is, under a, at least as true as the klause itself under the pulled assignment. */
  lemma UnnormalizePull(lits: seq<int>, from: map<int, int>, a: Assignment)
    requires 0 !in a
    ensures CountTrue(lits, Pull(a, from)) <= CountTrue(Unnormalize(lits, from), a)
  {
    var b, u := Pull(a, from), Unnormalize(lits, from);
    forall i | 0 <= i < |lits| && LitTrue(b, lits[i]) ensures LitTrue(a, u[i]) {
      var l := lits[i];
      if Abs(l) in from && from[Abs(l)] != 0 && l != 0 {
        NegTrue(from[Abs(l)], a);
      }
    }
    CountTrueMono(lits, u, b, a);
  }

  /**
   * What validate_constraint commits is sound: when the analyzed klauses capture the listed
   * clauses renamed densely, the klauses mapped back hold under every assignment that makes
   * the live clauses true.
   */
  lemma CommitSound(cs: seq<Klause>, ids: seq<int>, vars: seq<int>, ks: seq<Klause>, ndata: int)
    requires forall j :: 0 <= j < |ids| ==>
      0 <= ids[j] < |cs| && !cs[ids[j]].deleted && NonZero(cs[ids[j]].lits) &&
      forall i :: 0 <= i < |cs[ids[j]].lits| ==> Abs(cs[ids[j]].lits[i]) in vars
    requires Captures(ks, Normalized(cs, ids, Numbering(vars, 1)), ndata, |vars|)
    ensures Implied(cs, MapBack(ks, Positions(vars, 1)))
  {
    var to, from := Numbering(vars, 1), Positions(vars, 1);
    var ncs := Normalized(cs, ids, to);
    forall a | 0 !in a && LiveHold(cs, a) ensures AllSatisfied(MapBack(ks, from), a) {
      var b := Pull(a, from);
      assert ClausesHold(ncs, b) by {
        forall j | 0 <= j < |ncs| ensures CountTrue(ncs[j], b) >= 1 {
          RenamePull(cs[ids[j]].lits, vars, a);
        }
      }
      var e := Enc(ndata, |vars|);
      assert Rechoose(b, e, b * e) == b;
      assert Projected(ncs, ndata, |vars|, b);
      var mb := MapBack(ks, from);
      forall i | 0 <= i < |mb| ensures Satisfied(mb[i], a) {
        assert Satisfied(ks[i], b);
        UnnormalizePull(ks[i].lits, from, a);
      }
    }
  }

  /** The conjoined clause terms hold exactly when every clause does. */
  lemma ClauseTermsMeaning(ts: seq<Term>, cls: seq<seq<int>>, lv: map<int, int>, b: Assignment)
    requires |ts| == |cls| && forall i :: 0 <= i < |ts| ==> ts[i].active && ts[i].fun == ClauseNode(cls[i], lv)
    ensures Eval(ConjTerms(ts, lv), b) <==> ClausesHold(cls, b)
  {
    EvalConjTerms(ts, lv, b);
    forall i | 0 <= i < |ts| ensures Eval(ts[i].fun, b) <==> CountTrue(cls[i], b) >= 1 {
      EvalClauseNode(cls[i], lv, b);
    }
  }

  /** Bucket elimination over the clause terms, in an order of all variables, is the projection. */
  lemma ReducedMeaning(ts: seq<Term>, order: seq<int>, cls: seq<seq<int>>, ndata: int, nvar: int, a: Assignment)
    requires |ts| == |cls| && forall i :: 0 <= i < |ts| ==> ts[i].active && ts[i].fun == ClauseNode(cls[i], Ranks(order))
    requires forall v :: v in order <==> 1 <= v <= nvar
    requires 0 <= ndata
    ensures Eval(Reduced(ts, order, ndata), a) <==> Projected(cls, ndata, nvar, a)
  {
    var lv := Ranks(order);
    var e := Enc(ndata, nvar);
    assert EncSet(order, ndata) == e;
    EvalQuantifyEnc(ConjTerms(ts, lv), order, ndata, lv, a);
    forall s | s <= e ensures Eval(ConjTerms(ts, lv), (a - e) + s) <==> ClausesHold(cls, Rechoose(a, e, s)) {
      ClauseTermsMeaning(ts, cls, lv, (a - e) + s);
    }
  }

  /** root is a diagram over positive variables that means the clauses projected on the data variables. */
  ghost predicate Projects(root: Node, cls: seq<seq<int>>, ndata: int, nvar: int)
  {
    PositiveSupport(root) && forall a :: Eval(root, a) <==> Projected(cls, ndata, nvar, a)
  }

  /**
   * What bdd_analyze commits to once the decoder is checked: the klauses emitted from a
   * checked decoding of a diagram of the projection capture that projection.
   */
  lemma AnalyzeMeaning(root: Node, cls: seq<seq<int>>, ndata: nat, nvar: int)
    requires Projects(root, cls, ndata, nvar) && CheckedConverter(root, ndata).Some?
    requires Emit(CheckedConverter(root, ndata).value, ndata) != []
    ensures Captures(Emit(CheckedConverter(root, ndata).value, ndata), cls, ndata, nvar)
  {
    var c := CheckedConverter(root, ndata).value;
    if ndata == 0 {
      NoDataNoKlause(root);
    } else {
      CheckedConverterOrder(root, ndata);
      forall a ensures AllSatisfied(Emit(c, ndata), a) <==> Projected(cls, ndata, nvar, a) {
        CheckedConverterMeaning(root, ndata, a);
        EmitMeaning(c, ndata, a);
      }
    }
  }

  /** The odd parity of x1, x2, x3 as clauses: each even assignment is excluded by one clause. */
  function ParityClauses(): seq<seq<int>>
  {
    [[1, 2, 3], [-1, -2, 3], [-1, 2, -3], [1, -2, -3]]
  }

  /** With no encoding variable, the projection of the parity clauses is the parity clauses. */
  lemma ParityProjected(a: Assignment)
    ensures Projected(ParityClauses(), 3, 3, a) <==> ClausesHold(ParityClauses(), a)
  {
    var cls := ParityClauses();
    assert Enc(3, 3) == {};
    if ClausesHold(cls, a) {
      assert Rechoose(a, Enc(3, 3), {}) == a;
    }
    if Projected(cls, 3, 3, a) {
      var s :| s <= Enc(3, 3) && ClausesHold(cls, Rechoose(a, Enc(3, 3), s));
      assert s == {};
      assert Rechoose(a, Enc(3, 3), s) == a;
    }
  }

  /** The parity diagram holds exactly when the parity clauses do. */
  lemma ParityMeaning(a: Assignment)
    ensures Eval(ParityRoot(), a) <==> Projected(ParityClauses(), 3, 3, a)
  {
    var cls := ParityClauses();
    var odd3, even3 := Branch(3, Leaf(false), Leaf(true)), Branch(3, Leaf(true), Leaf(false));
    assert Eval(odd3, a) <==> 3 in a;
    assert Eval(even3, a) <==> 3 !in a;
    assert Eval(ParityRoot(), a) == if 1 in a then Eval(Branch(2, even3, odd3), a) else Eval(Branch(2, odd3, even3), a);
    ParityProjected(a);
    CountThree(1, 2, 3, a);
    CountThree(-1, -2, 3, a);
    CountThree(-1, 2, -3, a);
    CountThree(1, -2, -3, a);
    assert ClausesHold(cls, a) <==>
      CountTrue(cls[0], a) >= 1 && CountTrue(cls[1], a) >= 1 && CountTrue(cls[2], a) >= 1 && CountTrue(cls[3], a) >= 1;
  }

  /** The decoder as written reads "at least one of x1, x2, x3" off the parity diagram. */
  lemma ParityEmitted()
    ensures Converter(ParityRoot(), 3).Some? && CheckedConverter(ParityRoot(), 3).None?
    ensures Emit(Converter(ParityRoot(), 3).value, 3) == [NewKlause([1, 2, 3], 1)]
  {
    ConverterAcceptsParity();
    assert Negate([-1, -2, -3]) == [1, 2, 3];
  }

  /**
   * The decoder as written can emit a klause that does not capture the clauses: the parity
   * diagram is a diagram of the parity clauses, the unchecked decoder accepts it (and the
   * checked one does not), and under x1 = x2 = true, x3 = false the emitted klause holds
   * while the clause -1 -2 3 does not.
   */
  lemma ParityNotCaptured()
    ensures Projects(ParityRoot(), ParityClauses(), 3, 3)
    ensures Converter(ParityRoot(), 3).Some? && CheckedConverter(ParityRoot(), 3).None?
    ensures !Captures(Emit(Converter(ParityRoot(), 3).value, 3), ParityClauses(), 3, 3)
  {
    forall a ensures Eval(ParityRoot(), a) <==> Projected(ParityClauses(), 3, 3, a) {
      ParityMeaning(a);
    }
    var odd3, even3 := Branch(3, Leaf(false), Leaf(true)), Branch(3, Leaf(true), Leaf(false));
    assert Support(odd3) == Support(even3) == {3};
    assert Support(ParityRoot()) == {1, 2, 3};
    ParityEmitted();
    ParityWitness();
  }

  /** x1 = x2 = true, x3 = false satisfies "at least one of x1, x2, x3" but not the parity clauses. */
  lemma ParityWitness()
    ensures AllSatisfied([NewKlause([1, 2, 3], 1)], {1, 2})
    ensures !Projected(ParityClauses(), 3, 3, {1, 2})
  {
    var a: Assignment := {1, 2};
    CountThree(1, 2, 3, a);
    CountThree(-1, -2, 3, a);
    ParityProjected(a);
    assert CountTrue(ParityClauses()[1], a) < 1;
  }

  /** A klause line: `k`, the bound, the literals and the closing 0. */
  function KlauseLine(k: Klause): string
  {
    "k " + ShowInt(k.bound) + " " + Closed(k.lits) + "\n"
  }

  /** A clause line: the literals and the closing 0. */
  function ClauseLine(c: Klause): string
  {
    Closed(c.lits) + "\n"
  }

  function KnfHeader(nvars: int, count: int): string
  {
    "p knf " + ShowInt(nvars) + " " + ShowInt(count) + "\n"
  }

  function KlauseText(ks: seq<Klause>): string
  {
    if ks == [] then "" else KlauseText(ks[..|ks| - 1]) + KlauseLine(ks[|ks| - 1])
  }

  /** The lines of the clauses not deleted. */
  function ClauseText(cs: seq<Klause>): string
  {
    if cs == [] then ""
    else ClauseText(cs[..|cs| - 1]) + (if cs[|cs| - 1].deleted then "" else ClauseLine(cs[|cs| - 1]))
  }

  /** write_knf_formula: the header, every klause, then every clause not deleted. */
  function KnfText(nvars: int, clauses: seq<Klause>, klauses: seq<Klause>): string
  {
    KnfHeader(nvars, |Kept(clauses)| + |klauses|) + KlauseText(klauses) + ClauseText(clauses)
  }

  function Newlines(s: string): nat
  {
    if s == [] then 0 else Newlines(s[..|s| - 1]) + (if s[|s| - 1] == '\n' then 1 else 0)
  }

  lemma {:induction false} NewlinesAppend(s: string, t: string)
    ensures Newlines(s + t) == Newlines(s) + Newlines(t)
    decreases |t|
  {
    if t == [] {
      assert s + t == s;
    } else {
      assert (s + t)[..|s + t| - 1] == s + t[..|t| - 1];
      NewlinesAppend(s, t[..|t| - 1]);
    }
  }

  predicate NoNewline(s: string) { forall i :: 0 <= i < |s| ==> s[i] != '\n' }

  lemma {:induction false} NoNewlineZero(s: string)
    requires NoNewline(s)
    ensures Newlines(s) == 0
  {
    if s != [] {
      NoNewlineZero(s[..|s| - 1]);
    }
  }

  /** Written literals never break a line. */
  lemma {:induction false} ShowLitsOneLine(lits: seq<int>)
    ensures NoNewline(Closed(lits))
    decreases |lits|
  {
    if lits != [] {
      ShowLitsOneLine(lits[1..]);
      var w := ShowInt(lits[0]);
      assert NoNewline(w) by {
        if lits[0] < 0 { assert w == "-" + ShowNat(-lits[0]); }
      }
      assert Closed(lits) == w + " " + Closed(lits[1..]);
    }
  }

  lemma OneLine(body: string, nl: string)
    requires NoNewline(body) && nl == "\n"
    ensures Newlines(body + nl) == 1
  {
    NoNewlineZero(body);
    NewlinesAppend(body, nl);
  }

  lemma ShowIntOneLine(x: int)
    ensures Newlines(ShowInt(x)) == 0
  {
    if x < 0 {
      assert ShowInt(x) == "-" + ShowNat(-x);
    }
    NoNewlineZero(ShowInt(x));
  }

  lemma KlauseLineOne(k: Klause)
    ensures Newlines(KlauseLine(k)) == 1
  {
    var w, c := ShowInt(k.bound), Closed(k.lits);
    ShowIntOneLine(k.bound);
    ShowLitsOneLine(k.lits);
    NoNewlineZero(c);
    assert Newlines("k ") == 0 && Newlines(" ") == 0 && Newlines("\n") == 1;
    NewlinesAppend("k ", w);
    NewlinesAppend("k " + w, " ");
    NewlinesAppend("k " + w + " ", c);
    NewlinesAppend("k " + w + " " + c, "\n");
  }

  lemma {:induction false} KlauseTextLines(ks: seq<Klause>)
    ensures Newlines(KlauseText(ks)) == |ks|
  {
    if ks != [] {
      KlauseTextLines(ks[..|ks| - 1]);
      KlauseLineOne(ks[|ks| - 1]);
      NewlinesAppend(KlauseText(ks[..|ks| - 1]), KlauseLine(ks[|ks| - 1]));
    }
  }

  lemma {:induction false} ClauseTextLines(cs: seq<Klause>)
    ensures Newlines(ClauseText(cs)) == |Kept(cs)|
  {
    if cs != [] {
      var c := cs[|cs| - 1];
      ClauseTextLines(cs[..|cs| - 1]);
      ShowLitsOneLine(c.lits);
      OneLine(Closed(c.lits), "\n");
      var tail := if c.deleted then "" else ClauseLine(c);
      NewlinesAppend(ClauseText(cs[..|cs| - 1]), tail);
    }
  }

  /** The header's count is the number of lines that follow it. */
  lemma KnfTextCounts(nvars: int, clauses: seq<Klause>, klauses: seq<Klause>)
    ensures var body := KlauseText(klauses) + ClauseText(clauses);
      KnfText(nvars, clauses, klauses) == KnfHeader(nvars, Newlines(body)) + body
  {
    KlauseTextLines(klauses);
    ClauseTextLines(clauses);
    NewlinesAppend(KlauseText(klauses), ClauseText(clauses));
  }

  /** A klause line after its `k `, followed by more text, as the pieces it is written from. */
  lemma KlauseLineBody(k: Klause, rest: string)
    ensures KlauseLine(k)[2..] + rest == ShowInt(k.bound) + (" " + (Closed(k.lits) + ("\n" + rest)))
  {
  }

  /** A klause line reads back, after its `k `, as its bound followed by its literals, up to the newline. */
  lemma KlauseLineReads(k: Klause, rest: string)
    requires NonZeroAll(k.lits)
    ensures var body := KlauseLine(k)[2..] + rest;
      IntegerValue(body) == k.bound &&
      LiteralsOf(SkipLineSpace(IntegerRest(body))) == k.lits &&
      LiteralsRest(SkipLineSpace(IntegerRest(body))) == "\n" + rest
  {
    var tail := "\n" + rest;
    KlauseLineBody(k, rest);
    ReadShowInt(k.bound, " " + (Closed(k.lits) + tail));
    ClosedStart(k.lits, tail);
    ReadShowLits(k.lits, tail);
  }

  /** A clause line reads back as its literals, up to the newline. */
  lemma ClauseLineReads(c: Klause, rest: string)
    requires NonZeroAll(c.lits)
    ensures LiteralsOf(ClauseLine(c) + rest) == c.lits && LiteralsRest(ClauseLine(c) + rest) == "\n" + rest
  {
    assert ClauseLine(c) + rest == Closed(c.lits) + ("\n" + rest);
    ReadShowLits(c.lits, "\n" + rest);
  }

  /** The klauses parse_cnf stores for the clauses it reads: each a new klause of bound 1. */
  function Added(ls: seq<seq<int>>): (r: seq<Klause>)
  {
    seq(|ls|, i requires 0 <= i < |ls| => NewKlause(ls[i], 1))
  }

  /** Storing the clauses of one more turn after those stored so far. */
  lemma AddedAppend(base: seq<Klause>, a: seq<seq<int>>, b: seq<seq<int>>)
    ensures base + Added(a + b) == (base + Added(a)) + Added(b)
  {
    assert Added(a + b) == Added(a) + Added(b);
  }

  /** The literal lists of klauses, in order. */
  function LitsOf(ks: seq<Klause>): (r: seq<seq<int>>)
    ensures |r| == |ks| && forall i :: 0 <= i < |ks| ==> r[i] == ks[i].lits
  {
    seq(|ks|, i requires 0 <= i < |ks| => ks[i].lits)
  }

  /** The clause part of write_knf_formula is the clause lines of the kept clauses. */
  lemma {:induction false} ClauseTextIsLines(cs: seq<Klause>)
    ensures ClauseText(cs) == CP.ClauseLines(LitsOf(Kept(cs)))
  {
    if cs != [] {
      var init, c := cs[..|cs| - 1], cs[|cs| - 1];
      ClauseTextIsLines(init);
      if !c.deleted {
        assert LitsOf(Kept(init) + [c]) == LitsOf(Kept(init)) + [c.lits];
        CP.ClauseLinesSnoc(LitsOf(Kept(init)), c.lits);
      } else {
        assert Kept(init) + [] == Kept(init);
      }
    }
  }

  /** The numbers of a written header, from the first of them. */
  lemma ReadHeaderNumbers(nvars: int, count: int, body: string, b: string)
    requires CP.Opens(body) && b == ShowInt(nvars) + (" " + (ShowInt(count) + ("\n" + body)))
    ensures IntegerValue(b) == nvars
    ensures var m := SkipSpace(IntegerRest(b)); IntegerValue(m) == count && SkipSpace(IntegerRest(m)) == body
  {
    var a := ShowInt(count) + ("\n" + body);
    ReadShowInt(nvars, " " + a);
    CP.ShowIntOpens(count, "\n" + body);
    CP.OpensPlain(a);
    assert (" " + a)[1..] == a;
    ReadShowInt(count, "\n" + body);
    assert ("\n" + body)[1..] == body;
    CP.OpensPlain(body);
  }

  /** A written header with what follows it, split after its "p knf ". */
  lemma HeaderText(nvars: int, count: int, body: string)
    ensures KnfHeader(nvars, count) + body == "p knf " + (ShowInt(nvars) + (" " + (ShowInt(count) + ("\n" + body))))
  {
  }

  /** The 'p' and the format word of a written header, before the numbers b. */
  lemma HeaderWord(s: string, b: string)
    requires s == "p knf " + b && CP.Opens(b)
    ensures s[0] == 'p' && SkipSpace(s) == s
    ensures var w := SkipSpace(s[1..]); CP.Spells(w, "cnf", "knf") && SkipSpace(w[3..]) == b
  {
    var w := "knf " + b;
    assert s[1..] == " " + w;
    assert (" " + w)[1..] == w;
    assert w[..3] == "knf" && w[3..] == " " + b;
    CP.OpensPlain(b);
    assert (" " + b)[1..] == b;
  }

  /** parse_cnf's header loop reads a written header back, whatever clause lines follow it. */
  lemma ReadKnfHeader(nvars: int, count: int, body: string)
    requires CP.Opens(body)
    ensures var s := KnfHeader(nvars, count) + body;
      SkipSpace(s) == s && CP.HeadOf(s) == CP.Found(nvars, count, body)
  {
    var b := ShowInt(nvars) + (" " + (ShowInt(count) + ("\n" + body)));
    HeaderText(nvars, count, body);
    CP.ShowIntOpens(nvars, " " + (ShowInt(count) + ("\n" + body)));
    HeaderWord(KnfHeader(nvars, count) + body, b);
    ReadHeaderNumbers(nvars, count, body, b);
  }

  /** Without klauses, the text is the header followed by the clause lines. */
  lemma NoKlausesText(nvars: int, clauses: seq<Klause>)
    ensures KnfText(nvars, clauses, []) == KnfHeader(nvars, |Kept(clauses)|) + ClauseText(clauses)
  {
    var h := KnfHeader(nvars, |Kept(clauses)|);
    assert KlauseText([]) == [];
    assert h + [] == h;
  }

  /**
   * parse_cnf reads back what write_knf_formula writes for a formula without klauses: the
   * variable count, the count of clauses kept, and the literals of the kept clauses in order.
   */
  lemma ReadWrittenCnf(nvars: int, clauses: seq<Klause>)
    requires forall i :: 0 <= i < |Kept(clauses)| ==> NonZeroAll(Kept(clauses)[i].lits)
    ensures CP.ReadCnf(KnfText(nvars, clauses, [])) == CP.Read(nvars, |Kept(clauses)|, LitsOf(Kept(clauses)))
  {
    var ls := LitsOf(Kept(clauses));
    var body := ClauseText(clauses);
    ClauseTextIsLines(clauses);
    CP.ClauseLinesOpen(ls);
    CP.ReadClauseLines(ls);
    NoKlausesText(nvars, clauses);
    ReadKnfHeader(nvars, |Kept(clauses)|, body);
  }

  /** The store of one extraction run. */
  class CnfExtractor {
    var nvars: int
    /** The clauses of the input formula. */
    var clauses: seq<Klause>
    /** Every klause generated so far. */
    var klauses: seq<Klause>
    /** The klauses of the current bdd_analyze call. */
    var analyzedKlauses: seq<Klause>
    var stats: Stats

    constructor (n: int, cs: seq<Klause>)
      ensures nvars == n && clauses == cs && klauses == [] && analyzedKlauses == [] && stats == InitialStats
    {
      nvars := n;
      clauses := cs;
      klauses := [];
      analyzedKlauses := [];
      stats := InitialStats;
    }

    /** The body loop of parse_cnf: every statement stored is appended as a clause of bound 1. */
    method ReadBody(text: string, pos: nat)
      requires pos <= |text|
      modifies this`clauses
      ensures clauses == old(clauses) + Added(CP.ClausesOf(text[pos..]))
    {
      var c := pos;
      ghost var read: seq<seq<int>> := [];
      while c < |text|
        invariant pos <= c <= |text| && CP.ClausesOf(text[pos..]) == read + CP.ClausesOf(text[c..])
        invariant clauses == old(clauses) + Added(read)
        decreases |text| - c
      {
        var added, lits, n := CP.BodyTurn(text, c);
        var more := if added then [lits] else [];
        CP.Regather(read, more, CP.ClausesOf(text[n..]));
        AddedAppend(old(clauses), read, more);
        clauses := clauses + Added(more);
        read, c := read + more, n;
      }
      assert CP.ClausesOf(text[c..]) == [] && read + [] == read;
    }

    /**
     * parse_cnf over the file's text: the header sets the variable count, and every statement
     * that is not a deletion or restoration is appended as a clause of bound 1, in file order.
     * It returns 0, or -1 when the word after 'p' is not cnf or knf, or 1 when there is no
     * header; in those two cases nothing is changed.
     */
    method ParseCnf(text: string) returns (status: int)
      modifies this`nvars, this`clauses
      ensures status == CP.Status(CP.ReadCnf(text))
      ensures CP.ReadCnf(text).Read? ==>
        nvars == CP.ReadCnf(text).nvars && clauses == old(clauses) + Added(CP.ReadCnf(text).added)
      ensures !CP.ReadCnf(text).Read? ==> nvars == old(nvars) && clauses == old(clauses)
    {
      var c := Scan.SkipWhitespace(text, 0);
      var h, next := CP.ScanHeader(text, c);
      if h.BadWord? {
        return -1;
      }
      if h.Missing? {
        return 1;
      }
      nvars := h.nvars;
      ReadBody(text, next);
      return 0;
    }

    predicate ValidIds(ids: seq<int>)
      reads this`clauses
    {
      forall j :: 0 <= j < |ids| ==> 0 <= ids[j] < |clauses|
    }

    method MarkDeletedClauses(ids: seq<int>)
      requires ValidIds(ids)
      modifies this`clauses
      ensures clauses == MarkDeleted(old(clauses), ids)
    {
      for j := 0 to |ids|
        invariant clauses == MarkDeleted(old(clauses), ids[..j])
      {
        assert ids[..j + 1] == ids[..j] + [ids[j]];
        MarkDeletedTwice(old(clauses), ids[..j], [ids[j]]);
        ghost var before := clauses;
        clauses := clauses[ids[j] := clauses[ids[j]].(deleted := true)];
        assert clauses == MarkDeleted(before, [ids[j]]);
      }
      assert ids[..|ids|] == ids;
    }

    /** add_klause: the klause is appended and the clauses it replaces are marked deleted. */
    method AddKlause(k: Klause, ids: seq<int>)
      requires ValidIds(ids)
      modifies this`klauses, this`clauses
      ensures klauses == old(klauses) + [k] && clauses == MarkDeleted(old(clauses), ids)
    {
      klauses := klauses + [k];
      MarkDeletedClauses(ids);
    }

    /** write_knf_formula: count the clauses kept, write the header, the klauses, then the kept clauses. */
    method WriteKnfFormula() returns (out: string)
      ensures out == KnfText(nvars, clauses, klauses)
    {
      var kept := CountKept(clauses);
      var header := KnfHeader(nvars, kept + |klauses|);
      var ktext := WriteKlauses(klauses);
      var ctext := WriteClauses(clauses);
      out := header + ktext + ctext;
    }

    /** The listed clauses are live, and each of their literals is a non-zero literal over vars. */
    predicate Candidates(ids: seq<int>, vars: seq<int>)
      reads this`clauses
    {
      ValidIds(ids) &&
      forall j :: 0 <= j < |ids| ==>
        !clauses[ids[j]].deleted &&
        forall i :: 0 <= i < |clauses[ids[j]].lits| ==> clauses[ids[j]].lits[i] != 0 && Abs(clauses[ids[j]].lits[i]) in vars
    }

    /**
     * validate_constraint: number the problem variables 1..|P| and the encoding variables
     * after them, rename the listed clauses, run bdd_analyze, and on success map every
     * analyzed klause back and commit it against the listed clauses; exactly one of the
     * success and failure counters goes up. bdd_analyze is taken with the checked decoder
     * (CheckedBddAnalyze), so that what is committed captures the listed clauses.
     */
    method ValidateConstraint(problem: seq<int>, encoding: seq<int>, ids: seq<int>, draws: seq<int>) returns (ok: bool)
      requires Candidates(ids, problem + encoding)
      requires |draws| >= Ord.StartCount && forall t | 0 <= t < |draws| :: 0 <= draws[t] <= Ord.RandMax
      modifies this
      ensures nvars == old(nvars)
      ensures ok <==> analyzedKlauses != []
      ensures ok ==> Captures(analyzedKlauses, Normalized(old(clauses), ids, Numbering(problem + encoding, 1)),
                              |problem|, |problem| + |encoding|)
      ensures ok ==> klauses == old(klauses) + MapBack(analyzedKlauses, Positions(problem + encoding, 1)) &&
                     clauses == MarkDeleted(old(clauses), ids) &&
                     stats == old(stats).(successes := old(stats).successes + 1)
      ensures !ok ==> klauses == old(klauses) && clauses == old(clauses) &&
                      stats == old(stats).(failures := old(stats).failures + 1)
      ensures Retired(old(clauses), clauses) && Implied(old(clauses), klauses[|old(klauses)|..])
    {
      ok := AnalyzeNormalized(problem, encoding, ids, draws);
      RecordOutcome(ok, problem + encoding, ids, |problem|);
    }

    /**
     * The start of validate_constraint: number the variables, rename the listed clauses and run
     * bdd_analyze on them; it succeeds exactly when klauses were analysed, and they capture the
     * renamed clauses.
     */
    method AnalyzeNormalized(problem: seq<int>, encoding: seq<int>, ids: seq<int>, draws: seq<int>) returns (ok: bool)
      requires Candidates(ids, problem + encoding)
      requires |draws| >= Ord.StartCount && forall t | 0 <= t < |draws| :: 0 <= draws[t] <= Ord.RandMax
      modifies this`analyzedKlauses
      ensures ok <==> analyzedKlauses != []
      ensures ok ==> Captures(analyzedKlauses, Normalized(clauses, ids, Numbering(problem + encoding, 1)),
                              |problem|, |problem| + |encoding|)
    {
      var vars := problem + encoding;
      var to, from := Normalization(problem, encoding);
      var normalized := NormalizeClauses(ids, to, vars);
      analyzedKlauses := [];
      var n := CheckedBddAnalyze(|vars|, |problem|, normalized, draws);
      assert analyzedKlauses[0..] == analyzedKlauses;
      ok := n > 0;
    }

    /**
     * The end of validate_constraint: on success the success counter goes up and every analyzed
     * klause is committed, and together they follow from the live clauses; on failure only the
     * failure counter goes up.
     */
    method RecordOutcome(ok: bool, vars: seq<int>, ids: seq<int>, ndata: int)
      requires Candidates(ids, vars) && (ok <==> analyzedKlauses != [])
      requires ok ==> Captures(analyzedKlauses, Normalized(clauses, ids, Numbering(vars, 1)), ndata, |vars|)
      modifies this`stats, this`klauses, this`clauses
      ensures ok ==> klauses == old(klauses) + MapBack(analyzedKlauses, Positions(vars, 1)) &&
                     clauses == MarkDeleted(old(clauses), ids) &&
                     stats == old(stats).(successes := old(stats).successes + 1)
      ensures !ok ==> klauses == old(klauses) && clauses == old(clauses) &&
                      stats == old(stats).(failures := old(stats).failures + 1)
      ensures Retired(old(clauses), clauses) && Implied(old(clauses), klauses[|old(klauses)|..])
    {
      if ok {
        stats := stats.(successes := stats.successes + 1);
        CommitSound(clauses, ids, vars, analyzedKlauses, ndata);
        var from := Positions(vars, 1);
        CommitAll(from, ids);
        assert klauses[|old(klauses)|..] == MapBack(analyzedKlauses, from);
        MarkDeletedRetires(old(clauses), ids);
      } else {
        stats := stats.(failures := stats.failures + 1);
        assert klauses[|klauses|..] == [];
      }
    }

    /** The renaming loop: each listed clause's literals, in order, through to. */
    method NormalizeClauses(ids: seq<int>, to: map<int, int>, vars: seq<int>) returns (normalized: seq<seq<int>>)
      requires Candidates(ids, vars) && to == Numbering(vars, 1)
      ensures normalized == Normalized(clauses, ids, to)
      ensures forall i, j :: 0 <= i < |normalized| && 0 <= j < |normalized[i]| ==> 1 <= Abs(normalized[i][j]) <= |vars|
    {
      normalized := [];
      for j := 0 to |ids|
        invariant normalized == Normalized(clauses, ids[..j], to)
      {
        var lits := RenameLits(clauses[ids[j]].lits, to);
        assert ids[..j + 1][..j] == ids[..j];
        normalized := normalized + [lits];
      }
      assert ids[..|ids|] == ids;
    }

    /** Every analyzed klause, mapped back through from, committed against the listed clauses. */
    method CommitAll(from: map<int, int>, ids: seq<int>)
      requires ValidIds(ids) && analyzedKlauses != []
      modifies this`klauses, this`clauses
      ensures klauses == old(klauses) + MapBack(analyzedKlauses, from)
      ensures clauses == MarkDeleted(old(clauses), ids)
    {
      for i := 0 to |analyzedKlauses|
        invariant klauses == old(klauses) + MapBack(analyzedKlauses[..i], from)
        invariant clauses == if i == 0 then old(clauses) else MarkDeleted(old(clauses), ids)
      {
        var k := analyzedKlauses[i];
        var lits := UnnormalizeLits(k.lits, from);
        MapBackStep(analyzedKlauses, i, from);
        MarkDeletedIdempotent(old(clauses), ids);
        AddKlause(k.(lits := lits), ids);
      }
      assert analyzedKlauses[..|analyzedKlauses|] == analyzedKlauses;
    }

    /**
     * bdd_analyze: reduce the clauses to a diagram of their projection on the data variables,
     * decode it with cardinality_converter as written, and emit at most two klauses into
     * analyzedKlauses; the count is returned, 0 for failure. draws stands for random() after
     * the fixed seed 123456. The emitted klauses are those of the decoded diagram; they
     * capture the projection whenever the checked decoder also accepts that diagram
     * (ParityNotCaptured shows a diagram where it does not).
     */
    method BddAnalyze(nvar: nat, ndata: nat, cls: seq<seq<int>>, draws: seq<int>) returns (n: int)
      requires ndata <= nvar
      requires forall i, j :: 0 <= i < |cls| && 0 <= j < |cls[i]| ==> 1 <= Abs(cls[i][j]) <= nvar
      requires |draws| >= Ord.StartCount && forall t | 0 <= t < |draws| :: 0 <= draws[t] <= Ord.RandMax
      modifies this`analyzedKlauses
      ensures 0 <= n <= 2 && |analyzedKlauses| == |old(analyzedKlauses)| + n
      ensures analyzedKlauses[..|old(analyzedKlauses)|] == old(analyzedKlauses)
      ensures n > 0 ==>
        exists root :: Projects(root, cls, ndata, nvar) && Converter(root, ndata).Some? &&
          analyzedKlauses[|old(analyzedKlauses)|..] == Emit(Converter(root, ndata).value, ndata) &&
          (CheckedConverter(root, ndata).Some? ==> Captures(analyzedKlauses[|old(analyzedKlauses)|..], cls, ndata, nvar))
    {
      var reduced, t := ReduceClauses(nvar, ndata, cls, draws);
      if !reduced {
        return 0;
      }
      var found, lits, lower, upper := t.CardinalityConverter();
      if !found {
        return 0;
      }
      n := EmitKlauses(lits, lower, upper, ndata);
      if n > 0 {
        assert analyzedKlauses[|old(analyzedKlauses)|..] == Emit(Converter(t.root, ndata).value, ndata);
        if CheckedConverter(t.root, ndata).Some? {
          ConverterAgrees(t.root, ndata);
          AnalyzeMeaning(t.root, cls, ndata, nvar);
        }
      }
    }

    /**
     * bdd_analyze with the checked decoder (CheckedCardinalityConverter): whatever it emits
     * captures the clauses projected on the data variables.
     */
    method CheckedBddAnalyze(nvar: nat, ndata: nat, cls: seq<seq<int>>, draws: seq<int>) returns (n: int)
      requires ndata <= nvar
      requires forall i, j :: 0 <= i < |cls| && 0 <= j < |cls[i]| ==> 1 <= Abs(cls[i][j]) <= nvar
      requires |draws| >= Ord.StartCount && forall t | 0 <= t < |draws| :: 0 <= draws[t] <= Ord.RandMax
      modifies this`analyzedKlauses
      ensures 0 <= n <= 2 && |analyzedKlauses| == |old(analyzedKlauses)| + n
      ensures analyzedKlauses[..|old(analyzedKlauses)|] == old(analyzedKlauses)
      ensures n > 0 ==>
        exists root :: Projects(root, cls, ndata, nvar) && CheckedConverter(root, ndata).Some? &&
          analyzedKlauses[|old(analyzedKlauses)|..] == Emit(CheckedConverter(root, ndata).value, ndata)
      ensures n > 0 ==> Captures(analyzedKlauses[|old(analyzedKlauses)|..], cls, ndata, nvar)
      ensures forall k | k in analyzedKlauses[|old(analyzedKlauses)|..] :: 1 <= k.bound < |k.lits|
    {
      var reduced, t := ReduceClauses(nvar, ndata, cls, draws);
      if !reduced {
        return 0;
      }
      var found, lits, lower, upper := t.CheckedCardinalityConverter();
      if !found {
        return 0;
      }
      n := EmitKlauses(lits, lower, upper, ndata);
      assert analyzedKlauses[|old(analyzedKlauses)|..] == Emit(CheckedConverter(t.root, ndata).value, ndata);
      AnalyzedBounds(t.root, ndata);
      if n > 0 {
        AnalyzeMeaning(t.root, cls, ndata, nvar);
      }
    }

    /**
     * The emission rules of bdd_analyze: the lower klause unless lower is 0 or forces every
     * literal, then the upper klause over the literals negated in place unless upper is
     * ndata or 0. Returns how many were appended.
     */
    method EmitKlauses(lits: seq<int>, lower: int, upper: int, ndata: int) returns (n: int)
      modifies this`analyzedKlauses
      ensures analyzedKlauses == old(analyzedKlauses) + Emit(Card(lits, lower, upper), ndata)
      ensures n == |Emit(Card(lits, lower, upper), ndata)| && 0 <= n <= 2
    {
      n := 0;
      if lower > 0 && lower != |lits| {
        analyzedKlauses := analyzedKlauses + [NewKlause(lits, lower)];
        n := n + 1;
      }
      if upper < ndata && upper != 0 {
        var neg := lits;
        for i := 0 to |neg|
          invariant |neg| == |lits|
          invariant forall j :: 0 <= j < i ==> neg[j] == -lits[j]
          invariant forall j :: i <= j < |neg| ==> neg[j] == lits[j]
        {
          neg := neg[i := -neg[i]];
        }
        assert neg == Negate(lits);
        analyzedKlauses := analyzedKlauses + [NewKlause(neg, ndata - upper)];
        n := n + 1;
      }
    }
  }

  /**
   * The two tables of validate_constraint: problem variables numbered from 1 in list order,
   * then the encoding variables, and the table back.
   */
  method Normalization(problem: seq<int>, encoding: seq<int>) returns (to: map<int, int>, from: map<int, int>)
    ensures to == Numbering(problem + encoding, 1) && from == Positions(problem + encoding, 1)
  {
    to, from := map[], map[];
    to, from := NumberFrom(problem, to, from, 1);
    to, from := NumberFrom(encoding, to, from, 1 + |problem|);
    NumberingAppend(problem, encoding);
  }

  /** One loop of the normalisation: the variables of vars take the numbers from first on. */
  method NumberFrom(vars: seq<int>, to0: map<int, int>, from0: map<int, int>, first: int) returns (to: map<int, int>, from: map<int, int>)
    ensures to == Renumbered(vars, to0, first) && from == Repositioned(vars, from0, first)
  {
    to, from := to0, from0;
    var nvar := first;
    for i := 0 to |vars|
      invariant nvar == first + i && to == Renumbered(vars[..i], to0, first) && from == Repositioned(vars[..i], from0, first)
    {
      assert vars[..i + 1][..i] == vars[..i];
      to := to[vars[i] := nvar];
      nvar := nvar + 1;
      from := from[nvar - 1 := vars[i]];
    }
    assert vars[..|vars|] == vars;
  }

  /** The inner loop of the renaming: each literal keeps its sign and takes the number of its variable. */
  method RenameLits(c: seq<int>, to: map<int, int>) returns (lits: seq<int>)
    requires forall i :: 0 <= i < |c| ==> Abs(c[i]) in to
    ensures lits == Rename(c, to)
  {
    lits := [];
    for i := 0 to |c|
      invariant lits == Rename(c[..i], to)
    {
      assert c[..i + 1][..i] == c[..i];
      lits := lits + [Sign(c[i]) * to[Abs(c[i])]];
    }
    assert c[..|c|] == c;
  }

  /** The literals of one analyzed klause mapped back in place. */
  method UnnormalizeLits(k: seq<int>, from: map<int, int>) returns (lits: seq<int>)
    ensures lits == Unnormalize(k, from)
  {
    lits := k;
    for j := 0 to |lits|
      invariant |lits| == |k|
      invariant forall p :: 0 <= p < j ==> lits[p] == Unnormalize(k, from)[p]
      invariant forall p :: j <= p < |lits| ==> lits[p] == k[p]
    {
      var lit := lits[j];
      lits := lits[j := Sign(lit) * if Abs(lit) in from then from[Abs(lit)] else 0];
    }
  }

  method CountKept(cs: seq<Klause>) returns (kept: int)
    ensures kept == |Kept(cs)|
  {
    kept := 0;
    for i := 0 to |cs|
      invariant kept == |Kept(cs[..i])|
    {
      assert cs[..i + 1][..i] == cs[..i];
      kept := kept + if cs[i].deleted then 0 else 1;
    }
    assert cs[..|cs|] == cs;
  }

  /** The klause loop of write_knf_formula. */
  method WriteKlauses(ks: seq<Klause>) returns (out: string)
    ensures out == KlauseText(ks)
  {
    out := "";
    for i := 0 to |ks|
      invariant out == KlauseText(ks[..i])
    {
      assert ks[..i + 1][..i] == ks[..i];
      out := out + KlauseLine(ks[i]);
    }
    assert ks[..|ks|] == ks;
  }

  /** The clause loop of write_knf_formula: deleted clauses are skipped. */
  method WriteClauses(cs: seq<Klause>) returns (out: string)
    ensures out == ClauseText(cs)
  {
    out := "";
    for i := 0 to |cs|
      invariant out == ClauseText(cs[..i])
    {
      assert cs[..i + 1][..i] == cs[..i];
      if cs[i].deleted {
        continue;
      }
      out := out + ClauseLine(cs[i]);
    }
    assert cs[..|cs|] == cs;
  }

  /** The variable order of bdd_analyze: an Ordering fed every clause, at verbosity 1. */
  method OrderClauses(nvar: nat, ndata: nat, cls: seq<seq<int>>, draws: seq<int>) returns (ordering: seq<int>)
    requires ndata <= nvar
    requires forall i, j :: 0 <= i < |cls| && 0 <= j < |cls[i]| ==> 1 <= Abs(cls[i][j]) <= nvar
    requires |draws| >= Ord.StartCount && forall t | 0 <= t < |draws| :: 0 <= draws[t] <= Ord.RandMax
    ensures |ordering| == nvar && Distinct(ordering) && forall v :: v in ordering <==> 1 <= v <= nvar
  {
    var o := new Ord.Ordering(nvar, ndata, 1);
    for i := 0 to |cls|
      invariant o.Indexed() && o.nvar == nvar && o.ndata == ndata
    {
      o.AddClause(cls[i]);
    }
    ordering := o.GenerateOrdering(draws);
  }

  /** The TermSet of bdd_analyze, at verbosity 0, holding one live term per clause, in order. */
  method ClauseTerms(nvar: nat, ndata: nat, cls: seq<seq<int>>, ordering: seq<int>) returns (t: TermSet)
    requires |ordering| == nvar
    requires forall i, j :: 0 <= i < |cls| && 0 <= j < |cls[i]| ==> 1 <= Abs(cls[i][j]) <= nvar
    ensures fresh(t) && t.Valid() && t.order == ordering && t.ndata == ndata && |t.terms| == |cls|
    ensures forall j :: 0 <= j < |cls| ==> t.terms[j].active && t.terms[j].fun == ClauseNode(cls[j], Ranks(ordering))
  {
    t := new TermSet(nvar, ndata, ordering, 0);
    for i := 0 to |cls|
      invariant fresh(t) && t.Valid() && t.order == ordering && t.ndata == ndata && |t.terms| == i
      invariant forall j :: 0 <= j < i ==> t.terms[j].active && t.terms[j].fun == ClauseNode(cls[j], Ranks(ordering))
    {
      assert NonZero(cls[i]);
      var tid := t.AddClause(cls[i]);
    }
  }

  /**
   * The front of bdd_analyze: the variable order and the clause terms built from the same
   * clause list, then bucket elimination. When the reduction gets through, the root left in
   * the term set is a diagram of the clauses projected on the data variables.
   */
  method ReduceClauses(nvar: nat, ndata: nat, cls: seq<seq<int>>, draws: seq<int>) returns (ok: bool, t: TermSet)
    requires ndata <= nvar
    requires forall i, j :: 0 <= i < |cls| && 0 <= j < |cls[i]| ==> 1 <= Abs(cls[i][j]) <= nvar
    requires |draws| >= Ord.StartCount && forall t | 0 <= t < |draws| :: 0 <= draws[t] <= Ord.RandMax
    ensures fresh(t) && t.Valid() && t.ndata == ndata
    ensures ok ==> Projects(t.root, cls, ndata, nvar)
  {
    var ordering := OrderClauses(nvar, ndata, cls, draws);
    t := ClauseTerms(nvar, ndata, cls, ordering);
    ghost var ts := t.terms;
    ok := t.BucketReduce();
    if ok {
      forall a ensures Eval(t.root, a) <==> Projected(cls, ndata, nvar, a) {
        ReducedMeaning(ts, ordering, cls, ndata, nvar, a);
      }
    }
  }
}

/**
 * Bucket elimination over decision diagrams (Extractor/cnf2knf/tbuddy/eval.cpp, Term and
 * TermSet): clauses over data variables 1..ndata and encoding variables ndata+1..nvar are
 * turned into diagrams, filed into buckets by their lowest encoding level, conjoined pairwise
 * and quantified bucket by bucket, leaving a diagram over the data variables only.
 */
module TermSets {
  import opened Lits
  import opened Bdd
  import opened Decoder

  /** A term: its diagram, its node count (0 once released) and whether it is still live. */
  datatype Term = Term(fun: Node, nodeCount: nat, active: bool)

  /** Minimum number of dead nodes before a collection is considered. */
  const CollectMin: int := 10000

  /**
   * The collection test: at least CollectMin dead nodes and a dead-to-total ratio of at least
   * 0.10, the ratio taken in floating point (x / 0 is +infinity for x > 0, negative for total < 0).
   */
  predicate GcDue(dead: int, total: int)
  {
    dead >= CollectMin && (if total == 0 then true else if total > 0 then 10 * dead >= total else false)
  }

  /** The counters after check_gc: a collection subtracts the dead nodes from the total and clears them. */
  function GcStep(dead: int, total: int): (int, int)
  {
    if GcDue(dead, total) then (0, total - dead) else (dead, total)
  }

  /** Level of a variable in the order, counted from 1 (its first occurrence); |order| + 1 when absent. */
  function LevelOf(order: seq<int>, v: int): (r: nat)
    ensures 1 <= r <= |order| + 1
    ensures r <= |order| ==> order[r - 1] == v
    ensures forall i :: 0 <= i < r - 1 ==> order[i] != v
  {
    if order == [] then 1
    else if order[0] == v then 1
    else 1 + LevelOf(order[1..], v)
  }

  function Ranks(order: seq<int>): map<int, int>
  {
    map v | v in order :: LevelOf(order, v)
  }

  /** An encoding variable at level l (1-based) that occurs in sup. */
  predicate EncAt(order: seq<int>, ndata: int, sup: set<int>, l: int)
    requires 1 <= l <= |order|
  {
    order[l - 1] > ndata && order[l - 1] in sup
  }

  /** The lowest level, from l on, that holds an encoding variable of sup; 0 when there is none. */
  function EncLevel(order: seq<int>, ndata: int, sup: set<int>, l: nat): (r: nat)
    requires 1 <= l <= |order| + 1
    ensures r == 0 || l <= r <= |order|
    ensures r != 0 ==> EncAt(order, ndata, sup, r)
    ensures forall l' :: l <= l' <= |order| && (r == 0 || l' < r) ==> !EncAt(order, ndata, sup, l')
    decreases |order| + 1 - l
  {
    if l > |order| then 0
    else if EncAt(order, ndata, sup, l) then l
    else EncLevel(order, ndata, sup, l + 1)
  }

  /** The bucket of a diagram: the level of its uppermost encoding variable, 0 if it has none. */
  function BucketOf(order: seq<int>, ndata: int, f: Node): nat
  {
    EncLevel(order, ndata, Support(f), 1)
  }

  /** Conjunction of the diagrams of the live terms. */
  function ConjTerms(ts: seq<Term>, lv: map<int, int>): Node
  {
    if ts == [] then Leaf(true)
    else
      var g := ConjTerms(ts[..|ts| - 1], lv);
      if ts[|ts| - 1].active then Apply(And, g, ts[|ts| - 1].fun, lv) else g
  }

  /** Quantify, in order, every encoding variable (one above ndata) of vars. */
  function QuantifyEnc(f: Node, vars: seq<int>, ndata: int, lv: map<int, int>): Node
  {
    if vars == [] then f
    else
      var g := QuantifyEnc(f, vars[..|vars| - 1], ndata, lv);
      if vars[|vars| - 1] > ndata then Exist(g, vars[|vars| - 1], lv) else g
  }

  /** What bucket elimination computes: the live terms conjoined, every encoding variable of the order quantified. */
  function Reduced(ts: seq<Term>, order: seq<int>, ndata: int): Node
  {
    QuantifyEnc(ConjTerms(ts, Ranks(order)), order, ndata, Ranks(order))
  }

  function EncSet(vars: seq<int>, ndata: int): set<int>
  {
    set v | v in vars && v > ndata
  }

  lemma {:induction false} EvalConjTerms(ts: seq<Term>, lv: map<int, int>, a: Assignment)
    ensures Eval(ConjTerms(ts, lv), a) <==> forall i :: 0 <= i < |ts| && ts[i].active ==> Eval(ts[i].fun, a)
  {
    if ts != [] {
      var init := ts[..|ts| - 1];
      EvalConjTerms(init, lv, a);
      if ts[|ts| - 1].active {
        EvalApply(And, ConjTerms(init, lv), ts[|ts| - 1].fun, lv, a);
      }
      assert forall i :: 0 <= i < |init| ==> init[i] == ts[i];
    }
  }

  /**
   * Quantifying the encoding variables of vars keeps the assignments that some choice of
   * values for those variables extends to a model of f.
   */
  lemma {:induction false} EvalQuantifyEnc(f: Node, vars: seq<int>, ndata: int, lv: map<int, int>, a: Assignment)
    ensures Eval(QuantifyEnc(f, vars, ndata, lv), a) <==>
      exists s :: s <= EncSet(vars, ndata) && Eval(f, (a - EncSet(vars, ndata)) + s)
  {
    var e := EncSet(vars, ndata);
    if vars == [] {
      assert e == {};
      if Eval(f, a) { assert (a - e) + {} == a; }
      if exists s :: s <= e && Eval(f, (a - e) + s) {
        var s :| s <= e && Eval(f, (a - e) + s);
        assert (a - e) + s == a;
      }
    } else {
      var init := vars[..|vars| - 1];
      var x := vars[|vars| - 1];
      var e0 := EncSet(init, ndata);
      var g := QuantifyEnc(f, init, ndata, lv);
      assert vars == init + [x];
      if x <= ndata {
        assert e == e0;
        EvalQuantifyEnc(f, init, ndata, lv, a);
      } else {
        assert e == e0 + {x};
        EvalExist(g, x, lv, a);
        EvalQuantifyEnc(f, init, ndata, lv, a - {x});
        EvalQuantifyEnc(f, init, ndata, lv, a + {x});
        if Eval(QuantifyEnc(f, vars, ndata, lv), a) {
          if Eval(g, a - {x}) {
            var s :| s <= e0 && Eval(f, ((a - {x}) - e0) + s);
            var s' := if x in e0 then s else s;
            assert ((a - {x}) - e0) + s == (a - e) + s';
          } else {
            var s :| s <= e0 && Eval(f, ((a + {x}) - e0) + s);
            var s' := if x in e0 then s else s + {x};
            assert ((a + {x}) - e0) + s == (a - e) + s';
          }
        }
        if exists s :: s <= e && Eval(f, (a - e) + s) {
          var s :| s <= e && Eval(f, (a - e) + s);
          if x in e0 {
            assert ((a - {x}) - e0) + s == (a - e) + s;
          } else if x in s {
            assert ((a + {x}) - e0) + (s - {x}) == (a - e) + s;
          } else {
            assert ((a - {x}) - e0) + s == (a - e) + s;
          }
        }
      }
    }
  }

  /** Quantification of a variable that the function ignores changes nothing. */
  lemma ExistIgnored(spec: Node, x: int, lv: map<int, int>, a: Assignment)
    requires Eval(spec, a - {x}) == Eval(spec, a) && Eval(spec, a + {x}) == Eval(spec, a)
    ensures Eval(Exist(spec, x, lv), a) == Eval(spec, a)
  {
    EvalExist(spec, x, lv, a);
  }

  /** No encoding variable of a diagram filed at level c >= 1 sits below level c; at level 0, none at all. */
  lemma BucketOfMeaning(order: seq<int>, ndata: int, f: Node, x: int)
    requires x > ndata && x in order && x in Support(f)
    ensures BucketOf(order, ndata, f) != 0 && BucketOf(order, ndata, f) <= LevelOf(order, x)
  {
    var l := LevelOf(order, x);
    assert EncAt(order, ndata, Support(f), l);
  }

  /** The filing level of a conjunction or quantification is not below those of its inputs. */
  lemma BucketOfShrink(order: seq<int>, ndata: int, f: Node, g: Node, b: nat)
    requires Support(g) <= Support(f)
    requires 1 <= b <= |order| + 1
    requires forall l :: 1 <= l < b ==> !EncAt(order, ndata, Support(f), l)
    ensures BucketOf(order, ndata, g) == 0 || BucketOf(order, ndata, g) >= b
  {
    var r := BucketOf(order, ndata, g);
    if r != 0 && r < b {
      assert EncAt(order, ndata, Support(f), r);
    }
  }

  /** The support as a list, in the order of a depth-first walk. */
  function SupportList(n: Node): (r: seq<int>)
    ensures forall v :: v in Support(n) <==> v in r
  {
    match n
    case Leaf(_) => []
    case Branch(v, lo, hi) => [v] + SupportList(lo) + SupportList(hi)
  }

  /** A term released by deactivate: it is no longer live and its nodes are counted as dead. */
  function Release(ts: seq<Term>, id: int): (r: seq<Term>)
    requires 1 <= id <= |ts|
    ensures |r| == |ts| && r[id - 1] == ts[id - 1].(nodeCount := 0, active := false)
    ensures forall i :: 0 <= i < |ts| && i != id - 1 ==> r[i] == ts[i]
  {
    ts[id - 1 := ts[id - 1].(nodeCount := 0, active := false)]
  }

  /** Every diagram of ts is over positive variables, as the package numbers them. */
  predicate PositiveTerms(ts: seq<Term>)
  {
    forall i :: 0 <= i < |ts| ==> PositiveSupport(ts[i].fun)
  }

  /** A clause of non-zero literals has a diagram over their (positive) variables. */
  lemma {:induction false} ClauseNodePositive(lits: seq<int>, lv: map<int, int>)
    requires NonZero(lits)
    ensures PositiveSupport(ClauseNode(lits, lv))
  {
    if lits != [] {
      var init := lits[..|lits| - 1];
      ClauseNodePositive(init, lv);
      SupportApply(Or, ClauseNode(init, lv), LitNode(lits[|lits| - 1]), lv);
    }
  }

  /** Every term of ts keeps its diagram in ts'. */
  predicate SameFuns(ts: seq<Term>, ts': seq<Term>)
  {
    |ts| <= |ts'| && forall i :: 0 <= i < |ts| ==> ts'[i].fun == ts[i].fun
  }

  /**
   * The bucket processed after bucket b when the buckets are 0..n: levels 1..n in turn, then
   * level 0 last (bxlevel % (nvar + 1) for bxlevel = 1..nvar + 1).
   */
  function NextBucket(b: int, n: int): int
  {
    if b < n then b + 1 else 0
  }

  /** Entry k of bucket c is still to be processed when the scan is at entry idx of bucket b; bucket 0 comes last. */
  predicate Pending(buckets: seq<seq<int>>, b: int, idx: int, c: int, k: int)
  {
    0 <= c < |buckets| && 0 <= k < |buckets[c]| &&
    ((c == b && k >= idx) || (b >= 1 && (c > b || c == 0)))
  }

  /** Each pending entry names a live term filed in the bucket of its uppermost encoding variable. */
  ghost predicate Filed(ts: seq<Term>, order: seq<int>, ndata: int, buckets: seq<seq<int>>, b: int, idx: int)
  {
    forall c, k :: Pending(buckets, b, idx, c, k) ==>
      1 <= buckets[c][k] <= |ts| && ts[buckets[c][k] - 1].active &&
      BucketOf(order, ndata, ts[buckets[c][k] - 1].fun) == c
  }

  /** Pending entries are distinct: the owner map sends each of them back to its own position. */
  ghost predicate Owned(owner: map<int, (int, int)>, buckets: seq<seq<int>>, b: int, idx: int)
  {
    forall c, k :: Pending(buckets, b, idx, c, k) ==> buckets[c][k] in owner && owner[buckets[c][k]] == (c, k)
  }

  /** Every pending term holds under a. */
  ghost predicate HoldsAll(ts: seq<Term>, buckets: seq<seq<int>>, b: int, idx: int, a: Assignment)
  {
    forall c, k :: Pending(buckets, b, idx, c, k) && 1 <= buckets[c][k] <= |ts| ==> Eval(ts[buckets[c][k] - 1].fun, a)
  }

  /** The pending terms together mean spec. */
  ghost predicate Means(ts: seq<Term>, buckets: seq<seq<int>>, b: int, idx: int, spec: Node)
  {
    forall a :: HoldsAll(ts, buckets, b, idx, a) <==> Eval(spec, a)
  }

  lemma HoldsStable(ts: seq<Term>, ts': seq<Term>, buckets: seq<seq<int>>, b: int, idx: int, a: Assignment)
    requires SameFuns(ts, ts')
    requires forall c, k :: Pending(buckets, b, idx, c, k) ==> 1 <= buckets[c][k] <= |ts|
    ensures HoldsAll(ts', buckets, b, idx, a) == HoldsAll(ts, buckets, b, idx, a)
  {
  }

  lemma HoldsPop(ts: seq<Term>, buckets: seq<seq<int>>, b: int, idx: int, a: Assignment)
    requires 0 <= b < |buckets| && 0 <= idx < |buckets[b]| && 1 <= buckets[b][idx] <= |ts|
    ensures HoldsAll(ts, buckets, b, idx, a) ==
      (Eval(ts[buckets[b][idx] - 1].fun, a) && HoldsAll(ts, buckets, b, idx + 1, a))
  {
    assert Pending(buckets, b, idx, b, idx);
    if HoldsAll(ts, buckets, b, idx + 1, a) && Eval(ts[buckets[b][idx] - 1].fun, a) {
      forall c, k | Pending(buckets, b, idx, c, k) && 1 <= buckets[c][k] <= |ts|
        ensures Eval(ts[buckets[c][k] - 1].fun, a)
      {
        if !(c == b && k == idx) { assert Pending(buckets, b, idx + 1, c, k); }
      }
    }
    if HoldsAll(ts, buckets, b, idx, a) {
      forall c, k | Pending(buckets, b, idx + 1, c, k) && 1 <= buckets[c][k] <= |ts|
        ensures Eval(ts[buckets[c][k] - 1].fun, a)
      {
        assert Pending(buckets, b, idx, c, k);
      }
    }
  }

  /** Position lev, |buckets[lev]| will be pending: a bucket not yet processed, or the current one. */
  predicate Ahead(b: int, lev: int)
  {
    lev == b || (b >= 1 && (lev > b || lev == 0))
  }

  lemma PendingPush(buckets: seq<seq<int>>, b: int, idx: int, lev: int, t: int, c: int, k: int)
    requires 0 <= lev < |buckets| && 0 <= b < |buckets| && idx <= |buckets[b]| && Ahead(b, lev)
    ensures var nb := buckets[lev := buckets[lev] + [t]];
      Pending(nb, b, idx, c, k) <==> Pending(buckets, b, idx, c, k) || (c == lev && k == |buckets[lev]|)
    ensures var nb := buckets[lev := buckets[lev] + [t]];
      Pending(buckets, b, idx, c, k) ==> nb[c][k] == buckets[c][k]
  {
  }

  lemma HoldsPush(ts: seq<Term>, buckets: seq<seq<int>>, b: int, idx: int, lev: int, t: int, a: Assignment)
    requires 0 <= lev < |buckets| && 0 <= b < |buckets| && idx <= |buckets[b]| && Ahead(b, lev)
    requires 1 <= t <= |ts|
    ensures HoldsAll(ts, buckets[lev := buckets[lev] + [t]], b, idx, a) ==
      (HoldsAll(ts, buckets, b, idx, a) && Eval(ts[t - 1].fun, a))
  {
    var nb := buckets[lev := buckets[lev] + [t]];
    PendingPush(buckets, b, idx, lev, t, lev, |buckets[lev]|);
    if HoldsAll(ts, nb, b, idx, a) {
      forall c, k | Pending(buckets, b, idx, c, k) && 1 <= buckets[c][k] <= |ts|
        ensures Eval(ts[buckets[c][k] - 1].fun, a)
      {
        PendingPush(buckets, b, idx, lev, t, c, k);
      }
    }
    if HoldsAll(ts, buckets, b, idx, a) && Eval(ts[t - 1].fun, a) {
      forall c, k | Pending(nb, b, idx, c, k) && 1 <= nb[c][k] <= |ts|
        ensures Eval(ts[nb[c][k] - 1].fun, a)
      {
        PendingPush(buckets, b, idx, lev, t, c, k);
      }
    }
  }

  lemma FiledPush(ts: seq<Term>, order: seq<int>, ndata: int, owner: map<int, (int, int)>,
                  buckets: seq<seq<int>>, b: int, idx: int, lev: int, t: int)
    requires 0 <= lev < |buckets| && 0 <= b < |buckets| && idx <= |buckets[b]| && Ahead(b, lev)
    requires Filed(ts, order, ndata, buckets, b, idx) && Owned(owner, buckets, b, idx)
    requires 1 <= t <= |ts| && ts[t - 1].active && BucketOf(order, ndata, ts[t - 1].fun) == lev
    requires forall c, k :: Pending(buckets, b, idx, c, k) ==> buckets[c][k] != t
    ensures var nb := buckets[lev := buckets[lev] + [t]];
      Filed(ts, order, ndata, nb, b, idx) && Owned(owner[t := (lev, |buckets[lev]|)], nb, b, idx)
  {
    var nb := buckets[lev := buckets[lev] + [t]];
    forall c, k | Pending(nb, b, idx, c, k)
      ensures 1 <= nb[c][k] <= |ts| && ts[nb[c][k] - 1].active && BucketOf(order, ndata, ts[nb[c][k] - 1].fun) == c
      ensures nb[c][k] in owner[t := (lev, |buckets[lev]|)] && owner[t := (lev, |buckets[lev]|)][nb[c][k]] == (c, k)
    {
      PendingPush(buckets, b, idx, lev, t, c, k);
    }
  }

  /** At the end of bucket b >= 1, the pending entries are those of the start of the next bucket (0 after nvar). */
  lemma PendingNext(buckets: seq<seq<int>>, b: int, c: int, k: int)
    requires 1 <= b < |buckets|
    ensures var b' := if b + 1 < |buckets| then b + 1 else 0;
      Pending(buckets, b, |buckets[b]|, c, k) <==> Pending(buckets, b', 0, c, k)
  {
  }

  /** The pending terms of buckets after b (and bucket 0) ignore the variable of level b. */
  lemma HoldsIgnores(ts: seq<Term>, order: seq<int>, ndata: int, buckets: seq<seq<int>>, b: int, a: Assignment)
    requires 1 <= b <= |order| && |buckets| == |order| + 1 && order[b - 1] > ndata
    requires Filed(ts, order, ndata, buckets, b, |buckets[b]|)
    ensures var x := order[b - 1]; var h := HoldsAll(ts, buckets, b, |buckets[b]|, a);
      HoldsAll(ts, buckets, b, |buckets[b]|, a - {x}) == h && HoldsAll(ts, buckets, b, |buckets[b]|, a + {x}) == h
  {
    var x := order[b - 1];
    var idx := |buckets[b]|;
    assert LevelOf(order, x) <= b;
    forall c, k | Pending(buckets, b, idx, c, k)
      ensures Eval(ts[buckets[c][k] - 1].fun, a - {x}) == Eval(ts[buckets[c][k] - 1].fun, a)
      ensures Eval(ts[buckets[c][k] - 1].fun, a + {x}) == Eval(ts[buckets[c][k] - 1].fun, a)
    {
      var f := ts[buckets[c][k] - 1].fun;
      if x in Support(f) {
        BucketOfMeaning(order, ndata, f, x);
      }
      EvalSupport(f, a - {x}, a);
      EvalSupport(f, a + {x}, a);
    }
  }

  /** A term filed at level 0 has no encoding variable of the order, nor has what is built from it. */
  lemma ConjLevel(order: seq<int>, ndata: int, f1: Node, f2: Node, g: Node, b: nat)
    requires b <= |order| && BucketOf(order, ndata, f1) == b && BucketOf(order, ndata, f2) == b
    requires Support(g) <= Support(f1) + Support(f2)
    ensures Ahead(b, BucketOf(order, ndata, g))
  {
    var r := BucketOf(order, ndata, g);
    if r != 0 {
      assert EncAt(order, ndata, Support(g), r);
      assert EncAt(order, ndata, Support(f1), r) || EncAt(order, ndata, Support(f2), r);
    }
  }

  /** Quantifying the variable of level b from a term filed at b leaves a term filed after b (or at 0). */
  lemma QuantLevel(order: seq<int>, ndata: int, f: Node, g: Node, b: nat)
    requires 1 <= b <= |order| && BucketOf(order, ndata, f) == b
    requires Support(g) <= Support(f) - {order[b - 1]}
    ensures BucketOf(order, ndata, g) == 0 || BucketOf(order, ndata, g) > b
  {
    var r := BucketOf(order, ndata, g);
    if r != 0 {
      assert EncAt(order, ndata, Support(g), r);
      assert EncAt(order, ndata, Support(f), r);
    }
  }

  /** A formula with no model stays without one under quantification. */
  lemma UnsatQuantify(f: Node, pre: seq<int>, vars: seq<int>, ndata: int, lv: map<int, int>)
    requires forall a :: !Eval(QuantifyEnc(f, pre, ndata, lv), a)
    ensures forall a :: !Eval(QuantifyEnc(f, vars, ndata, lv), a)
  {
    forall a ensures !Eval(f, a) {
      EvalQuantifyEnc(f, pre, ndata, lv, a);
      var e := EncSet(pre, ndata);
      assert (a - e) + (a * e) == a;
    }
    forall a ensures !Eval(QuantifyEnc(f, vars, ndata, lv), a) {
      EvalQuantifyEnc(f, vars, ndata, lv, a);
    }
  }

  /** Filed, Owned and Means together, for a scan at entry idx of bucket b. */
  ghost predicate Scan(ts: seq<Term>, order: seq<int>, ndata: int, owner: map<int, (int, int)>,
                       buckets: seq<seq<int>>, b: int, idx: int, spec: Node)
  {
    |buckets| == |order| + 1 && 0 <= b <= |order| && 0 <= idx <= |buckets[b]| &&
    Filed(ts, order, ndata, buckets, b, idx) && Owned(owner, buckets, b, idx) && Means(ts, buckets, b, idx, spec)
  }

  /**
   * Moving the scan n entries on while the terms of those entries are released (and new
   * terms appended) keeps the remaining entries filed and distinct.
   */
  lemma FiledAdvance(ts: seq<Term>, ts': seq<Term>, order: seq<int>, ndata: int, owner: map<int, (int, int)>,
                     buckets: seq<seq<int>>, b: int, idx: int, n: nat, released: set<int>)
    requires 0 <= b < |buckets| && 0 <= idx && idx + n <= |buckets[b]|
    requires Filed(ts, order, ndata, buckets, b, idx) && Owned(owner, buckets, b, idx)
    requires forall id :: id in released ==> id in owner && owner[id].0 == b && idx <= owner[id].1 < idx + n
    requires |ts| <= |ts'| && forall i :: 0 <= i < |ts| && (i + 1) !in released ==> ts'[i] == ts[i]
    ensures Filed(ts', order, ndata, buckets, b, idx + n) && Owned(owner, buckets, b, idx + n)
    ensures forall c, k :: Pending(buckets, b, idx + n, c, k) ==> 1 <= buckets[c][k] <= |ts| && buckets[c][k] !in released
  {
    forall c, k | Pending(buckets, b, idx + n, c, k)
      ensures 1 <= buckets[c][k] <= |ts| && buckets[c][k] !in released && ts'[buckets[c][k] - 1] == ts[buckets[c][k] - 1]
    {
      assert Pending(buckets, b, idx, c, k);
    }
  }

  lemma ConjMeansAt(ts: seq<Term>, ts': seq<Term>, buckets: seq<seq<int>>, b: int, idx: int,
                    level: int, tid: int, lv: map<int, int>, a: Assignment)
    requires 0 <= b < |buckets| && 0 <= idx && idx + 1 < |buckets[b]| && 0 <= level < |buckets| && Ahead(b, level)
    requires 1 <= buckets[b][idx] <= |ts| && 1 <= buckets[b][idx + 1] <= |ts|
    requires forall c, k :: Pending(buckets, b, idx + 2, c, k) ==> 1 <= buckets[c][k] <= |ts|
    requires SameFuns(ts, ts') && 1 <= tid <= |ts'|
    requires ts'[tid - 1].fun == Apply(And, ts[buckets[b][idx] - 1].fun, ts[buckets[b][idx + 1] - 1].fun, lv)
    ensures HoldsAll(ts', buckets[level := buckets[level] + [tid]], b, idx + 2, a) == HoldsAll(ts, buckets, b, idx, a)
  {
    HoldsPush(ts', buckets, b, idx + 2, level, tid, a);
    HoldsStable(ts, ts', buckets, b, idx + 2, a);
    HoldsPop(ts, buckets, b, idx, a);
    HoldsPop(ts, buckets, b, idx + 1, a);
    EvalApply(And, ts[buckets[b][idx] - 1].fun, ts[buckets[b][idx + 1] - 1].fun, lv, a);
  }

  /** The two entries conjoined next are distinct live terms. */
  lemma ConjInputs(ts: seq<Term>, order: seq<int>, ndata: int, owner: map<int, (int, int)>,
                   buckets: seq<seq<int>>, b: int, idx: int, spec: Node)
    requires |buckets| == |order| + 1 && 0 <= b <= |order| && 0 <= idx && idx + 1 < |buckets[b]|
    requires Scan(ts, order, ndata, owner, buckets, b, idx, spec)
    ensures var t1, t2 := buckets[b][idx], buckets[b][idx + 1];
      1 <= t1 <= |ts| && 1 <= t2 <= |ts| && t1 != t2 && ts[t1 - 1].active && ts[t2 - 1].active &&
      BucketOf(order, ndata, ts[t1 - 1].fun) == b && BucketOf(order, ndata, ts[t2 - 1].fun) == b &&
      owner[t1] == (b, idx) && owner[t2] == (b, idx + 1)
  {
    assert Pending(buckets, b, idx, b, idx) && Pending(buckets, b, idx, b, idx + 1);
  }

  lemma ConjScan(ts: seq<Term>, ts': seq<Term>, order: seq<int>, ndata: int, owner: map<int, (int, int)>,
                 buckets: seq<seq<int>>, b: int, idx: int, spec: Node, lv: map<int, int>, level: int,
                 t1: int, t2: int, f: Node)
    requires |buckets| == |order| + 1 && 0 <= b <= |order| && 0 <= idx && idx + 1 < |buckets[b]|
    requires Scan(ts, order, ndata, owner, buckets, b, idx, spec)
    requires t1 == buckets[b][idx] && t2 == buckets[b][idx + 1]
    requires 1 <= t1 <= |ts| && 1 <= t2 <= |ts| && owner[t1] == (b, idx) && owner[t2] == (b, idx + 1)
    requires f == Apply(And, ts[t1 - 1].fun, ts[t2 - 1].fun, lv)
    requires ts' == Release(Release(ts, t1), t2) + [Term(f, NodeCount(f), true)]
    requires level == BucketOf(order, ndata, f)
    requires Ahead(b, level) && 0 <= level < |buckets|
    ensures Scan(ts', order, ndata, owner[|ts'| := (level, |buckets[level]|)], buckets[level := buckets[level] + [|ts'|]], b, idx + 2, spec)
  {
    var tid := |ts'|;
    FiledAdvance(ts, ts', order, ndata, owner, buckets, b, idx, 2, {t1, t2});
    FiledPush(ts', order, ndata, owner, buckets, b, idx + 2, level, tid);
    var nb := buckets[level := buckets[level] + [tid]];
    ConjMeans(ts, ts', buckets, b, idx, level, tid, lv, spec);
  }

  /** Means carries over from before the conjunction to after it. */
  lemma ConjMeans(ts: seq<Term>, ts': seq<Term>, buckets: seq<seq<int>>, b: int, idx: int,
                  level: int, tid: int, lv: map<int, int>, spec: Node)
    requires 0 <= b < |buckets| && 0 <= idx && idx + 1 < |buckets[b]| && 0 <= level < |buckets| && Ahead(b, level)
    requires 1 <= buckets[b][idx] <= |ts| && 1 <= buckets[b][idx + 1] <= |ts|
    requires forall c, k :: Pending(buckets, b, idx + 2, c, k) ==> 1 <= buckets[c][k] <= |ts|
    requires SameFuns(ts, ts') && 1 <= tid <= |ts'|
    requires ts'[tid - 1].fun == Apply(And, ts[buckets[b][idx] - 1].fun, ts[buckets[b][idx + 1] - 1].fun, lv)
    requires Means(ts, buckets, b, idx, spec)
    ensures Means(ts', buckets[level := buckets[level] + [tid]], b, idx + 2, spec)
  {
    forall a ensures HoldsAll(ts', buckets[level := buckets[level] + [tid]], b, idx + 2, a) <==> Eval(spec, a) {
      ConjMeansAt(ts, ts', buckets, b, idx, level, tid, lv, a);
    }
  }

  lemma ConjFalse(ts': seq<Term>, buckets: seq<seq<int>>, b: int, idx: int, spec: Node, level: int)
    requires 0 <= b < |buckets| && 0 <= idx <= |buckets[b]| && 0 <= level < |buckets| && Ahead(b, level)
    requires Means(ts', buckets[level := buckets[level] + [|ts'|]], b, idx, spec)
    requires |ts'| >= 1 && ts'[|ts'| - 1].fun == Leaf(false)
    ensures forall a :: !Eval(spec, a)
  {
    forall a ensures !Eval(spec, a) {
      HoldsPush(ts', buckets, b, idx, level, |ts'|, a);
    }
  }

  /** Conjoining the next two entries of bucket b and filing the result keeps the scan invariant. */
  lemma ConjPreserves(ts: seq<Term>, order: seq<int>, ndata: int, owner: map<int, (int, int)>,
                      buckets: seq<seq<int>>, b: int, idx: int, spec: Node, lv: map<int, int>)
    requires |buckets| == |order| + 1 && 0 <= b <= |order| && 0 <= idx && idx + 1 < |buckets[b]|
    requires Scan(ts, order, ndata, owner, buckets, b, idx, spec)
    ensures var t1, t2 := buckets[b][idx], buckets[b][idx + 1];
      1 <= t1 <= |ts| && 1 <= t2 <= |ts| && t1 != t2 && ts[t1 - 1].active && ts[t2 - 1].active
    ensures var t1, t2 := buckets[b][idx], buckets[b][idx + 1];
      var f := Apply(And, ts[t1 - 1].fun, ts[t2 - 1].fun, lv);
      var ts' := Release(Release(ts, t1), t2) + [Term(f, NodeCount(f), true)];
      var level := BucketOf(order, ndata, f);
      var tid := |ts'|;
      Ahead(b, level) && level < |buckets| &&
      (f == Leaf(false) ==> forall a :: !Eval(spec, a)) &&
      Scan(ts', order, ndata, owner[tid := (level, |buckets[level]|)], buckets[level := buckets[level] + [tid]], b, idx + 2, spec)
  {
    ConjInputs(ts, order, ndata, owner, buckets, b, idx, spec);
    var t1, t2 := buckets[b][idx], buckets[b][idx + 1];
    var f := Apply(And, ts[t1 - 1].fun, ts[t2 - 1].fun, lv);
    var ts' := Release(Release(ts, t1), t2) + [Term(f, NodeCount(f), true)];
    ConjStep(ts, ts', order, ndata, owner, buckets, b, idx, spec, lv, t1, t2, f);
  }

  /** ConjPreserves with the two entries, their conjunction and the new term list named. */
  lemma ConjStep(ts: seq<Term>, ts': seq<Term>, order: seq<int>, ndata: int, owner: map<int, (int, int)>,
                 buckets: seq<seq<int>>, b: int, idx: int, spec: Node, lv: map<int, int>, t1: int, t2: int, f: Node)
    requires |buckets| == |order| + 1 && 0 <= b <= |order| && 0 <= idx && idx + 1 < |buckets[b]|
    requires Scan(ts, order, ndata, owner, buckets, b, idx, spec)
    requires t1 == buckets[b][idx] && t2 == buckets[b][idx + 1]
    requires 1 <= t1 <= |ts| && 1 <= t2 <= |ts| && owner[t1] == (b, idx) && owner[t2] == (b, idx + 1)
    requires BucketOf(order, ndata, ts[t1 - 1].fun) == b && BucketOf(order, ndata, ts[t2 - 1].fun) == b
    requires f == Apply(And, ts[t1 - 1].fun, ts[t2 - 1].fun, lv)
    requires ts' == Release(Release(ts, t1), t2) + [Term(f, NodeCount(f), true)]
    ensures Ahead(b, BucketOf(order, ndata, f)) && BucketOf(order, ndata, f) < |buckets|
    ensures f == Leaf(false) ==> forall a :: !Eval(spec, a)
    ensures var level := BucketOf(order, ndata, f);
      Scan(ts', order, ndata, owner[|ts'| := (level, |buckets[level]|)], buckets[level := buckets[level] + [|ts'|]], b, idx + 2, spec)
  {
    var level := BucketOf(order, ndata, f);
    SupportApply(And, ts[t1 - 1].fun, ts[t2 - 1].fun, lv);
    ConjLevel(order, ndata, ts[t1 - 1].fun, ts[t2 - 1].fun, f, b);
    ConjScan(ts, ts', order, ndata, owner, buckets, b, idx, spec, lv, level, t1, t2, f);
    if f == Leaf(false) {
      ConjFalse(ts', buckets, b, idx + 2, spec, level);
    }
  }

  lemma QuantMeansAt(ts: seq<Term>, ts': seq<Term>, order: seq<int>, ndata: int, buckets: seq<seq<int>>, b: int,
                     spec: Node, lv: map<int, int>, a: Assignment)
    requires |buckets| == |order| + 1 && 1 <= b <= |order| && |buckets[b]| >= 1 && order[b - 1] > ndata
    requires Filed(ts, order, ndata, buckets, b, |buckets[b]| - 1) && Means(ts, buckets, b, |buckets[b]| - 1, spec)
    requires forall c, k :: Pending(buckets, b, |buckets[b]|, c, k) ==> 1 <= buckets[c][k] <= |ts|
    requires 1 <= buckets[b][|buckets[b]| - 1] <= |ts| && SameFuns(ts, ts')
    ensures var x := order[b - 1];
      HoldsAll(ts', buckets, b, |buckets[b]|, a) && Eval(Exist(ts[buckets[b][|buckets[b]| - 1] - 1].fun, x, lv), a)
      <==> Eval(Exist(spec, x, lv), a)
  {
    var x := order[b - 1];
    var idx := |buckets[b]| - 1;
    var f1 := ts[buckets[b][idx] - 1].fun;
    assert Filed(ts, order, ndata, buckets, b, idx + 1) by {
      forall c, k | Pending(buckets, b, idx + 1, c, k)
        ensures 1 <= buckets[c][k] <= |ts| && ts[buckets[c][k] - 1].active && BucketOf(order, ndata, ts[buckets[c][k] - 1].fun) == c
      {
        assert Pending(buckets, b, idx, c, k);
      }
    }
    EvalExist(spec, x, lv, a);
    EvalExist(f1, x, lv, a);
    HoldsPop(ts, buckets, b, idx, a - {x});
    HoldsPop(ts, buckets, b, idx, a + {x});
    HoldsIgnores(ts, order, ndata, buckets, b, a);
    HoldsStable(ts, ts', buckets, b, idx + 1, a);
  }

  /** The last entry of bucket b >= 1 is a live term, and the variable of level b is an encoding variable. */
  lemma QuantInput(ts: seq<Term>, order: seq<int>, ndata: int, owner: map<int, (int, int)>,
                   buckets: seq<seq<int>>, b: int, spec: Node)
    requires |buckets| == |order| + 1 && 1 <= b <= |order| && |buckets[b]| >= 1
    requires Scan(ts, order, ndata, owner, buckets, b, |buckets[b]| - 1, spec)
    ensures var t1 := buckets[b][|buckets[b]| - 1];
      1 <= t1 <= |ts| && ts[t1 - 1].active && owner[t1] == (b, |buckets[b]| - 1) && order[b - 1] > ndata &&
      BucketOf(order, ndata, ts[t1 - 1].fun) == b
  {
    var idx := |buckets[b]| - 1;
    var t1 := buckets[b][idx];
    assert Pending(buckets, b, idx, b, idx);
    assert EncAt(order, ndata, Support(ts[t1 - 1].fun), b);
  }

  /** After the quantification the scan invariant holds for Exist(spec) at the end of bucket b, before filing. */
  lemma QuantScan(ts: seq<Term>, ts': seq<Term>, order: seq<int>, ndata: int, owner: map<int, (int, int)>,
                  buckets: seq<seq<int>>, b: int, spec: Node, lv: map<int, int>)
    requires |buckets| == |order| + 1 && 1 <= b <= |order| && |buckets[b]| >= 1
    requires Scan(ts, order, ndata, owner, buckets, b, |buckets[b]| - 1, spec)
    requires var t1 := buckets[b][|buckets[b]| - 1];
      1 <= t1 <= |ts| && owner[t1] == (b, |buckets[b]| - 1) && order[b - 1] > ndata &&
      var g := Exist(ts[t1 - 1].fun, order[b - 1], lv);
      ts' == Release(ts, t1) + [Term(g, NodeCount(g), true)]
    ensures Filed(ts', order, ndata, buckets, b, |buckets[b]|) && Owned(owner, buckets, b, |buckets[b]|)
    ensures forall c, k :: Pending(buckets, b, |buckets[b]|, c, k) ==> 1 <= buckets[c][k] < |ts'|
    ensures var t1 := buckets[b][|buckets[b]| - 1];
      forall a :: HoldsAll(ts', buckets, b, |buckets[b]|, a) && Eval(ts'[|ts'| - 1].fun, a)
        <==> Eval(Exist(spec, order[b - 1], lv), a)
  {
    var idx := |buckets[b]| - 1;
    var t1 := buckets[b][idx];
    FiledAdvance(ts, ts', order, ndata, owner, buckets, b, idx, 1, {t1});
    forall a ensures HoldsAll(ts', buckets, b, |buckets[b]|, a) && Eval(ts'[|ts'| - 1].fun, a) <==> Eval(Exist(spec, order[b - 1], lv), a) {
      QuantMeansAt(ts, ts', order, ndata, buckets, b, spec, lv, a);
    }
  }

  /** Filing a quantified result that is not the constant true. */
  lemma QuantPush(ts': seq<Term>, order: seq<int>, ndata: int, owner: map<int, (int, int)>,
                  buckets: seq<seq<int>>, b: int, spec': Node, level: int)
    requires |buckets| == |order| + 1 && 1 <= b <= |order| && |ts'| >= 1
    requires Filed(ts', order, ndata, buckets, b, |buckets[b]|) && Owned(owner, buckets, b, |buckets[b]|)
    requires forall c, k :: Pending(buckets, b, |buckets[b]|, c, k) ==> 1 <= buckets[c][k] < |ts'|
    requires forall a :: HoldsAll(ts', buckets, b, |buckets[b]|, a) && Eval(ts'[|ts'| - 1].fun, a) <==> Eval(spec', a)
    requires ts'[|ts'| - 1].active && level == BucketOf(order, ndata, ts'[|ts'| - 1].fun)
    requires Ahead(b, level) && level != b && 0 <= level < |buckets|
    ensures var tid := |ts'|;
      Scan(ts', order, ndata, owner[tid := (level, |buckets[level]|)], buckets[level := buckets[level] + [tid]], b, |buckets[b]|, spec')
  {
    var tid := |ts'|;
    FiledPush(ts', order, ndata, owner, buckets, b, |buckets[b]|, level, tid);
    forall a ensures HoldsAll(ts', buckets[level := buckets[level] + [tid]], b, |buckets[b]|, a) <==> Eval(spec', a) {
      HoldsPush(ts', buckets, b, |buckets[b]|, level, tid, a);
    }
  }

  /** Quantifying the variable of level b from the last entry of bucket b keeps the scan invariant for Exist(spec). */
  lemma QuantPreserves(ts: seq<Term>, order: seq<int>, ndata: int, owner: map<int, (int, int)>,
                       buckets: seq<seq<int>>, b: int, spec: Node, lv: map<int, int>)
    requires |buckets| == |order| + 1 && 1 <= b <= |order| && |buckets[b]| >= 1
    requires Scan(ts, order, ndata, owner, buckets, b, |buckets[b]| - 1, spec)
    ensures var t1 := buckets[b][|buckets[b]| - 1];
      1 <= t1 <= |ts| && ts[t1 - 1].active && order[b - 1] > ndata
    ensures var t1 := buckets[b][|buckets[b]| - 1]; var x := order[b - 1];
      var g := Exist(ts[t1 - 1].fun, x, lv);
      var ts' := Release(ts, t1) + [Term(g, NodeCount(g), true)];
      var level := BucketOf(order, ndata, g);
      var tid := |ts'|;
      var spec' := Exist(spec, x, lv);
      Ahead(b, level) && level != b && level < |buckets| &&
      (g == Leaf(true) ==> Scan(ts', order, ndata, owner, buckets, b, |buckets[b]|, spec')) &&
      (g != Leaf(true) ==>
        Scan(ts', order, ndata, owner[tid := (level, |buckets[level]|)], buckets[level := buckets[level] + [tid]], b, |buckets[b]|, spec'))
  {
    QuantInput(ts, order, ndata, owner, buckets, b, spec);
    var t1 := buckets[b][|buckets[b]| - 1];
    var f1 := ts[t1 - 1].fun;
    var x := order[b - 1];
    var g := Exist(f1, x, lv);
    var ts' := Release(ts, t1) + [Term(g, NodeCount(g), true)];
    var level := BucketOf(order, ndata, g);
    var spec' := Exist(spec, x, lv);
    SupportExist(f1, x, lv);
    QuantLevel(order, ndata, f1, g, b);
    QuantScan(ts, ts', order, ndata, owner, buckets, b, spec, lv);
    if g == Leaf(true) {
      assert forall a :: HoldsAll(ts', buckets, b, |buckets[b]|, a) <==> Eval(spec', a);
    } else {
      QuantPush(ts', order, ndata, owner, buckets, b, spec', level);
    }
  }

  /** An empty end of bucket b: quantifying the variable of level b from spec changes nothing. */
  lemma SkipPreserves(ts: seq<Term>, order: seq<int>, ndata: int, owner: map<int, (int, int)>,
                      buckets: seq<seq<int>>, b: int, spec: Node, lv: map<int, int>)
    requires |buckets| == |order| + 1 && 1 <= b <= |order|
    requires Scan(ts, order, ndata, owner, buckets, b, |buckets[b]|, spec)
    ensures var x := order[b - 1];
      Scan(ts, order, ndata, owner, buckets, b, |buckets[b]|, if x > ndata then Exist(spec, x, lv) else spec)
  {
    var x := order[b - 1];
    if x > ndata {
      forall a ensures HoldsAll(ts, buckets, b, |buckets[b]|, a) <==> Eval(Exist(spec, x, lv), a) {
        HoldsIgnores(ts, order, ndata, buckets, b, a);
        EvalExist(spec, x, lv, a);
      }
    }
  }

  /** The end of bucket b >= 1 is the start of the next bucket (bucket 0 after the last). */
  lemma NextPreserves(ts: seq<Term>, order: seq<int>, ndata: int, owner: map<int, (int, int)>,
                      buckets: seq<seq<int>>, b: int, spec: Node)
    requires |buckets| == |order| + 1 && 1 <= b <= |order|
    requires Scan(ts, order, ndata, owner, buckets, b, |buckets[b]|, spec)
    ensures Scan(ts, order, ndata, owner, buckets, NextBucket(b, |buckets| - 1), 0, spec)
  {
    var b' := NextBucket(b, |buckets| - 1);
    forall c, k ensures Pending(buckets, b, |buckets[b]|, c, k) <==> Pending(buckets, b', 0, c, k) {
      PendingNext(buckets, b, c, k);
    }
    forall a ensures HoldsAll(ts, buckets, b', 0, a) <==> Eval(spec, a) {
      assert HoldsAll(ts, buckets, b', 0, a) == HoldsAll(ts, buckets, b, |buckets[b]|, a);
    }
  }

  /** Every live term among the first i holds under a. */
  ghost predicate HoldsUpTo(ts: seq<Term>, i: int, a: Assignment)
  {
    forall j :: 0 <= j < i && j < |ts| && ts[j].active ==> Eval(ts[j].fun, a)
  }

  /**
   * The filing loop after i terms: the buckets hold identifiers 1..i only, every entry is
   * pending at the start of the sweep (bucket 1, or bucket 0 when there are no variables),
   * and the filed terms hold exactly when the first i live terms do.
   */
  ghost predicate Filing(ts: seq<Term>, order: seq<int>, ndata: int, owner: map<int, (int, int)>,
                         buckets: seq<seq<int>>, i: int)
  {
    |buckets| == |order| + 1 &&
    (forall c, k :: 0 <= c < |buckets| && 0 <= k < |buckets[c]| ==> 1 <= buckets[c][k] <= i) &&
    Filed(ts, order, ndata, buckets, NextBucket(0, |buckets| - 1), 0) && Owned(owner, buckets, NextBucket(0, |buckets| - 1), 0) &&
    forall a :: HoldsAll(ts, buckets, NextBucket(0, |buckets| - 1), 0, a) <==> HoldsUpTo(ts, i, a)
  }

  lemma FilingStart(ts: seq<Term>, order: seq<int>, ndata: int)
    ensures Filing(ts, order, ndata, map[], seq(|order| + 1, _ => []), 0)
  {
    var buckets: seq<seq<int>> := seq(|order| + 1, _ => []);
    var b0 := NextBucket(0, |buckets| - 1);
    forall a ensures HoldsAll(ts, buckets, b0, 0, a) && HoldsUpTo(ts, 0, a) {
    }
  }

  /** A term that is released or constantly true is not filed. */
  lemma FilingSkip(ts: seq<Term>, order: seq<int>, ndata: int, owner: map<int, (int, int)>,
                   buckets: seq<seq<int>>, i: int)
    requires 0 <= i < |ts| && Filing(ts, order, ndata, owner, buckets, i)
    requires !ts[i].active || ts[i].fun == Leaf(true)
    ensures Filing(ts, order, ndata, owner, buckets, i + 1)
  {
    var b0 := NextBucket(0, |buckets| - 1);
    forall a ensures HoldsAll(ts, buckets, b0, 0, a) <==> HoldsUpTo(ts, i + 1, a) {
      if HoldsUpTo(ts, i, a) {
        assert forall j :: 0 <= j < i + 1 && j < |ts| && ts[j].active ==> j < i || Eval(ts[j].fun, a);
      }
    }
  }

  /** Filing term i + 1 in the bucket of its level. */
  lemma FilingPush(ts: seq<Term>, order: seq<int>, ndata: int, owner: map<int, (int, int)>,
                   buckets: seq<seq<int>>, i: int)
    requires 0 <= i < |ts| && Filing(ts, order, ndata, owner, buckets, i) && ts[i].active
    ensures var level := BucketOf(order, ndata, ts[i].fun);
      level < |buckets| &&
      Filing(ts, order, ndata, owner[i + 1 := (level, |buckets[level]|)], buckets[level := buckets[level] + [i + 1]], i + 1)
  {
    var level := BucketOf(order, ndata, ts[i].fun);
    var b0 := NextBucket(0, |buckets| - 1);
    assert Ahead(b0, level);
    var nb := buckets[level := buckets[level] + [i + 1]];
    FiledPush(ts, order, ndata, owner, buckets, b0, 0, level, i + 1);
    forall c, k | 0 <= c < |nb| && 0 <= k < |nb[c]| ensures 1 <= nb[c][k] <= i + 1 {
      if !(c == level && k == |buckets[level]|) {
        assert nb[c][k] == buckets[c][k];
      }
    }
    forall a ensures HoldsAll(ts, nb, b0, 0, a) <==> HoldsUpTo(ts, i + 1, a) {
      HoldsPush(ts, buckets, b0, 0, level, i + 1, a);
      if HoldsUpTo(ts, i, a) && Eval(ts[i].fun, a) {
        assert forall j :: 0 <= j < i + 1 && j < |ts| && ts[j].active ==> j < i || j == i;
      }
    }
  }

  /** A live term that is constantly false makes the conjunction of the terms unsatisfiable. */
  lemma FilingFalse(ts: seq<Term>, i: int, lv: map<int, int>)
    requires 0 <= i < |ts| && ts[i].active && ts[i].fun == Leaf(false)
    ensures forall a :: !Eval(ConjTerms(ts, lv), a)
  {
    forall a ensures !Eval(ConjTerms(ts, lv), a) {
      EvalConjTerms(ts, lv, a);
    }
  }

  /** Once every term is filed, the sweep starts with the conjunction of all live terms. */
  lemma FilingDone(ts: seq<Term>, order: seq<int>, ndata: int, owner: map<int, (int, int)>,
                   buckets: seq<seq<int>>, lv: map<int, int>)
    requires Filing(ts, order, ndata, owner, buckets, |ts|)
    ensures Scan(ts, order, ndata, owner, buckets, NextBucket(0, |buckets| - 1), 0, ConjTerms(ts, lv))
  {
    var b0 := NextBucket(0, |buckets| - 1);
    forall a ensures HoldsAll(ts, buckets, b0, 0, a) <==> Eval(ConjTerms(ts, lv), a) {
      EvalConjTerms(ts, lv, a);
      assert HoldsAll(ts, buckets, b0, 0, a) <==> HoldsUpTo(ts, |ts|, a);
    }
  }

  /** After bucket 0 the only pending entry is its last one: its term means spec. */
  lemma LastMeans(ts: seq<Term>, order: seq<int>, ndata: int, owner: map<int, (int, int)>,
                  buckets: seq<seq<int>>, spec: Node)
    requires |buckets| >= 1 && |buckets[0]| >= 1
    requires Scan(ts, order, ndata, owner, buckets, 0, |buckets[0]| - 1, spec)
    ensures var t := buckets[0][|buckets[0]| - 1];
      1 <= t <= |ts| && ts[t - 1].active && forall a :: Eval(ts[t - 1].fun, a) <==> Eval(spec, a)
  {
    var idx := |buckets[0]| - 1;
    assert Pending(buckets, 0, idx, 0, idx);
    forall a ensures Eval(ts[buckets[0][idx] - 1].fun, a) <==> Eval(spec, a) {
      HoldsPop(ts, buckets, 0, idx, a);
    }
  }

  /** An empty bucket 0 at the end of the sweep: spec holds everywhere. */
  lemma EmptyMeans(ts: seq<Term>, order: seq<int>, ndata: int, owner: map<int, (int, int)>,
                   buckets: seq<seq<int>>, spec: Node)
    requires |buckets| >= 1 && |buckets[0]| == 0
    requires Scan(ts, order, ndata, owner, buckets, 0, 0, spec)
    ensures forall a :: Eval(spec, a)
  {
    forall a ensures Eval(spec, a) {
      assert HoldsAll(ts, buckets, 0, 0, a);
    }
  }

  /** One more level of the order quantified. */
  lemma QuantifyEncStep(f: Node, order: seq<int>, n: int, ndata: int, lv: map<int, int>)
    requires 0 <= n < |order|
    ensures QuantifyEnc(f, order[..n + 1], ndata, lv) ==
      var g := QuantifyEnc(f, order[..n], ndata, lv);
      if order[n] > ndata then Exist(g, order[n], lv) else g
  {
    assert order[..n + 1][..n] == order[..n];
  }

  datatype Exit = Running | Finished(ok: bool)

  class TermSet {
    var nvar: int
    var ndata: nat
    /** The variable order: level l (from 1) holds variable order[l - 1]. */
    var order: seq<int>
    /** Terms indexed by identifier - 1. */
    var terms: seq<Term>
    var root: Node
    var verblevel: int
    var totalCount: int
    var deadCount: int
    var andCount: int
    var quantCount: int
    var maxBdd: int

    predicate Valid()
      reads this
    {
      nvar == |order| && PositiveTerms(terms) && PositiveSupport(root)
    }

    /** bdd_size_limit exceeded: some diagram built so far has more than ndata * ndata nodes. */
    predicate OverLimit()
      reads this
    {
      maxBdd > ndata * ndata
    }

    function Lv(): map<int, int>
      reads this`order
    {
      Ranks(order)
    }

    /** Counters start at zero, no terms, root false. */
    constructor (nv: nat, nd: nat, varOrder: seq<int>, vlevel: int)
      requires |varOrder| == nv
      ensures Valid() && nvar == nv && ndata == nd && order == varOrder && verblevel == vlevel
      ensures terms == [] && root == Leaf(false)
      ensures totalCount == 0 && deadCount == 0 && andCount == 0 && quantCount == 0 && maxBdd == 0
    {
      nvar := nv;
      ndata := nd;
      order := varOrder;
      verblevel := vlevel;
      terms := [];
      root := Leaf(false);
      totalCount := 0;
      deadCount := 0;
      andCount := 0;
      quantCount := 0;
      maxBdd := 0;
    }

    /** The live term with identifier tid, if any. */
    function GetTerm(tid: int): (r: Option<Term>)
      reads this
      ensures r.Some? <==> 1 <= tid <= |terms| && terms[tid - 1].active
      ensures r.Some? ==> r.value == terms[tid - 1]
    {
      if tid < 1 || tid > |terms| then None
      else if !terms[tid - 1].active then None
      else Some(terms[tid - 1])
    }

    method CheckGc()
      modifies this
      ensures (deadCount, totalCount) == GcStep(old(deadCount), old(totalCount))
      ensures nvar == old(nvar) && ndata == old(ndata) && order == old(order) && verblevel == old(verblevel)
      ensures terms == old(terms) && root == old(root) && andCount == old(andCount)
      ensures quantCount == old(quantCount) && maxBdd == old(maxBdd)
    {
      if deadCount >= CollectMin && (totalCount == 0 || (totalCount > 0 && 10 * deadCount >= totalCount)) {
        totalCount := totalCount - deadCount;
        deadCount := 0;
      }
    }

    /** Appends a live term; the identifier is refused (-1) once a diagram exceeds ndata * ndata nodes. */
    method Add(t: Node) returns (tid: int)
      requires Valid() && PositiveSupport(t)
      modifies this
      ensures Valid()
      ensures terms == old(terms) + [Term(t, NodeCount(t), true)]
      ensures maxBdd == (if NodeCount(t) > old(maxBdd) then NodeCount(t) else old(maxBdd))
      ensures tid == (if maxBdd > ndata * ndata then -1 else |terms|)
      ensures nvar == old(nvar) && ndata == old(ndata) && order == old(order) && verblevel == old(verblevel)
      ensures root == old(root) && totalCount == old(totalCount) && deadCount == old(deadCount)
      ensures andCount == old(andCount) && quantCount == old(quantCount)
    {
      var tp := Term(t, NodeCount(t), true);
      terms := terms + [tp];
      if tp.nodeCount > maxBdd {
        maxBdd := tp.nodeCount;
      }
      if maxBdd > ndata * ndata {
        return -1;
      }
      return |terms|;
    }

    /** Adds the diagram of a clause; it holds exactly when some literal of the clause does. */
    method AddClause(lits: seq<int>) returns (tid: int)
      requires Valid() && NonZero(lits)
      modifies this
      ensures Valid()
      ensures |terms| == |old(terms)| + 1 && terms[..|old(terms)|] == old(terms)
      ensures var t := terms[|terms| - 1];
        t.active && t.nodeCount == NodeCount(t.fun) && t.fun == ClauseNode(lits, Lv()) &&
        forall a :: Eval(t.fun, a) <==> CountTrue(lits, a) >= 1
      ensures tid == -1 || tid == |terms|
      ensures nvar == old(nvar) && ndata == old(ndata) && order == old(order) && verblevel == old(verblevel)
      ensures root == old(root) && totalCount == old(totalCount) && deadCount == old(deadCount)
      ensures andCount == old(andCount) && quantCount == old(quantCount)
    {
      var r := ClauseNode(lits, Lv());
      forall a ensures Eval(r, a) <==> CountTrue(lits, a) >= 1 {
        EvalClauseNode(lits, Lv(), a);
      }
      ClauseNodePositive(lits, Lv());
      tid := Add(r);
      assert terms[..|old(terms)|] == old(terms);
    }

    /** Releases a term (deactivate): its nodes become dead, and their number is returned. */
    method Deactivate(tid: int) returns (dead: int)
      requires Valid() && 1 <= tid <= |terms|
      modifies this`terms
      ensures Valid() && terms == Release(old(terms), tid) && dead == old(terms)[tid - 1].nodeCount
    {
      dead := terms[tid - 1].nodeCount;
      terms := terms[tid - 1 := terms[tid - 1].(nodeCount := 0, active := false)];
    }

    /**
     * Conjoins two live terms into a new one and releases both; -1 with nothing changed when
     * either is not live, -1 after the update when the result is too large.
     */
    method Conjunct(tid1: int, tid2: int) returns (tid: int)
      requires Valid()
      modifies this
      ensures Valid()
      ensures old(GetTerm(tid1)).None? || old(GetTerm(tid2)).None? ==> tid == -1 && unchanged(this)
      ensures old(GetTerm(tid1)).Some? && old(GetTerm(tid2)).Some? ==>
        var f := Apply(And, old(terms)[tid1 - 1].fun, old(terms)[tid2 - 1].fun, Lv());
        var ts1 := Release(old(terms), tid1);
        var ts2 := Release(ts1, tid2);
        terms == ts2 + [Term(f, NodeCount(f), true)] &&
        (deadCount, totalCount) == GcStep(old(deadCount) + old(terms)[tid1 - 1].nodeCount + ts1[tid2 - 1].nodeCount, old(totalCount)) &&
        maxBdd == (if NodeCount(f) > old(maxBdd) then NodeCount(f) else old(maxBdd)) &&
        tid == (if maxBdd > ndata * ndata then -1 else |terms|) &&
        andCount == old(andCount) + 1 && quantCount == old(quantCount) && root == old(root)
      ensures nvar == old(nvar) && ndata == old(ndata) && order == old(order) && verblevel == old(verblevel)
    {
      var tp1 := GetTerm(tid1);
      var tp2 := GetTerm(tid2);
      if tp1.None? || tp2.None? {
        return -1;
      }
      var t := Apply(And, tp1.value.fun, tp2.value.fun, Lv());
      SupportApply(And, tp1.value.fun, tp2.value.fun, Lv());
      tid := Add(t);
      var d1 := Deactivate(tid1);
      deadCount := deadCount + d1;
      var d2 := Deactivate(tid2);
      deadCount := deadCount + d2;
      CheckGc();
      andCount := andCount + 1;
    }

    /** Existentially quantifies var from a live term into a new one and releases the old one. */
    method Equantify(tid: int, x: int) returns (ntid: int)
      requires Valid()
      modifies this
      ensures Valid()
      ensures old(GetTerm(tid)).None? ==> ntid == -1 && unchanged(this)
      ensures old(GetTerm(tid)).Some? ==>
        var f := Exist(old(terms)[tid - 1].fun, x, Lv());
        terms == Release(old(terms), tid) + [Term(f, NodeCount(f), true)] &&
        (deadCount, totalCount) == GcStep(old(deadCount) + old(terms)[tid - 1].nodeCount, old(totalCount)) &&
        maxBdd == (if NodeCount(f) > old(maxBdd) then NodeCount(f) else old(maxBdd)) &&
        ntid == (if maxBdd > ndata * ndata then -1 else |terms|) &&
        quantCount == old(quantCount) + 1 && andCount == old(andCount) && root == old(root)
      ensures nvar == old(nvar) && ndata == old(ndata) && order == old(order) && verblevel == old(verblevel)
    {
      var tp := GetTerm(tid);
      if tp.None? {
        return -1;
      }
      var t := Exist(tp.value.fun, x, Lv());
      SupportExist(tp.value.fun, x, Lv());
      ntid := Add(t);
      var d := Deactivate(tid);
      deadCount := deadCount + d;
      CheckGc();
      quantCount := quantCount + 1;
    }

    /** The level of the uppermost encoding variable in the support of a live term, 0 if none, -1 if not live. */
    method FindBucketLevel(tid: int) returns (level: int)
      requires Valid()
      ensures GetTerm(tid).None? ==> level == -1
      ensures GetTerm(tid).Some? ==> level == BucketOf(order, ndata, terms[tid - 1].fun)
    {
      var tp := GetTerm(tid);
      if tp.None? {
        return -1;
      }
      var support := SupportList(tp.value.fun);
      level := nvar + 1;
      for i := 0 to |support|
        invariant 1 <= level <= nvar + 1
        invariant level <= nvar ==> order[level - 1] in support[..i] && order[level - 1] > ndata
        invariant forall j :: 0 <= j < i && support[j] > ndata ==> LevelOf(order, support[j]) >= level
      {
        var vlevel := LevelOf(order, support[i]);
        if support[i] > ndata && vlevel < level {
          level := vlevel;
        }
      }
      ghost var sup := Support(tp.value.fun);
      forall l | 1 <= l <= nvar && EncAt(order, ndata, sup, l)
        ensures level <= l
      {
        var j :| 0 <= j < |support| && support[j] == order[l - 1];
        assert LevelOf(order, order[l - 1]) <= l;
      }
      if level == nvar + 1 {
        level := 0;
      } else {
        assert EncAt(order, ndata, sup, level);
      }
    }

    /**
     * The filing pass of bucket_reduce: every live term that is not constantly true goes to
     * the bucket of its level; a constantly false term ends the reduction with root false.
     */
    method FileTerms() returns (exit: Exit, buckets: seq<seq<int>>, ghost owner: map<int, (int, int)>)
      requires Valid()
      modifies this`root
      ensures exit == Finished(true) ==> root == Leaf(false) && forall a :: !Eval(Reduced(terms, order, ndata), a)
      ensures exit != Finished(true) ==> root == old(root)
      ensures exit != Finished(false)
      ensures exit == Running ==> Scan(terms, order, ndata, owner, buckets, NextBucket(0, nvar), 0, ConjTerms(terms, Lv()))
    {
      buckets := seq(nvar + 1, _ => []);
      owner := map[];
      FilingStart(terms, order, ndata);
      for i := 0 to |terms|
        invariant root == old(root)
        invariant Filing(terms, order, ndata, owner, buckets, i)
      {
        var tp := terms[i];
        if !tp.active {
          FilingSkip(terms, order, ndata, owner, buckets, i);
          continue;
        }
        if tp.fun == Leaf(false) {
          root := Leaf(false);
          FilingFalse(terms, i, Lv());
          assert QuantifyEnc(ConjTerms(terms, Lv()), [], ndata, Lv()) == ConjTerms(terms, Lv());
          UnsatQuantify(ConjTerms(terms, Lv()), [], order, ndata, Lv());
          return Finished(true), buckets, owner;
        }
        if tp.fun != Leaf(true) {
          var level := FindBucketLevel(i + 1);
          if level < 0 {
            return Finished(false), buckets, owner;
          }
          FilingPush(terms, order, ndata, owner, buckets, i);
          buckets := buckets[level := buckets[level] + [i + 1]];
          owner := owner[i + 1 := (level, |buckets[level]| - 1)];
        } else {
          FilingSkip(terms, order, ndata, owner, buckets, i);
        }
      }
      FilingDone(terms, order, ndata, owner, buckets, Lv());
      return Running, buckets, owner;
    }

    /**
     * One round of the pairing loop: conjoins entries idx and idx + 1 of bucket b and files
     * the conjunction; root false when it is constantly false.
     */
    method PairStep(b: int, buckets0: seq<seq<int>>, idx0: int, ghost owner0: map<int, (int, int)>, ghost spec: Node)
      returns (exit: Exit, buckets: seq<seq<int>>, ghost owner: map<int, (int, int)>)
      requires Valid() && |buckets0| == nvar + 1 && 0 <= b <= nvar && 0 <= idx0 && idx0 + 1 < |buckets0[b]|
      requires Scan(terms, order, ndata, owner0, buckets0, b, idx0, spec)
      modifies this
      ensures Valid() && nvar == old(nvar) && ndata == old(ndata) && order == old(order) && verblevel == old(verblevel)
      ensures exit == Finished(true) ==> root == Leaf(false) && forall a :: !Eval(spec, a)
      ensures exit == Finished(false) ==> OverLimit()
      ensures exit == Running ==>
        |buckets| == nvar + 1 && |buckets[b]| <= |buckets0[b]| + 1 && Scan(terms, order, ndata, owner, buckets, b, idx0 + 2, spec)
      ensures exit == Running && b == 0 ==> |buckets[0]| == |buckets0[0]| + 1
    {
      var tid1 := buckets0[b][idx0];
      var tid2 := buckets0[b][idx0 + 1];
      ghost var ts := terms;
      ConjPreserves(ts, order, ndata, owner0, buckets0, b, idx0, spec, Lv());
      ghost var f := Apply(And, ts[tid1 - 1].fun, ts[tid2 - 1].fun, Lv());
      var tid := Conjunct(tid1, tid2);
      assert terms == Release(Release(ts, tid1), tid2) + [Term(f, NodeCount(f), true)];
      if tid < 0 {
        return Finished(false), buckets0, owner0;
      }
      var tp := GetTerm(tid);
      if tp.None? {
        return Finished(false), buckets0, owner0;
      }
      if tp.value.fun == Leaf(false) {
        root := Leaf(false);
        return Finished(true), buckets0, owner0;
      }
      var level := FindBucketLevel(tid);
      owner := owner0[tid := (level, |buckets0[level]|)];
      buckets := buckets0[level := buckets0[level] + [tid]];
      exit := Running;
    }

    /**
     * Conjoins the entries of bucket b two at a time, filing each conjunction; stops with at
     * most one entry left, or with root false when a conjunction is constantly false.
     */
    method PairBucket(b: int, buckets0: seq<seq<int>>, ghost owner0: map<int, (int, int)>, ghost spec: Node)
      returns (exit: Exit, buckets: seq<seq<int>>, idx: int, ghost owner: map<int, (int, int)>)
      requires Valid() && |buckets0| == nvar + 1 && 0 <= b <= nvar
      requires Scan(terms, order, ndata, owner0, buckets0, b, 0, spec)
      modifies this
      ensures Valid() && nvar == old(nvar) && ndata == old(ndata) && order == old(order) && verblevel == old(verblevel)
      ensures exit == Finished(true) ==> root == Leaf(false) && forall a :: !Eval(spec, a)
      ensures exit == Finished(false) ==> OverLimit()
      ensures exit == Running ==>
        |buckets| == nvar + 1 && 0 <= idx && idx + 1 >= |buckets[b]| && Scan(terms, order, ndata, owner, buckets, b, idx, spec)
      ensures exit == Running && b == 0 && |buckets0[0]| >= 1 ==> idx == |buckets[0]| - 1
    {
      buckets, idx, owner := buckets0, 0, owner0;
      while idx + 1 < |buckets[b]|
        invariant Valid() && nvar == old(nvar) && ndata == old(ndata) && order == old(order) && verblevel == old(verblevel)
        invariant |buckets| == nvar + 1 && 0 <= idx
        invariant b == 0 && |buckets0[0]| >= 1 ==> idx + 1 <= |buckets[0]|
        invariant Scan(terms, order, ndata, owner, buckets, b, idx, spec)
        decreases |buckets[b]| - idx
      {
        var step;
        step, buckets, owner := PairStep(b, buckets, idx, owner, spec);
        idx := idx + 2;
        if step.Finished? {
          return step, buckets, idx, owner;
        }
      }
      return Running, buckets, idx, owner;
    }

    /**
     * The last entry of bucket b >= 1: quantify the variable of level b from it and file the
     * result unless it is constantly true.
     */
    method QuantLast(b: int, buckets0: seq<seq<int>>, ghost owner0: map<int, (int, int)>, ghost spec: Node)
      returns (exit: Exit, buckets: seq<seq<int>>, ghost owner: map<int, (int, int)>)
      requires Valid() && |buckets0| == nvar + 1 && 1 <= b <= nvar && |buckets0[b]| >= 1
      requires Scan(terms, order, ndata, owner0, buckets0, b, |buckets0[b]| - 1, spec)
      modifies this
      ensures Valid() && nvar == old(nvar) && ndata == old(ndata) && order == old(order) && verblevel == old(verblevel)
      ensures exit != Finished(true)
      ensures exit == Finished(false) ==> OverLimit()
      ensures exit == Running ==> |buckets| == nvar + 1 && order[b - 1] > ndata
      ensures exit == Running ==> Scan(terms, order, ndata, owner, buckets, b, |buckets[b]|, Exist(spec, order[b - 1], Lv()))
    {
      var bvar := order[b - 1];
      var tid1 := buckets0[b][|buckets0[b]| - 1];
      ghost var ts, lv := terms, Lv();
      QuantPreserves(ts, order, ndata, owner0, buckets0, b, spec, lv);
      ghost var g := Exist(ts[tid1 - 1].fun, bvar, lv);
      ghost var ts' := Release(ts, tid1) + [Term(g, NodeCount(g), true)];
      ghost var level, spec' := BucketOf(order, ndata, g), Exist(spec, bvar, lv);
      var tid := Equantify(tid1, bvar);
      assert Lv() == lv;
      assert terms == ts';
      if tid < 0 {
        return Finished(false), buckets0, owner0;
      }
      assert tid == |ts'| && ts'[tid - 1].fun == g;
      buckets, owner := FileTerm(tid, buckets0, owner0);
      if g == Leaf(true) {
        assert Scan(ts', order, ndata, owner0, buckets0, b, |buckets0[b]|, spec');
      } else {
        assert Scan(ts', order, ndata, owner0[tid := (level, |buckets0[level]|)],
                    buckets0[level := buckets0[level] + [tid]], b, |buckets0[b]|, spec');
      }
      exit := Running;
    }

    /** Files term tid at the end of the bucket of its diagram, unless the diagram is constantly true. */
    method FileTerm(tid: int, buckets0: seq<seq<int>>, ghost owner0: map<int, (int, int)>)
      returns (buckets: seq<seq<int>>, ghost owner: map<int, (int, int)>)
      requires Valid() && GetTerm(tid).Some? && BucketOf(order, ndata, terms[tid - 1].fun) < |buckets0|
      ensures var f := terms[tid - 1].fun; var level := BucketOf(order, ndata, f);
        if f == Leaf(true) then buckets == buckets0 && owner == owner0
        else buckets == buckets0[level := buckets0[level] + [tid]] && owner == owner0[tid := (level, |buckets0[level]|)]
    {
      var tp := GetTerm(tid);
      buckets, owner := buckets0, owner0;
      if tp.value.fun != Leaf(true) {
        var level := FindBucketLevel(tid);
        owner := owner0[tid := (level, |buckets0[level]|)];
        buckets := buckets0[level := buckets0[level] + [tid]];
      }
    }

    /** Bucket b >= 1 of the sweep: pair its entries, then quantify the one left. */
    method QuantBucket(b: int, buckets0: seq<seq<int>>, ghost owner0: map<int, (int, int)>, ghost spec: Node)
      returns (exit: Exit, buckets: seq<seq<int>>, ghost owner: map<int, (int, int)>)
      requires Valid() && |buckets0| == nvar + 1 && 1 <= b <= nvar
      requires Scan(terms, order, ndata, owner0, buckets0, b, 0, spec)
      modifies this
      ensures Valid() && nvar == old(nvar) && ndata == old(ndata) && order == old(order) && verblevel == old(verblevel)
      ensures exit == Finished(true) ==> root == Leaf(false) && forall a :: !Eval(spec, a)
      ensures exit == Finished(false) ==> OverLimit()
      ensures exit == Running ==> |buckets| == nvar + 1
      ensures exit == Running ==>
        Scan(terms, order, ndata, owner, buckets, b, |buckets[b]|, if order[b - 1] > ndata then Exist(spec, order[b - 1], Lv()) else spec)
    {
      if |buckets0[b]| == 0 {
        SkipPreserves(terms, order, ndata, owner0, buckets0, b, spec, Lv());
        return Running, buckets0, owner0;
      }
      var idx;
      exit, buckets, idx, owner := PairBucket(b, buckets0, owner0, spec);
      if exit.Finished? {
        return;
      }
      if idx == |buckets[b]| - 1 {
        exit, buckets, owner := QuantLast(b, buckets, owner, spec);
      } else {
        SkipPreserves(terms, order, ndata, owner, buckets, b, spec, Lv());
      }
    }

    /**
     * One round of the sweep over bucket b >= 1, stated against the running specification:
     * the conjunction f0 with the encoding variables of levels 1..b quantified.
     */
    method SweepStep(b: int, buckets0: seq<seq<int>>, ghost owner0: map<int, (int, int)>, ghost f0: Node)
      returns (exit: Exit, buckets: seq<seq<int>>, ghost owner: map<int, (int, int)>)
      requires Valid() && |buckets0| == nvar + 1 && 1 <= b <= nvar
      requires Scan(terms, order, ndata, owner0, buckets0, b, 0, QuantifyEnc(f0, order[..b - 1], ndata, Lv()))
      modifies this
      ensures Valid() && nvar == old(nvar) && ndata == old(ndata) && order == old(order) && verblevel == old(verblevel)
      ensures exit == Finished(true) ==> root == Leaf(false) && forall a :: !Eval(QuantifyEnc(f0, order, ndata, Lv()), a)
      ensures exit == Finished(false) ==> OverLimit()
      ensures exit == Running ==> |buckets| == nvar + 1
      ensures exit == Running ==> Scan(terms, order, ndata, owner, buckets, NextBucket(b, nvar), 0, QuantifyEnc(f0, order[..b], ndata, Lv()))
    {
      ghost var spec := QuantifyEnc(f0, order[..b - 1], ndata, Lv());
      exit, buckets, owner := QuantBucket(b, buckets0, owner0, spec);
      if exit.Finished? {
        if exit.ok {
          UnsatQuantify(f0, order[..b - 1], order, ndata, Lv());
        }
        return;
      }
      QuantifyEncStep(f0, order, b - 1, ndata, Lv());
      NextPreserves(terms, order, ndata, owner, buckets, b, QuantifyEnc(f0, order[..b], ndata, Lv()));
    }

    /**
     * Bucket 0, processed last: its single remaining entry becomes the root. An empty bucket 0
     * yields root true only at verbosity 2 or more; otherwise (and when nothing is left) the
     * reduction fails.
     */
    method ReduceLast(buckets0: seq<seq<int>>, ghost owner0: map<int, (int, int)>, ghost spec: Node) returns (ok: bool)
      requires Valid() && |buckets0| == nvar + 1
      requires Scan(terms, order, ndata, owner0, buckets0, 0, 0, spec)
      modifies this
      ensures Valid() && nvar == old(nvar) && ndata == old(ndata) && order == old(order) && verblevel == old(verblevel)
      ensures ok ==> forall a :: Eval(root, a) <==> Eval(spec, a)
      ensures !ok ==> OverLimit() || (verblevel < 2 && forall a :: Eval(spec, a))
    {
      if |buckets0[0]| == 0 {
        EmptyMeans(terms, order, ndata, owner0, buckets0, spec);
        if verblevel >= 2 {
          root := Leaf(true);
          return true;
        }
        return false;
      }
      var exit, buckets, idx, owner := PairBucket(0, buckets0, owner0, spec);
      if exit.Finished? {
        return exit.ok;
      }
      if idx == |buckets[0]| - 1 {
        LastMeans(terms, order, ndata, owner, buckets, spec);
        var tp := GetTerm(buckets[0][idx]);
        root := tp.value.fun;
        return true;
      }
      return false;
    }

    /** The sweep of bucket_reduce over the filed terms, whose conjunction is f0. */
    method Sweep(buckets0: seq<seq<int>>, ghost owner0: map<int, (int, int)>, ghost f0: Node) returns (ok: bool)
      requires Valid() && |buckets0| == nvar + 1
      requires Scan(terms, order, ndata, owner0, buckets0, NextBucket(0, nvar), 0, f0)
      modifies this
      ensures Valid() && nvar == old(nvar) && ndata == old(ndata) && order == old(order) && verblevel == old(verblevel)
      ensures ok ==> forall a :: Eval(root, a) <==> Eval(QuantifyEnc(f0, order, ndata, Lv()), a)
      ensures !ok ==> OverLimit() || (verblevel < 2 && forall a :: Eval(QuantifyEnc(f0, order, ndata, Lv()), a))
    {
      var buckets, owner := buckets0, owner0;
      assert order[..0] == [];
      var b := 1;
      while b <= nvar
        invariant Valid() && nvar == old(nvar) && ndata == old(ndata) && order == old(order) && verblevel == old(verblevel)
        invariant 1 <= b <= nvar + 1 && |buckets| == nvar + 1
        invariant Scan(terms, order, ndata, owner, buckets, NextBucket(b - 1, nvar), 0, QuantifyEnc(f0, order[..b - 1], ndata, Lv()))
      {
        var exit;
        exit, buckets, owner := SweepStep(b, buckets, owner, f0);
        if exit.Finished? {
          return exit.ok;
        }
        b := b + 1;
      }
      assert order[..nvar] == order;
      ok := ReduceLast(buckets, owner, QuantifyEnc(f0, order, ndata, Lv()));
    }

    /**
     * Bucket elimination (bucket_reduce): file the terms, then levels 1..nvar in turn and
     * level 0 last. On success root means the conjunction of the live terms with every
     * encoding variable quantified out; the reduction fails when a diagram grows too large
     * or no term is left in bucket 0.
     */
    method BucketReduce() returns (ok: bool)
      requires Valid()
      modifies this
      ensures Valid() && nvar == old(nvar) && ndata == old(ndata) && order == old(order)
      ensures ok ==> forall a :: Eval(root, a) <==> Eval(Reduced(old(terms), order, ndata), a)
      ensures !ok ==> OverLimit() || (verblevel < 2 && forall a :: Eval(Reduced(old(terms), order, ndata), a))
    {
      var exit, buckets, owner := FileTerms();
      if exit.Finished? {
        assert terms == old(terms);
        return exit.ok;
      }
      ghost var f0 := ConjTerms(terms, Lv());
      ok := Sweep(buckets, owner, f0);
      assert QuantifyEnc(f0, order, ndata, Lv()) == Reduced(old(terms), order, ndata);
    }

    /**
     * Reads a cardinality constraint off root (cardinality_converter): the signed literals
     * and the bounds lower..upper on how many of them are true, as Converter states.
     */
    method CardinalityConverter() returns (ok: bool, lits: seq<int>, lower: int, upper: int)
      ensures ok == Converter(root, ndata).Some?
      ensures ok ==> Converter(root, ndata) == Some(Card(lits, lower, upper))
    {
      lits, lower, upper := [], 0, 0;
      if root.Leaf? {
        for v := 1 to ndata + 1
          invariant lits == Range(v - 1)
        {
          lits := lits + [v];
        }
        lower := if root.value then 0 else ndata;
        upper := if root.value then ndata else 0;
        return true, lits, lower, upper;
      }
      var layer := [root];
      for lcount := 0 to ndata
        invariant Layers(root, lcount, ndata) == Some(Decoded(layer, lits))
      {
        var next := NextLayer(layer, lits, lcount + 1, ndata);
        if next.None? {
          LayersNone(root, lcount + 1, ndata, ndata);
          return false, lits, lower, upper;
        }
        layer, lits := next.value.layer, next.value.lits;
      }
      lower, upper := ScanBounds(layer, ndata);
      return true, lits, lower, upper;
    }

    /**
     * cardinality_converter with the checked final scan: the decoded literals and bounds
     * exactly when CheckedConverter accepts the root.
     */
    method CheckedCardinalityConverter() returns (ok: bool, lits: seq<int>, lower: int, upper: int)
      ensures ok == CheckedConverter(root, ndata).Some?
      ensures ok ==> CheckedConverter(root, ndata) == Some(Card(lits, lower, upper))
    {
      lits, lower, upper := [], 0, 0;
      if root.Leaf? {
        lits := Range(ndata);
        lower := if root.value then 0 else ndata;
        upper := if root.value then ndata else 0;
        return true, lits, lower, upper;
      }
      var layer := [root];
      for lcount := 0 to ndata
        invariant Layers(root, lcount, ndata) == Some(Decoded(layer, lits))
      {
        var next := NextLayer(layer, lits, lcount + 1, ndata);
        if next.None? {
          LayersNone(root, lcount + 1, ndata, ndata);
          return false, lits, lower, upper;
        }
        layer, lits := next.value.layer, next.value.lits;
      }
      var bounds := CheckedScan(layer);
      if bounds.None? {
        return false, lits, lower, upper;
      }
      lower, upper := bounds.value.0, bounds.value.1;
      return true, lits, lower, upper;
    }
  }
}

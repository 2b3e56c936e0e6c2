/**
 * The driver of cnf2knf (run_extraction_engines in Extractor/cnf2knf/src/cnf2knf.cpp): the
 * direct at-most-one engine runs first and drops its maps, then the encoded at-most-one engine
 * runs, then the small cliques the direct engine set aside are retried, then a second encoded
 * engine runs, and finally the KNF formula is written. Each engine works on the one store of
 * the extractor; every model of the input formula is a model of the formula left behind.
 */
module Engines {
  import opened Lits
  import opened Extractor
  import opened AmoGraph
  import DirectAmo
  import EncodedAmo
  import Clusters
  import Ord = Ordering

  /** The extractor options run_extraction_engines reads; the timeouts become step budgets. */
  datatype Options = Options(
    directAmo: bool, encodedAmo: bool, directAmoSmall: bool, encodedOthers: bool, writeKnf: bool,
    directBudget: nat, encodedBudget: nat)

  /** Every model of the store (cs, ks) over real variables is a model of the store (ds, ls). */
  ghost predicate Follows(cs: seq<Klause>, ks: seq<Klause>, ds: seq<Klause>, ls: seq<Klause>)
  {
    forall a :: 0 !in a && Holds(cs, ks, a) ==> Holds(ds, ls, a)
  }

  lemma FollowsTrans(cs: seq<Klause>, ks: seq<Klause>, ds: seq<Klause>, ls: seq<Klause>, es: seq<Klause>, ms: seq<Klause>)
    requires Follows(cs, ks, ds, ls) && Follows(ds, ls, es, ms)
    ensures Follows(cs, ks, es, ms)
  {
  }

  /** A run that keeps the formula up to equivalence keeps every model. */
  lemma EquivalentFollows(cs: seq<Klause>, ks: seq<Klause>, ds: seq<Klause>, ls: seq<Klause>)
    requires Equivalent(ds, ls, cs, ks)
    ensures Follows(cs, ks, ds, ls)
  {
  }

  /**
   * A run of the encoded engine only retires clauses and appends klauses that the live clauses
   * imply; over a store of plain clauses, it keeps every model.
   */
  lemma EncodedFollows(cs: seq<Klause>, ks: seq<Klause>, ds: seq<Klause>, ls: seq<Klause>)
    requires ProperClauses(cs) && SameShape(ds, cs) && Retired(cs, ds)
    requires ks <= ls && Implied(cs, ls[|ks|..])
    ensures Follows(cs, ks, ds, ls)
  {
    forall a | 0 !in a && Holds(cs, ks, a) ensures Holds(ds, ls, a) {
      assert LiveHold(cs, a) by {
        forall i | 0 <= i < |cs| && !cs[i].deleted ensures CountTrue(cs[i].lits, a) >= 1 {
          assert Satisfied(cs[i], a);
        }
      }
      assert AllSatisfied(ls[|ks|..], a);
      forall i | 0 <= i < |ls| ensures Satisfied(ls[i], a) {
        if i >= |ks| {
          assert ls[i] == ls[|ks|..][i - |ks|];
        }
      }
      forall i | 0 <= i < |ds| && !ds[i].deleted ensures Satisfied(ds[i], a) {
        assert Satisfied(cs[i], a);
      }
    }
  }

  /**
   * A store no engine finds work in: no live binary clause for the direct engine, and no
   * variable in both signs among the live clauses of at most two literals for the encoded one.
   */
  ghost predicate Idle(cs: seq<Klause>)
  {
    NoBinary(cs) && Clusters.NoEncoding(cs, 2)
  }

  /**
   * Where the driver stands after some of its phases: the clauses keep their literals and
   * bounds, every model over real variables is kept, and an idle store is left as it was.
   */
  ghost predicate Reached(cs0: seq<Klause>, ks0: seq<Klause>, cs: seq<Klause>, ks: seq<Klause>)
  {
    SameShape(cs, cs0) && Follows(cs0, ks0, cs, ks) && (Idle(cs0) ==> cs == cs0 && ks == ks0)
  }

  /** One more phase that keeps shape and models, and changes nothing when the input was idle, keeps Reached. */
  lemma ReachedStep(cs0: seq<Klause>, ks0: seq<Klause>, cs1: seq<Klause>, ks1: seq<Klause>, cs2: seq<Klause>, ks2: seq<Klause>)
    requires Reached(cs0, ks0, cs1, ks1) && SameShape(cs2, cs1) && Follows(cs1, ks1, cs2, ks2)
    requires Idle(cs0) ==> cs2 == cs1 && ks2 == ks1
    ensures Reached(cs0, ks0, cs2, ks2)
  {
    FollowsTrans(cs0, ks0, cs1, ks1, cs2, ks2);
    forall i | 0 <= i < |cs2| ensures cs2[i].lits == cs0[i].lits && cs2[i].bound == cs0[i].bound {
      assert cs2[i].lits == cs1[i].lits && cs2[i].bound == cs1[i].bound;
    }
  }

  /** One encoded engine, built, initialised and run on the extractor's store. */
  method RunEncoded(extractor: CnfExtractor, budget: nat, draws: seq<int>)
    requires ProperClauses(extractor.clauses)
    requires |draws| >= Ord.StartCount && forall t | 0 <= t < |draws| :: 0 <= draws[t] <= Ord.RandMax
    modifies extractor
    ensures SameShape(extractor.clauses, old(extractor.clauses)) && extractor.nvars == old(extractor.nvars)
    ensures Follows(old(extractor.clauses), old(extractor.klauses), extractor.clauses, extractor.klauses)
    ensures Clusters.NoEncoding(old(extractor.clauses), 2) ==>
              extractor.clauses == old(extractor.clauses) && extractor.klauses == old(extractor.klauses)
  {
    var engine := new EncodedAmo.EncodedAmoEngine(extractor);
    engine.Init(map[]);
    assert Clusters.NonZeroClauses(extractor.clauses) by {
      forall i | 0 <= i < |extractor.clauses| ensures NonZero(extractor.clauses[i].lits) { }
    }
    engine.Run(budget, draws);
    EncodedFollows(old(extractor.clauses), old(extractor.klauses), extractor.clauses, extractor.klauses);
  }

  /**
   * run_extraction_engines: the engines the options switch on, in the source's order. The
   * clauses keep their literals, the number of variables is kept, every model of the input
   * formula (over real variables) is a model of the formula left in the store, and what is
   * written is the KNF text of that store.
   */
  method RunExtractionEngines(extractor: CnfExtractor, opts: Options, draws: seq<int>, othersDraws: seq<int>)
      returns (knf: string)
    requires ProperClauses(extractor.clauses)
    requires |draws| >= Ord.StartCount && forall t | 0 <= t < |draws| :: 0 <= draws[t] <= Ord.RandMax
    requires |othersDraws| >= Ord.StartCount && forall t | 0 <= t < |othersDraws| :: 0 <= othersDraws[t] <= Ord.RandMax
    modifies extractor
    ensures SameShape(extractor.clauses, old(extractor.clauses)) && extractor.nvars == old(extractor.nvars)
    ensures Follows(old(extractor.clauses), old(extractor.klauses), extractor.clauses, extractor.klauses)
    ensures knf == if opts.writeKnf then KnfText(extractor.nvars, extractor.clauses, extractor.klauses) else ""
    ensures Idle(old(extractor.clauses)) ==>
              extractor.clauses == old(extractor.clauses) && extractor.klauses == old(extractor.klauses)
  {
    ghost var cs0, ks0 := extractor.clauses, extractor.klauses;
    var direct := new DirectAmo.DirectAmoEngine(extractor);
    DirectPhase(extractor, direct, opts.directAmo, opts.directBudget);
    ghost var cs1, ks1 := extractor.clauses, extractor.klauses;
    EncodedPhase(extractor, direct, opts.encodedAmo, opts.encodedBudget, draws);
    ReachedStep(cs0, ks0, cs1, ks1, extractor.clauses, extractor.klauses);
    ghost var cs2, ks2 := extractor.clauses, extractor.klauses;
    SmallPhase(extractor, direct, opts.directAmo && opts.directAmoSmall);
    ReachedStep(cs0, ks0, cs2, ks2, extractor.clauses, extractor.klauses);
    ghost var cs3, ks3 := extractor.clauses, extractor.klauses;
    EncodedPhase(extractor, direct, opts.encodedOthers, opts.encodedBudget, othersDraws);
    ReachedStep(cs0, ks0, cs3, ks3, extractor.clauses, extractor.klauses);
    knf := "";
    if opts.writeKnf {
      knf := extractor.WriteKnfFormula();
    }
  }

  /** The direct engine's run and clear_data, when switched on; the cliques it sets aside stay valid. */
  method DirectPhase(extractor: CnfExtractor, direct: DirectAmo.DirectAmoEngine, on: bool, budget: nat)
    requires direct.extractor == extractor && ProperClauses(extractor.clauses)
    requires direct.clauseIdMap == map[] && direct.edgeMap == map[]
    requires direct.smallCliqueLiterals == [] && direct.smallCliqueClauses == []
    modifies direct, extractor`klauses, extractor`clauses
    ensures ProperClauses(extractor.clauses)
    ensures DeferredValid(direct.smallCliqueLiterals, direct.smallCliqueClauses, extractor.clauses)
    ensures Reached(old(extractor.clauses), old(extractor.klauses), extractor.clauses, extractor.klauses)
    ensures Idle(old(extractor.clauses)) ==> direct.smallCliqueLiterals == []
  {
    if on {
      direct.Run(budget);
      direct.ClearData();
      EquivalentFollows(old(extractor.clauses), old(extractor.klauses), extractor.clauses, extractor.klauses);
      ProperShape(old(extractor.clauses), extractor.clauses);
    }
  }

  /** One encoded engine, when switched on; the cliques the direct engine set aside stay valid. */
  method EncodedPhase(extractor: CnfExtractor, direct: DirectAmo.DirectAmoEngine, on: bool, budget: nat, draws: seq<int>)
    requires ProperClauses(extractor.clauses)
    requires DeferredValid(direct.smallCliqueLiterals, direct.smallCliqueClauses, extractor.clauses)
    requires |draws| >= Ord.StartCount && forall t | 0 <= t < |draws| :: 0 <= draws[t] <= Ord.RandMax
    modifies extractor
    ensures ProperClauses(extractor.clauses) && extractor.nvars == old(extractor.nvars)
    ensures DeferredValid(direct.smallCliqueLiterals, direct.smallCliqueClauses, extractor.clauses)
    ensures SameShape(extractor.clauses, old(extractor.clauses))
    ensures Follows(old(extractor.clauses), old(extractor.klauses), extractor.clauses, extractor.klauses)
    ensures Clusters.NoEncoding(old(extractor.clauses), 2) ==>
              extractor.clauses == old(extractor.clauses) && extractor.klauses == old(extractor.klauses)
  {
    if on {
      RunEncoded(extractor, budget, draws);
      ProperShape(old(extractor.clauses), extractor.clauses);
      DeferredShape(direct.smallCliqueLiterals, direct.smallCliqueClauses, old(extractor.clauses), extractor.clauses);
    }
  }

  /** find_small_AMOs, when switched on; with no clique set aside it changes nothing. */
  method SmallPhase(extractor: CnfExtractor, direct: DirectAmo.DirectAmoEngine, on: bool)
    requires direct.extractor == extractor && ProperClauses(extractor.clauses)
    requires DeferredValid(direct.smallCliqueLiterals, direct.smallCliqueClauses, extractor.clauses)
    modifies direct`cliqueSet, direct`cliqueClauseIds, direct`stats, extractor`klauses, extractor`clauses
    ensures ProperClauses(extractor.clauses)
    ensures DeferredValid(direct.smallCliqueLiterals, direct.smallCliqueClauses, extractor.clauses)
    ensures SameShape(extractor.clauses, old(extractor.clauses))
    ensures Follows(old(extractor.clauses), old(extractor.klauses), extractor.clauses, extractor.klauses)
    ensures direct.smallCliqueLiterals == [] ==>
              extractor.clauses == old(extractor.clauses) && extractor.klauses == old(extractor.klauses)
  {
    if on {
      direct.FindSmallAmos();
      EquivalentFollows(old(extractor.clauses), old(extractor.klauses), extractor.clauses, extractor.klauses);
      ProperShape(old(extractor.clauses), extractor.clauses);
    }
  }
}

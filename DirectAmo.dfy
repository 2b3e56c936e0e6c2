/**
 * The direct at-most-one engine of cnf2knf (Extractor/cnf2knf/src/direct_AMO.hpp). Every live
 * binary clause (x, y) becomes an edge between -x and -y; cliques are grown greedily from the
 * least edge; a clique q of k literals, whose k(k-1)/2 binary clauses all sit in the store,
 * says "at most one of q", which is the klause "at least k - 1 of the negations of q". Cliques
 * of three or four are set aside and emitted later only if none of their clauses was consumed
 * in between.
 */
module DirectAmo {
  import opened Lits
  import opened Extractor
  import opened AmoGraph

  // ---------------------------------------------------------------- the engine

  class DirectAmoEngine {
    const extractor: CnfExtractor
    var reachedTimeout: bool
    var stats: Stats
    /** Key (a, b) to the id of the binary clause (-a, -b) or (-b, -a). */
    var clauseIdMap: map<Key, int>
    var edgeMap: map<int, set<int>>
    var cliqueSet: seq<int>
    var cliqueClauseIds: seq<int>
    var smallCliqueLiterals: seq<seq<int>>
    var smallCliqueClauses: seq<seq<int>>

    /** Extraction_engine's constructor: no timeout reached, nothing indexed or set aside. */
    constructor (extractor: CnfExtractor)
      ensures this.extractor == extractor && !reachedTimeout && stats == InitialStats
      ensures clauseIdMap == map[] && edgeMap == map[] && cliqueSet == [] && cliqueClauseIds == []
      ensures smallCliqueLiterals == [] && smallCliqueClauses == []
    {
      this.extractor := extractor;
      reachedTimeout := false;
      stats := InitialStats;
      clauseIdMap := map[];
      edgeMap := map[];
      cliqueSet := [];
      cliqueClauseIds := [];
      smallCliqueLiterals := [];
      smallCliqueClauses := [];
    }

    /**
     * The engine's invariant: the maps are consistent and index live clauses of a proper
     * store, and every clique set aside is justified by its clause ids.
     */
    predicate Valid()
      reads this, extractor
    {
      EngineInv(clauseIdMap, edgeMap, extractor.clauses, smallCliqueLiterals, smallCliqueClauses)
    }

    /** generate_maps: index every live binary clause under its key, as an edge both ways. */
    method GenerateMaps()
      requires clauseIdMap == map[] && edgeMap == map[]
      modifies this`clauseIdMap, this`edgeMap
      ensures clauseIdMap == IdIndex(extractor.clauses) && edgeMap == Adjacency(extractor.clauses)
    {
      var cs := extractor.clauses;
      for i := 0 to |cs|
        invariant clauseIdMap == IdIndex(cs[..i]) && edgeMap == Adjacency(cs[..i])
      {
        assert cs[..i + 1][..i] == cs[..i];
        if cs[i].deleted {
          continue;
        }
        if |cs[i].lits| != 2 {
          continue;
        }
        var l1, l2;
        if Abs(cs[i].lits[0]) < Abs(cs[i].lits[1]) {
          l1 := -cs[i].lits[0];
          l2 := -cs[i].lits[1];
        } else {
          l2 := -cs[i].lits[0];
          l1 := -cs[i].lits[1];
        }
        clauseIdMap := clauseIdMap[(l1, l2) := i];
        edgeMap := AddEdge(edgeMap, l1, l2);
        edgeMap := AddEdge(edgeMap, l2, l1);
      }
      assert cs[..|cs|] == cs;
    }

    /** remove_edge: the key (l1, l2) and its two adjacency entries go, and nothing else. */
    method RemoveEdge(l1: int, l2: int)
      requires Consistent(clauseIdMap, edgeMap) && (l1, l2) in clauseIdMap
      modifies this`clauseIdMap, this`edgeMap
      ensures clauseIdMap == old(clauseIdMap) - {(l1, l2)} && edgeMap == CutEdge(old(edgeMap), l1, l2)
      ensures Consistent(clauseIdMap, edgeMap) && Abs(l1) < Abs(l2)
      ensures |clauseIdMap| < |old(clauseIdMap)|
    {
      CutConsistent(clauseIdMap, edgeMap, l1, l2);
      KeysShrink(clauseIdMap, {(l1, l2)}, (l1, l2));
      clauseIdMap := clauseIdMap - {(l1, l2)};
      edgeMap := edgeMap[l1 := Neighbours(edgeMap, l1) - {l2}];
      edgeMap := edgeMap[l2 := Neighbours(edgeMap, l2) - {l1}];
    }

    /** The inner loop of expand_clique: olit is joined to every other member of taken. */
    method AdjacentToAll(olit: int, taken: set<int>) returns (joined: bool)
      ensures joined <==> forall c :: c in taken && c != olit ==> c in Neighbours(edgeMap, olit)
    {
      joined := true;
      var rest := taken;
      while rest != {}
        invariant rest <= taken
        invariant joined <==> forall c :: c in taken - rest && c != olit ==> c in Neighbours(edgeMap, olit)
        decreases |rest|
      {
        NonEmpty(rest);
        var clit :| clit in rest;
        if olit != clit && clit !in Neighbours(edgeMap, olit) {
          joined := false;
          break;
        }
        rest := rest - {clit};
      }
    }

    /**
     * expand_clique: starting from lit, take lit's neighbours in increasing order, each one
     * that is joined to every member taken so far; the result, sorted by variable, is a clique
     * of lit and its neighbours that no other neighbour extends.
     */
    method ExpandClique(lit: int)
      requires Consistent(clauseIdMap, edgeMap) && lit in edgeMap
      modifies this`cliqueSet
      ensures lit in cliqueSet && AbsSorted(cliqueSet) && Clique(edgeMap, cliqueSet)
      ensures forall x :: x in cliqueSet && x != lit ==> x in edgeMap[lit]
      ensures forall o :: o in edgeMap[lit] && o !in cliqueSet ==> Blocked(edgeMap, o, set x | x in cliqueSet)
      ensures edgeMap[lit] != {} ==> |cliqueSet| >= 2
    {
      var taken := GrowClique(lit);
      forall x, y | x in taken && y in taken && x != y ensures Abs(x) != Abs(y) {
        Adjacent(clauseIdMap, edgeMap, x, y);
      }
      cliqueSet := SortByAbs(taken);
      JoinedClique(edgeMap, taken, cliqueSet);
      if edgeMap[lit] != {} {
        var o :| o in taken && o != lit;
        TwoMembers(cliqueSet, o, lit);
      }
    }

    /** The loop of expand_clique, over lit's neighbours in increasing order. */
    method GrowClique(lit: int) returns (taken: set<int>)
      requires Consistent(clauseIdMap, edgeMap) && lit in edgeMap
      ensures lit in taken && taken - {lit} <= edgeMap[lit] && Joined(edgeMap, taken)
      ensures forall o :: o in edgeMap[lit] && o !in taken ==> Blocked(edgeMap, o, taken)
      ensures edgeMap[lit] != {} ==> exists o :: o in taken && o != lit
    {
      var nb := edgeMap[lit];
      taken := {lit};
      var todo := nb;
      if lit in todo {
        Adjacent(clauseIdMap, edgeMap, lit, lit);
      }
      while todo != {}
        invariant Growing(edgeMap, lit, nb, todo, taken)
        decreases |todo|
      {
        LeastElement(todo);
        var olit :| olit in todo && forall y :: y in todo ==> olit <= y;
        var joined := AdjacentToAll(olit, taken);
        GrowStep(clauseIdMap, edgeMap, lit, nb, todo, taken, olit, joined);
        if joined {
          taken := taken + {olit};
        }
        todo := todo - {olit};
      }
    }


    /**
     * find_clique_clauses: the id of each pair (q[i], q[j]), i < j, row by row, each of those
     * edges removed; the two loops over i and j are one loop over the pairs in that order.
     */
    method FindCliqueClauses()
      requires Consistent(clauseIdMap, edgeMap) && AbsSorted(cliqueSet) && Clique(edgeMap, cliqueSet)
      modifies this`cliqueClauseIds, this`clauseIdMap, this`edgeMap
      ensures PairsIndexed(old(clauseIdMap), cliqueSet)
      ensures cliqueClauseIds == Lookup(old(clauseIdMap), CliquePairs(cliqueSet))
      ensures clauseIdMap == RemoveAll(old(clauseIdMap), CliquePairs(cliqueSet))
      ensures edgeMap == CutAll(old(edgeMap), CliquePairs(cliqueSet))
      ensures Consistent(clauseIdMap, edgeMap)
    {
      CliquePairsPresent(clauseIdMap, edgeMap, cliqueSet);
      var ps := CliquePairs(cliqueSet);
      cliqueClauseIds := [];
      for t := 0 to |ps|
        invariant Consistent(clauseIdMap, edgeMap)
        invariant cliqueClauseIds == Lookup(old(clauseIdMap), ps[..t])
        invariant clauseIdMap == old(clauseIdMap) - KeySet(ps[..t])
        invariant edgeMap == CutAll(old(edgeMap), ps[..t])
      {
        var l1, l2 := ps[t].0, ps[t].1;
        RemovedStep(old(clauseIdMap), old(edgeMap), ps, t);
        cliqueClauseIds := cliqueClauseIds + [clauseIdMap[(l1, l2)]];
        RemoveEdge(l1, l2);
      }
      assert ps[..|ps|] == ps;
      RemoveAllKeys(old(clauseIdMap), ps);
    }

    /** emit_AMO: commit the negated clique with bound k - 1, consuming the clique's clauses, and count it. */
    method EmitAmo()
      requires extractor.ValidIds(cliqueClauseIds)
      modifies extractor`klauses, extractor`clauses, this`stats
      ensures extractor.klauses == old(extractor.klauses) + [AmoKlause(cliqueSet)]
      ensures extractor.clauses == MarkDeleted(old(extractor.clauses), cliqueClauseIds)
      ensures stats == old(stats).(nconstraints := old(stats).nconstraints + 1,
                                   constraintSizes := Bump(old(stats).constraintSizes, |cliqueSet|))
    {
      var csize := |cliqueSet| - 1;
      var lits := [];
      for i := 0 to |cliqueSet|
        invariant lits == Negate(cliqueSet[..i])
      {
        lits := lits + [-cliqueSet[i]];
      }
      assert cliqueSet[..|cliqueSet|] == cliqueSet;
      extractor.AddKlause(NewKlause(lits, csize), cliqueClauseIds);
      stats := stats.(nconstraints := stats.nconstraints + 1, constraintSizes := Bump(stats.constraintSizes, csize + 1));
    }

    /**
     * One iteration of run's loop: grow the clique of the least key's first literal; a clique
     * below three loses its first edge, one of three or four is set aside with its clause ids,
     * a larger one is emitted. The key map shrinks, and the store stands for the same formula.
     */
    method Step()
      requires Valid() && clauseIdMap != map[]
      modifies this`clauseIdMap, this`edgeMap, this`cliqueSet, this`cliqueClauseIds, this`stats
      modifies this`smallCliqueLiterals, this`smallCliqueClauses, extractor`klauses, extractor`clauses
      ensures Valid() && |clauseIdMap| < |old(clauseIdMap)|
      ensures SameShape(extractor.clauses, old(extractor.clauses))
      ensures Equivalent(extractor.clauses, extractor.klauses, old(extractor.clauses), old(extractor.klauses))
      ensures SaneGrowth(old(extractor.klauses), extractor.klauses)
    {
      LeastKey(clauseIdMap.Keys);
      var k :| k in clauseIdMap && forall k' :: k' in clauseIdMap ==> !PairLess(k', k);
      var l1 := k.0;
      assert k.1 in Neighbours(edgeMap, l1);
      ExpandClique(l1);
      HandleClique();
    }

    /**
     * The branch of run's loop on the clique's size: a clique of two loses its edge, one of
     * three or four is set aside, a larger one is emitted.
     */
    method HandleClique()
      requires Valid() && |cliqueSet| >= 2 && AbsSorted(cliqueSet) && Clique(edgeMap, cliqueSet)
      modifies this`clauseIdMap, this`edgeMap, this`cliqueClauseIds, this`stats
      modifies this`smallCliqueLiterals, this`smallCliqueClauses, extractor`klauses, extractor`clauses
      ensures Valid() && |clauseIdMap| < |old(clauseIdMap)|
      ensures SameShape(extractor.clauses, old(extractor.clauses))
      ensures Equivalent(extractor.clauses, extractor.klauses, old(extractor.clauses), old(extractor.klauses))
      ensures SaneGrowth(old(extractor.klauses), extractor.klauses)
    {
      if |cliqueSet| < 3 {
        DropEdge();
        KeepsFormula(extractor.clauses, extractor.klauses);
      } else if |cliqueSet| <= 4 {
        DeferClique();
        KeepsFormula(extractor.clauses, extractor.klauses);
      } else {
        EmitClique();
      }
    }

    /** A clique of two is not interesting: its edge goes. */
    method DropEdge()
      requires Valid() && |cliqueSet| == 2 && AbsSorted(cliqueSet) && Clique(edgeMap, cliqueSet)
      modifies this`clauseIdMap, this`edgeMap
      ensures Valid() && |clauseIdMap| < |old(clauseIdMap)|
    {
      ghost var m, e := clauseIdMap, edgeMap;
      PairKey(m, e, cliqueSet);
      RemoveEdge(cliqueSet[0], cliqueSet[1]);
      DropValid(m, e, edgeMap, extractor.clauses, smallCliqueLiterals, smallCliqueClauses, (cliqueSet[0], cliqueSet[1]));
    }

    /** The clique and its clause ids are set aside for find_small_AMOs. */
    method SetAside()
      modifies this`smallCliqueLiterals, this`smallCliqueClauses
      ensures smallCliqueLiterals == old(smallCliqueLiterals) + [cliqueSet]
      ensures smallCliqueClauses == old(smallCliqueClauses) + [cliqueClauseIds]
    {
      smallCliqueLiterals := smallCliqueLiterals + [cliqueSet];
      smallCliqueClauses := smallCliqueClauses + [cliqueClauseIds];
    }

    /**
     * A clique of three or four: its clause ids are collected and its edges go, and it is set
     * aside with its clause ids, to be emitted later only if none of those clauses is consumed.
     */
    method DeferClique()
      requires Valid() && 3 <= |cliqueSet| <= 4 && AbsSorted(cliqueSet) && Clique(edgeMap, cliqueSet)
      modifies this`clauseIdMap, this`edgeMap, this`cliqueClauseIds, this`smallCliqueLiterals, this`smallCliqueClauses
      ensures Valid() && |clauseIdMap| < |old(clauseIdMap)|
      ensures smallCliqueLiterals == old(smallCliqueLiterals) + [cliqueSet]
    {
      ghost var m, e := clauseIdMap, edgeMap;
      FindCliqueClauses();
      DeferValid(m, e, edgeMap, extractor.clauses, smallCliqueLiterals, smallCliqueClauses, cliqueSet);
      SetAside();
    }

    /**
     * The find_clique_clauses call for a clique of five or more: its clause ids are collected
     * and its edges go, which leaves the engine ready to commit its at-most-one klause.
     */
    method CollectLargeClique()
      requires Valid() && |cliqueSet| >= 5 && AbsSorted(cliqueSet) && Clique(edgeMap, cliqueSet)
      modifies this`clauseIdMap, this`edgeMap, this`cliqueClauseIds
      ensures |clauseIdMap| < |old(clauseIdMap)|
      ensures PendingEmit(clauseIdMap, edgeMap, extractor.clauses, extractor.klauses,
                          smallCliqueLiterals, smallCliqueClauses, cliqueSet, cliqueClauseIds)
    {
      ghost var m, e := clauseIdMap, edgeMap;
      FindCliqueClauses();
      EmitValid(m, e, edgeMap, extractor.clauses, extractor.klauses, smallCliqueLiterals, smallCliqueClauses, cliqueSet);
    }

    /**
     * A clique of five or more: its clause ids are collected and its edges go, and its
     * at-most-one klause is committed in place of its binary clauses.
     */
    method EmitClique()
      requires Valid() && |cliqueSet| >= 5 && AbsSorted(cliqueSet) && Clique(edgeMap, cliqueSet)
      modifies this`clauseIdMap, this`edgeMap, this`cliqueClauseIds, this`stats, extractor`klauses, extractor`clauses
      ensures Valid() && |clauseIdMap| < |old(clauseIdMap)|
      ensures SameShape(extractor.clauses, old(extractor.clauses))
      ensures Equivalent(extractor.clauses, extractor.klauses, old(extractor.clauses), old(extractor.klauses))
      ensures extractor.klauses == old(extractor.klauses) + [AmoKlause(cliqueSet)]
      ensures SaneGrowth(old(extractor.klauses), extractor.klauses)
    {
      CollectLargeClique();
      EmitAmo();
      AmoSane(old(extractor.klauses), cliqueSet);
    }

    /** generate_maps at the start of run: the maps it builds satisfy the invariant. */
    method IndexClauses()
      requires ProperClauses(extractor.clauses)
      requires clauseIdMap == map[] && edgeMap == map[] && smallCliqueLiterals == [] && smallCliqueClauses == []
      modifies this`clauseIdMap, this`edgeMap
      ensures Valid()
    {
      GenerateMaps();
      IndexConsistent(extractor.clauses);
      IndexSound(extractor.clauses);
    }

    /**
     * run: index the binary clauses, then take steps while keys remain and the clock allows;
     * budget is the number of iterations that start before the timeout has passed.
     */
    method Run(budget: nat)
      requires ProperClauses(extractor.clauses)
      requires clauseIdMap == map[] && edgeMap == map[] && smallCliqueLiterals == [] && smallCliqueClauses == []
      modifies this, extractor`klauses, extractor`clauses
      ensures Valid() && (clauseIdMap == map[] || reachedTimeout)
      ensures SameShape(extractor.clauses, old(extractor.clauses))
      ensures Equivalent(extractor.clauses, extractor.klauses, old(extractor.clauses), old(extractor.klauses))
      ensures SaneGrowth(old(extractor.klauses), extractor.klauses)
      ensures NoBinary(old(extractor.clauses)) ==>
                extractor.clauses == old(extractor.clauses) && extractor.klauses == old(extractor.klauses) &&
                smallCliqueLiterals == []
    {
      stats := InitialStats;
      IndexClauses();
      if NoBinary(extractor.clauses) {
        NoBinaryIndex(extractor.clauses);
      }
      Steps(budget);
    }

    /** run's loop: one step per iteration until no key is left or the budget is spent. */
    method Steps(budget: nat)
      requires Valid()
      modifies this`clauseIdMap, this`edgeMap, this`cliqueSet, this`cliqueClauseIds, this`stats, this`reachedTimeout
      modifies this`smallCliqueLiterals, this`smallCliqueClauses, extractor`klauses, extractor`clauses
      ensures Valid() && (clauseIdMap == map[] || reachedTimeout)
      ensures SameShape(extractor.clauses, old(extractor.clauses))
      ensures Equivalent(extractor.clauses, extractor.klauses, old(extractor.clauses), old(extractor.klauses))
      ensures SaneGrowth(old(extractor.klauses), extractor.klauses)
      ensures old(clauseIdMap) == map[] ==>
                extractor.clauses == old(extractor.clauses) && extractor.klauses == old(extractor.klauses) &&
                smallCliqueLiterals == old(smallCliqueLiterals)
    {
      ghost var cs, ks := extractor.clauses, extractor.klauses;
      var steps := 0;
      while clauseIdMap != map[]
        invariant Valid() && Holding(cs, ks, extractor.clauses, extractor.klauses)
        invariant old(clauseIdMap) == map[] ==>
                    clauseIdMap == map[] && extractor.clauses == cs && extractor.klauses == ks &&
                    smallCliqueLiterals == old(smallCliqueLiterals)
        decreases |clauseIdMap|
      {
        if steps >= budget {
          reachedTimeout := true;
          break;
        }
        ghost var cs1, ks1 := extractor.clauses, extractor.klauses;
        Step();
        HoldingTrans(cs, ks, cs1, ks1, extractor.clauses, extractor.klauses);
        steps := steps + 1;
      }
    }

    /** clear_data: the clause index and the graph are dropped; the cliques set aside stay. */
    method ClearData()
      modifies this`clauseIdMap, this`edgeMap
      ensures clauseIdMap == map[] && edgeMap == map[]
    {
      clauseIdMap := map[];
      edgeMap := map[];
    }

    /** The inner loop of find_small_AMOs: none of the listed clauses is deleted. */
    method AllPresent(ids: seq<int>) returns (present: bool)
      requires extractor.ValidIds(ids)
      ensures present <==> forall t :: 0 <= t < |ids| ==> !extractor.clauses[ids[t]].deleted
    {
      present := true;
      for t := 0 to |ids|
        invariant present <==> forall s :: 0 <= s < t ==> !extractor.clauses[ids[s]].deleted
      {
        if extractor.clauses[ids[t]].deleted {
          present := false;
          break;
        }
      }
    }

    /**
     * find_small_AMOs: each clique set aside is emitted if none of its clauses has been consumed
     * since; the store stands for the same formula, and every new klause is the at-most-one of
     * a clique set aside.
     */
    method FindSmallAmos()
      requires ProperClauses(extractor.clauses) && DeferredValid(smallCliqueLiterals, smallCliqueClauses, extractor.clauses)
      modifies this`cliqueSet, this`cliqueClauseIds, this`stats, extractor`klauses, extractor`clauses
      ensures SameShape(extractor.clauses, old(extractor.clauses))
      ensures Equivalent(extractor.clauses, extractor.klauses, old(extractor.clauses), old(extractor.klauses))
      ensures |extractor.klauses| >= |old(extractor.klauses)|
      ensures extractor.klauses[..|old(extractor.klauses)|] == old(extractor.klauses)
      ensures forall t :: |old(extractor.klauses)| <= t < |extractor.klauses| ==> Deferred(extractor.klauses[t])
      ensures SaneGrowth(old(extractor.klauses), extractor.klauses)
      ensures smallCliqueLiterals == [] ==>
                extractor.clauses == old(extractor.clauses) && extractor.klauses == old(extractor.klauses)
      ensures ProperClauses(extractor.clauses) && DeferredValid(smallCliqueLiterals, smallCliqueClauses, extractor.clauses)
    {
      for i := 0 to |smallCliqueLiterals|
        invariant ProperClauses(extractor.clauses) && DeferredValid(smallCliqueLiterals, smallCliqueClauses, extractor.clauses)
        invariant SameShape(extractor.clauses, old(extractor.clauses))
        invariant Equivalent(extractor.clauses, extractor.klauses, old(extractor.clauses), old(extractor.klauses))
        invariant |extractor.klauses| >= |old(extractor.klauses)|
        invariant extractor.klauses[..|old(extractor.klauses)|] == old(extractor.klauses)
        invariant forall t :: |old(extractor.klauses)| <= t < |extractor.klauses| ==> Deferred(extractor.klauses[t])
        invariant SaneGrowth(old(extractor.klauses), extractor.klauses)
        invariant smallCliqueLiterals == [] ==>
                    extractor.clauses == old(extractor.clauses) && extractor.klauses == old(extractor.klauses)
      {
        ghost var ks := extractor.klauses;
        TryDeferred(i);
        SaneGrowthTrans(old(extractor.klauses), ks, extractor.klauses);
        assert Deferred(AmoKlause(smallCliqueLiterals[i]));
      }
    }

    /** One iteration of find_small_AMOs: the i-th clique set aside is emitted iff its clauses are all live. */
    method TryDeferred(i: int)
      requires 0 <= i < |smallCliqueLiterals|
      requires ProperClauses(extractor.clauses) && DeferredValid(smallCliqueLiterals, smallCliqueClauses, extractor.clauses)
      modifies this`cliqueSet, this`cliqueClauseIds, this`stats, extractor`klauses, extractor`clauses
      ensures ProperClauses(extractor.clauses) && DeferredValid(smallCliqueLiterals, smallCliqueClauses, extractor.clauses)
      ensures SameShape(extractor.clauses, old(extractor.clauses))
      ensures Equivalent(extractor.clauses, extractor.klauses, old(extractor.clauses), old(extractor.klauses))
      ensures extractor.klauses == old(extractor.klauses) ||
              extractor.klauses == old(extractor.klauses) + [AmoKlause(smallCliqueLiterals[i])]
      ensures SaneGrowth(old(extractor.klauses), extractor.klauses)
    {
      DeferredAt(smallCliqueLiterals, smallCliqueClauses, extractor.clauses, i);
      cliqueSet := smallCliqueLiterals[i];
      cliqueClauseIds := smallCliqueClauses[i];
      var present := AllPresent(cliqueClauseIds);
      if present {
        ghost var cs, ks := extractor.clauses, extractor.klauses;
        EmitAmo();
        forall a ensures Holds(extractor.clauses, extractor.klauses, a) <==> Holds(cs, ks, a) {
          JustifiedMeaning(cliqueSet, cliqueClauseIds, cs, a);
          CommitEquivalent(cs, ks, AmoKlause(cliqueSet), cliqueClauseIds, a);
        }
        MarkDeletedShape(cs, cliqueClauseIds);
        ProperShape(cs, extractor.clauses);
        DeferredShape(smallCliqueLiterals, smallCliqueClauses, cs, extractor.clauses);
        AmoSane(ks, cliqueSet);
      }
    }

    /** A klause emitted from a clique set aside. */
    predicate Deferred(k: Klause)
      reads this
    {
      exists i :: 0 <= i < |smallCliqueLiterals| && k == AmoKlause(smallCliqueLiterals[i])
    }
  }

  /**
   * The store ds, ls still stands for the formula cs, ks: the clauses keep their literals and
   * bounds, the formula is the same, and only klauses of a sane bound were appended.
   */
  ghost predicate Holding(cs: seq<Klause>, ks: seq<Klause>, ds: seq<Klause>, ls: seq<Klause>)
  {
    SameShape(ds, cs) && Equivalent(ds, ls, cs, ks) && SaneGrowth(ks, ls)
  }

  lemma HoldingTrans(cs: seq<Klause>, ks: seq<Klause>, ds: seq<Klause>, ls: seq<Klause>, es: seq<Klause>, ms: seq<Klause>)
    requires Holding(cs, ks, ds, ls)
    requires SameShape(es, ds) && Equivalent(es, ms, ds, ls) && SaneGrowth(ls, ms)
    ensures Holding(cs, ks, es, ms)
  {
    SaneGrowthTrans(ks, ls, ms);
  }

  /** The at-most-one klause of a clique of two or more has a bound of at least one and below its size. */
  lemma AmoSane(ks: seq<Klause>, q: seq<int>)
    requires |q| >= 2
    ensures SaneGrowth(ks, ks + [AmoKlause(q)])
  {
    assert (ks + [AmoKlause(q)])[|ks|] == AmoKlause(q);
  }

  /** Appending sane klauses twice appends sane klauses. */
  lemma SaneGrowthTrans(ks0: seq<Klause>, ks1: seq<Klause>, ks2: seq<Klause>)
    requires SaneGrowth(ks0, ks1) && SaneGrowth(ks1, ks2)
    ensures SaneGrowth(ks0, ks2)
  {
    forall t | |ks0| <= t < |ks2| ensures 1 <= ks2[t].bound < |ks2[t].lits| {
      if t < |ks1| {
        assert ks2[t] == ks1[t];
      }
    }
  }

  /** A sequence holding two different values has at least two elements. */
  lemma TwoMembers(s: seq<int>, a: int, b: int)
    requires a in s && b in s && a != b
    ensures |s| >= 2
  {
    var i :| 0 <= i < |s| && s[i] == a;
    var j :| 0 <= j < |s| && s[j] == b;
    assert i != j;
  }
}

/**
 * The encoded at-most-one engine of cnf2knf (Extractor/cnf2knf/src/encoded_AMO.hpp). Variables
 * seen in both polarities among the live short clauses are encoding variables, the others seen
 * there problem variables. Repeatedly, a cluster is traced from one encoding variable through
 * the clauses that mention it; a cluster of admissible size is widened by the short clauses
 * among its variables, its variables are listed in order, and the cluster is handed to
 * validate_constraint. Every traced encoding variable leaves the map, so the engine stops.
 */
module EncodedAmo {
  import opened Lits
  import opened Extractor
  import opened Clusters
  import Ord = Ordering
  import AmoGraph

  class EncodedAmoEngine {
    const extractor: CnfExtractor
    var reachedTimeout: bool
    var stats: Stats
    var maxClauseSize: int
    var amo: bool
    var variablePolarityMap: map<int, Polarity>
    var encodingVariableMap: map<int, seq<int>>
    var problemVariableMap: map<int, seq<int>>
    var encodingVariableNotInCluster: bool
    var problemVariableSet: set<int>
    var encodingVariableSet: set<int>
    var clauseIdsSet: set<int>
    var problemVariables: seq<int>
    var encodingVariables: seq<int>

    /** Extraction_engine's constructor: no timeout reached, nothing classified yet. */
    constructor (extractor: CnfExtractor)
      ensures this.extractor == extractor && !reachedTimeout && stats == InitialStats
      ensures variablePolarityMap == map[] && encodingVariableMap == map[] && problemVariableMap == map[]
      ensures problemVariableSet == {} && encodingVariableSet == {} && clauseIdsSet == {}
      ensures problemVariables == [] && encodingVariables == []
    {
      this.extractor := extractor;
      reachedTimeout := false;
      stats := InitialStats;
      maxClauseSize := 2;
      amo := true;
      variablePolarityMap := map[];
      encodingVariableMap := map[];
      problemVariableMap := map[];
      encodingVariableNotInCluster := true;
      problemVariableSet := {};
      encodingVariableSet := {};
      clauseIdsSet := {};
      problemVariables := [];
      encodingVariables := [];
    }

    /** init: whatever the options say, clauses of up to two literals are classified, in at-most-one mode. */
    method Init(engineOptions: map<string, string>)
      modifies this`maxClauseSize, this`amo
      ensures maxClauseSize == 2 && amo
    {
      maxClauseSize := 2;
      amo := true;
    }

    // ------------------------------------------------------------ classification and the maps

    /** classify_variables: each literal of a live clause of at most maxClauseSize literals marks its variable's polarity. */
    method ClassifyVariables()
      requires variablePolarityMap == map[]
      modifies this`variablePolarityMap
      ensures variablePolarityMap == Classified(extractor.clauses, |extractor.clauses|, maxClauseSize)
    {
      var cs := extractor.clauses;
      for i := 0 to |cs|
        invariant variablePolarityMap == Classified(cs, i, maxClauseSize)
      {
        if cs[i].deleted {
          continue;
        }
        if |cs[i].lits| > maxClauseSize {
          continue;
        }
        var lits := cs[i].lits;
        for j := 0 to |lits|
          invariant variablePolarityMap == Mark(Classified(cs, i, maxClauseSize), lits[..j])
        {
          var v := Abs(lits[j]);
          var pos, neg := false, false;
          if v in variablePolarityMap {
            pos := variablePolarityMap[v].0;
            neg := variablePolarityMap[v].1;
          }
          if lits[j] < 0 {
            neg := true;
          } else {
            pos := true;
          }
          variablePolarityMap := variablePolarityMap[v := (pos, neg)];
          assert lits[..j + 1][..j] == lits[..j];
        }
        assert lits[..|lits|] == lits;
      }
    }

    /** The first loop of generate_maps: an empty list per classified variable, in the map its polarities choose. */
    method CreateEntries()
      requires encodingVariableMap == map[] && problemVariableMap == map[]
      modifies this`encodingVariableMap, this`problemVariableMap
      ensures forall v :: v in encodingVariableMap <==> Both(variablePolarityMap, v)
      ensures forall v :: v in problemVariableMap <==> v in variablePolarityMap && !Both(variablePolarityMap, v)
      ensures forall v :: v in encodingVariableMap ==> encodingVariableMap[v] == []
      ensures forall v :: v in problemVariableMap ==> problemVariableMap[v] == []
    {
      var rest := variablePolarityMap.Keys;
      while rest != {}
        invariant rest <= variablePolarityMap.Keys
        invariant forall v :: v in encodingVariableMap <==> Both(variablePolarityMap, v) && v !in rest
        invariant forall v :: v in problemVariableMap <==> v in variablePolarityMap && !Both(variablePolarityMap, v) && v !in rest
        invariant forall v :: v in encodingVariableMap ==> encodingVariableMap[v] == []
        invariant forall v :: v in problemVariableMap ==> problemVariableMap[v] == []
        decreases |rest|
      {
        NonEmpty(rest);
        var v :| v in rest;
        if variablePolarityMap[v].0 && variablePolarityMap[v].1 {
          encodingVariableMap := encodingVariableMap[v := []];
        } else {
          problemVariableMap := problemVariableMap[v := []];
        }
        rest := rest - {v};
      }
    }

    /** The second loop of generate_maps for clause i: its id goes on the list of each classified variable, once per literal. */
    method FileClause(i: int)
      requires 0 <= i < |extractor.clauses|
      requires forall v :: v in encodingVariableMap ==> v !in problemVariableMap
      modifies this`encodingVariableMap, this`problemVariableMap
      ensures forall v :: v in encodingVariableMap <==> v in old(encodingVariableMap)
      ensures forall v :: v in problemVariableMap <==> v in old(problemVariableMap)
      ensures forall v :: v in encodingVariableMap ==>
        encodingVariableMap[v] == old(encodingVariableMap[v]) + Hits(i, extractor.clauses[i].lits, v)
      ensures forall v :: v in problemVariableMap ==>
        problemVariableMap[v] == old(problemVariableMap[v]) + Hits(i, extractor.clauses[i].lits, v)
    {
      var lits := extractor.clauses[i].lits;
      for j := 0 to |lits|
        invariant forall v :: v in encodingVariableMap <==> v in old(encodingVariableMap)
        invariant forall v :: v in problemVariableMap <==> v in old(problemVariableMap)
        invariant forall v :: v in encodingVariableMap ==> encodingVariableMap[v] == old(encodingVariableMap[v]) + Hits(i, lits[..j], v)
        invariant forall v :: v in problemVariableMap ==> problemVariableMap[v] == old(problemVariableMap[v]) + Hits(i, lits[..j], v)
      {
        assert lits[..j + 1][..j] == lits[..j];
        var v := Abs(lits[j]);
        if v in encodingVariableMap {
          encodingVariableMap := encodingVariableMap[v := encodingVariableMap[v] + [i]];
        } else if v in problemVariableMap {
          problemVariableMap := problemVariableMap[v := problemVariableMap[v] + [i]];
        }
      }
      assert lits[..|lits|] == lits;
    }

    /** generate_maps: each classified variable's list holds the ids of the live clauses that mention it. */
    method GenerateMaps()
      requires encodingVariableMap == map[] && problemVariableMap == map[]
      modifies this`encodingVariableMap, this`problemVariableMap
      ensures forall v :: v in encodingVariableMap <==> Both(variablePolarityMap, v)
      ensures forall v :: v in problemVariableMap <==> v in variablePolarityMap && !Both(variablePolarityMap, v)
      ensures forall v :: v in encodingVariableMap ==> encodingVariableMap[v] == Occurrences(extractor.clauses, |extractor.clauses|, v)
      ensures forall v :: v in problemVariableMap ==> problemVariableMap[v] == Occurrences(extractor.clauses, |extractor.clauses|, v)
    {
      CreateEntries();
      var cs := extractor.clauses;
      ghost var em0, pm0 := encodingVariableMap, problemVariableMap;
      for i := 0 to |cs|
        invariant forall v :: v in encodingVariableMap <==> v in em0
        invariant forall v :: v in problemVariableMap <==> v in pm0
        invariant forall v :: v in encodingVariableMap ==> encodingVariableMap[v] == Occurrences(cs, i, v)
        invariant forall v :: v in problemVariableMap ==> problemVariableMap[v] == Occurrences(cs, i, v)
      {
        if cs[i].deleted {
          continue;
        }
        FileClause(i);
      }
    }

    // ------------------------------------------------------------ get_cluster

    /**
     * The literals of clause i, met while tracing ev: a new encoding variable is traced, a new
     * problem variable recorded; anything else is passed over.
     */
    method TraceClause(ev: int, i: int, trace: set<int>) returns (trace': set<int>)
      requires 0 <= i < |extractor.clauses| && ev in encodingVariableSet && encodingVariableNotInCluster
      requires forall v :: v in encodingVariableSet ==> v !in problemVariableMap
      requires forall v :: v in problemVariableSet ==> v !in encodingVariableMap
      requires forall v :: v in encodingVariableMap ==> v !in problemVariableMap
      modifies this`problemVariableSet, this`encodingVariableSet, this`encodingVariableNotInCluster
      ensures encodingVariableNotInCluster
      ensures forall v :: v in encodingVariableSet ==> v !in problemVariableMap
      ensures forall v :: v in problemVariableSet ==> v !in encodingVariableMap
      ensures old(encodingVariableSet) <= encodingVariableSet
      ensures forall v :: v in trace' <==> v in trace || (v in encodingVariableSet && v !in old(encodingVariableSet))
      ensures forall v :: v in encodingVariableSet && v !in old(encodingVariableSet) ==> v in encodingVariableMap
      ensures old(problemVariableSet) <= problemVariableSet
      ensures forall v :: v in problemVariableSet && v !in old(problemVariableSet) ==> v in problemVariableMap
      ensures forall v :: v in problemVariableSet + encodingVariableSet && v !in old(problemVariableSet) + old(encodingVariableSet) ==>
        Mentions(extractor.clauses[i], v)
      ensures forall j :: 0 <= j < |extractor.clauses[i].lits| ==>
        Placed(Abs(extractor.clauses[i].lits[j]), encodingVariableMap, problemVariableMap, encodingVariableSet, problemVariableSet)
    {
      var lits := extractor.clauses[i].lits;
      trace' := trace;
      for j := 0 to |lits|
        invariant encodingVariableNotInCluster
        invariant forall v :: v in encodingVariableSet ==> v !in problemVariableMap
        invariant forall v :: v in problemVariableSet ==> v !in encodingVariableMap
        invariant old(encodingVariableSet) <= encodingVariableSet
        invariant forall v :: v in trace' <==> v in trace || (v in encodingVariableSet && v !in old(encodingVariableSet))
        invariant forall v :: v in encodingVariableSet && v !in old(encodingVariableSet) ==> v in encodingVariableMap
        invariant old(problemVariableSet) <= problemVariableSet
        invariant forall v :: v in problemVariableSet && v !in old(problemVariableSet) ==> v in problemVariableMap
        invariant forall v :: v in problemVariableSet + encodingVariableSet && v !in old(problemVariableSet) + old(encodingVariableSet) ==>
          Mentions(extractor.clauses[i], v)
        invariant forall t :: 0 <= t < j ==> Placed(Abs(lits[t]), encodingVariableMap, problemVariableMap, encodingVariableSet, problemVariableSet)
      {
        var v := Abs(lits[j]);
        if v == ev || v in problemVariableSet || v in encodingVariableSet {
          continue;
        }
        assert Mentions(extractor.clauses[i], v);
        if v in encodingVariableMap {
          trace' := trace' + {v};
          encodingVariableSet := encodingVariableSet + {v};
        } else if v in problemVariableMap {
          problemVariableSet := problemVariableSet + {v};
        } else {
          // a variable outside both maps: the cluster is not closed, which the source records as true again
          encodingVariableNotInCluster := true;
        }
      }
    }

    /** The list of encoding variable ev: each clause joins the cluster and its literals are traced. */
    method TraceVariable(ev: int, trace: set<int>) returns (trace': set<int>)
      requires ev in encodingVariableMap && ev in encodingVariableSet
      requires Listed(extractor.clauses, ev, encodingVariableMap[ev]) && encodingVariableNotInCluster
      requires forall v :: v in encodingVariableSet ==> v !in problemVariableMap
      requires forall v :: v in problemVariableSet ==> v !in encodingVariableMap
      requires forall v :: v in encodingVariableMap ==> v !in problemVariableMap
      modifies this`problemVariableSet, this`encodingVariableSet, this`clauseIdsSet, this`encodingVariableNotInCluster
      ensures encodingVariableNotInCluster
      ensures forall v :: v in encodingVariableSet ==> v !in problemVariableMap
      ensures forall v :: v in problemVariableSet ==> v !in encodingVariableMap
      ensures forall x :: x in clauseIdsSet <==> x in old(clauseIdsSet) || x in encodingVariableMap[ev]
      ensures old(encodingVariableSet) <= encodingVariableSet
      ensures forall v :: v in trace' <==> v in trace || (v in encodingVariableSet && v !in old(encodingVariableSet))
      ensures forall v :: v in encodingVariableSet && v !in old(encodingVariableSet) ==> v in encodingVariableMap
      ensures old(problemVariableSet) <= problemVariableSet
      ensures forall v :: v in problemVariableSet && v !in old(problemVariableSet) ==> v in problemVariableMap
      ensures forall v :: v in problemVariableSet + encodingVariableSet && v !in old(problemVariableSet) + old(encodingVariableSet) ==>
        MentionedIn(extractor.clauses, clauseIdsSet, v)
      ensures forall k, j :: 0 <= k < |encodingVariableMap[ev]| && 0 <= j < |extractor.clauses[encodingVariableMap[ev][k]].lits| ==>
        Placed(Abs(extractor.clauses[encodingVariableMap[ev][k]].lits[j]), encodingVariableMap, problemVariableMap, encodingVariableSet, problemVariableSet)
    {
      var ids := encodingVariableMap[ev];
      var cs := extractor.clauses;
      trace' := trace;
      for t := 0 to |ids|
        invariant encodingVariableNotInCluster
        invariant forall v :: v in encodingVariableSet ==> v !in problemVariableMap
        invariant forall v :: v in problemVariableSet ==> v !in encodingVariableMap
        invariant forall x :: x in clauseIdsSet <==> x in old(clauseIdsSet) || x in ids[..t]
        invariant old(encodingVariableSet) <= encodingVariableSet
        invariant forall v :: v in trace' <==> v in trace || (v in encodingVariableSet && v !in old(encodingVariableSet))
        invariant forall v :: v in encodingVariableSet && v !in old(encodingVariableSet) ==> v in encodingVariableMap
        invariant old(problemVariableSet) <= problemVariableSet
        invariant forall v :: v in problemVariableSet && v !in old(problemVariableSet) ==> v in problemVariableMap
        invariant forall v :: v in problemVariableSet + encodingVariableSet && v !in old(problemVariableSet) + old(encodingVariableSet) ==>
          MentionedIn(cs, clauseIdsSet, v)
        invariant forall k, j :: 0 <= k < t && 0 <= j < |cs[ids[k]].lits| ==>
          Placed(Abs(cs[ids[k]].lits[j]), encodingVariableMap, problemVariableMap, encodingVariableSet, problemVariableSet)
      {
        assert ids[..t + 1] == ids[..t] + [ids[t]];
        ghost var c0 := clauseIdsSet;
        clauseIdsSet := clauseIdsSet + {ids[t]};
        ghost var p0, e0 := problemVariableSet, encodingVariableSet;
        trace' := TraceClause(ev, ids[t], trace');
        forall v | v in problemVariableSet + encodingVariableSet && v !in old(problemVariableSet) + old(encodingVariableSet)
          ensures MentionedIn(cs, clauseIdsSet, v)
        {
          if v in p0 + e0 {
            assert v in p0 + e0 && v !in old(problemVariableSet) + old(encodingVariableSet);
            var i :| i in c0 && 0 <= i < |cs| && Mentions(cs[i], v);
            assert i in clauseIdsSet;
          } else {
            assert ids[t] in clauseIdsSet && Mentions(cs[ids[t]], v);
          }
        }
      }
      assert ids[..|ids|] == ids;
    }
      /**
     * get_cluster: starting from some encoding variable, every encoding variable met in the
     * clauses of a traced one is traced in turn (least first) and leaves the map; the cluster
     * is the clauses listed under the traced variables and the problem variables met there.
     */
    method GetCluster()
      requires Indexed(encodingVariableMap, problemVariableMap, extractor.clauses) && encodingVariableMap != map[]
      modifies this`encodingVariableMap, this`problemVariableSet, this`encodingVariableSet, this`clauseIdsSet, this`encodingVariableNotInCluster
      ensures encodingVariableNotInCluster
      ensures forall v :: v in encodingVariableSet ==> v !in problemVariableMap
      ensures forall v :: v in problemVariableSet ==> v !in encodingVariableMap
      ensures encodingVariableSet != {} && forall v :: v in encodingVariableSet ==> v in old(encodingVariableMap)
      ensures forall v :: v in encodingVariableMap <==> v in old(encodingVariableMap) && v !in encodingVariableSet
      ensures forall v :: v in encodingVariableMap ==> encodingVariableMap[v] == old(encodingVariableMap)[v]
      ensures (forall v :: v in problemVariableSet ==> v in problemVariableMap) && problemVariableSet !! encodingVariableSet
      ensures LiveIds(extractor.clauses, clauseIdsSet)
      ensures AllListed(old(encodingVariableMap), encodingVariableSet, clauseIdsSet)
      ensures Closed(extractor.clauses, clauseIdsSet, encodingVariableMap, problemVariableMap, encodingVariableSet, problemVariableSet)
      ensures Covered(extractor.clauses, clauseIdsSet, problemVariableSet + encodingVariableSet)
    {
      ghost var em0 := encodingVariableMap;
      var cs := extractor.clauses;
      encodingVariableNotInCluster := true;
      problemVariableSet := {};
      encodingVariableSet := {};
      clauseIdsSet := {};
      NonEmpty(encodingVariableMap.Keys);
      var v0 :| v0 in encodingVariableMap;
      var trace := {v0};
      ghost var done: set<int> := {};
      encodingVariableSet := {v0};
      while trace != {}
        invariant encodingVariableNotInCluster && v0 in encodingVariableSet
        invariant TracingSets(em0, problemVariableMap, encodingVariableMap, problemVariableSet, encodingVariableSet, trace, done)
        invariant TracingClauses(cs, em0, problemVariableMap, encodingVariableMap, problemVariableSet, encodingVariableSet, clauseIdsSet, trace, done)
        decreases |encodingVariableMap|
      {
        LeastExists(trace);
        var ev :| ev in trace && forall y :: y in trace ==> ev <= y;
        ghost var p0, e0, c0, t0 := problemVariableSet, encodingVariableSet, clauseIdsSet, trace;
        trace := TraceVariable(ev, trace - {ev});
        assert ev in em0 && em0[ev] != [] && Listed(cs, ev, em0[ev]);
        TraceStep(cs, em0, problemVariableMap, encodingVariableMap, p0, e0, c0, t0, done, ev,
                  problemVariableSet, encodingVariableSet, clauseIdsSet, trace);
        TraceSetsStep(em0, problemVariableMap, encodingVariableMap, p0, e0, t0, done, ev, problemVariableSet, encodingVariableSet, trace);
        ShrinkKeys(encodingVariableMap, encodingVariableMap - {ev}, ev);
        encodingVariableMap := encodingVariableMap - {ev};
        done := done + {ev};
      }
    }
      // ------------------------------------------------------------ admission

    /**
     * The filters run applies to a traced cluster before expanding it. An admitted cluster has
     * at least three problem variables, at most 900 variables in all (the range normalize_cluster
     * numbers from 1), and in AMO mode at most three encoding variables per problem variable.
     */
    method Admit() returns (admitted: bool)
      ensures admitted <==> encodingVariableNotInCluster && Admissible(|problemVariableSet|, |encodingVariableSet|, amo)
      ensures admitted ==> 3 <= |problemVariableSet| && |problemVariableSet| + |encodingVariableSet| <= 900
      ensures admitted && amo ==> |problemVariableSet| + |encodingVariableSet| <= 4 * |problemVariableSet|
    {
      var np, ne := |problemVariableSet|, |encodingVariableSet|;
      if !encodingVariableNotInCluster || np < 3 {
        return false;
      }
      if np > 300 {
        return false;
      }
      if ne > 600 {
        return false;
      }
      if amo && ne > 3 * np {
        return false;
      }
      if !amo && 2 * ne > np * np {
        return false;
      }
      if np > 10 && 3 * ne < np {
        return false;
      }
      return true;
    }

    // ------------------------------------------------------------ expand_cluster

    /** The inner check of expand_cluster: every variable of the clause is a variable of the cluster. */
    method InCluster(lits: seq<int>) returns (inCluster: bool)
      ensures inCluster <==> forall j :: 0 <= j < |lits| ==> Abs(lits[j]) in problemVariableSet || Abs(lits[j]) in encodingVariableSet
    {
      inCluster := true;
      for j := 0 to |lits|
        invariant inCluster <==> forall t :: 0 <= t < j ==> Abs(lits[t]) in problemVariableSet || Abs(lits[t]) in encodingVariableSet
      {
        var v := Abs(lits[j]);
        if v !in problemVariableSet && v !in encodingVariableSet {
          inCluster := false;
          break;
        }
      }
    }

    /** The clauses listed under problem variable pv that expand_cluster adds: live, at most two literals, all over the cluster's variables. */
    method ExpandVariable(pv: int)
      requires pv in problemVariableMap && InRange(extractor.clauses, problemVariableMap[pv])
      modifies this`clauseIdsSet
      ensures forall i :: i in clauseIdsSet <==>
        i in old(clauseIdsSet) || (i in problemVariableMap[pv] && Eligible(extractor.clauses, i, problemVariableSet, encodingVariableSet))
    {
      var ids := problemVariableMap[pv];
      var cs := extractor.clauses;
      for t := 0 to |ids|
        invariant forall i :: i in clauseIdsSet <==>
          i in old(clauseIdsSet) || (i in ids[..t] && Eligible(cs, i, problemVariableSet, encodingVariableSet))
      {
        assert ids[..t + 1] == ids[..t] + [ids[t]];
        var i := ids[t];
        if cs[i].deleted {
          continue;
        }
        if |cs[i].lits| > 2 {
          continue;
        }
        var inCluster := InCluster(cs[i].lits);
        if inCluster {
          clauseIdsSet := clauseIdsSet + {i};
        }
      }
      assert ids[..|ids|] == ids;
    }

    /** expand_cluster: the cluster takes every eligible clause listed under one of its problem variables, visited in order. */
    method ExpandCluster()
      requires forall v :: v in problemVariableSet ==> v in problemVariableMap && InRange(extractor.clauses, problemVariableMap[v])
      modifies this`clauseIdsSet
      ensures forall i :: i in clauseIdsSet <==>
        i in old(clauseIdsSet) ||
        ExpandsFrom(extractor.clauses, problemVariableMap, problemVariableSet, problemVariableSet, encodingVariableSet, i)
    {
      var ps := SortedElements(problemVariableSet);
      ghost var q: set<int> := {};
      for t := 0 to |ps|
        invariant forall x :: x in q <==> x in ps[..t]
        invariant forall i :: i in clauseIdsSet <==>
          i in old(clauseIdsSet) ||
          ExpandsFrom(extractor.clauses, problemVariableMap, q, problemVariableSet, encodingVariableSet, i)
      {
        assert ps[..t + 1] == ps[..t] + [ps[t]];
        assert ps[t] in ps;
        ExpandVariable(ps[t]);
        forall i ensures ExpandsFrom(extractor.clauses, problemVariableMap, q + {ps[t]}, problemVariableSet, encodingVariableSet, i) <==>
          ExpandsFrom(extractor.clauses, problemVariableMap, q, problemVariableSet, encodingVariableSet, i) ||
          (i in problemVariableMap[ps[t]] && Eligible(extractor.clauses, i, problemVariableSet, encodingVariableSet))
        {
          ExpandsStep(extractor.clauses, problemVariableMap, q, ps[t], problemVariableSet, encodingVariableSet, i);
        }
        q := q + {ps[t]};
      }
      assert ps[..|ps|] == ps;
      assert q == problemVariableSet by {
        forall x ensures x in q <==> x in problemVariableSet {
          assert x in ps <==> x in Sorted(problemVariableSet);
        }
      }
    }

    // ------------------------------------------------------------ normalize_cluster

    /**
     * normalize_cluster: the literals of the cluster's clauses, in ascending id order, are
     * scanned by Place; the lists and what is left of the two sets are where the scan stops.
     * An empty cluster is refused before the scan.
     */
    method NormalizeCluster() returns (normalized: bool)
      requires LiveIds(extractor.clauses, clauseIdsSet)
      modifies this`problemVariables, this`encodingVariables, this`problemVariableSet, this`encodingVariableSet
      ensures InRange(extractor.clauses, Sorted(clauseIdsSet))
      ensures clauseIdsSet == {} ==>
        (!normalized && problemVariables == [] && encodingVariables == [] &&
         problemVariableSet == old(problemVariableSet) && encodingVariableSet == old(encodingVariableSet))
      ensures clauseIdsSet != {} ==>
        var r := Place(Flatten(extractor.clauses, Sorted(clauseIdsSet)), old(problemVariableSet), old(encodingVariableSet), [], []);
        normalized == r.done && problemVariables == r.problem && encodingVariables == r.encoding &&
        problemVariableSet == r.restP && encodingVariableSet == r.restE
    {
      SortedInRange(extractor.clauses, clauseIdsSet);
      problemVariables := [];
      encodingVariables := [];
      if clauseIdsSet == {} {
        return false;
      }
      var ids := SortedElements(clauseIdsSet);
      normalized := ScanClauses(ids);
    }

    /** The scan of normalize_cluster over the listed clauses, starting from empty lists. */
    method ScanClauses(ids: seq<int>) returns (normalized: bool)
      requires InRange(extractor.clauses, ids) && problemVariables == [] && encodingVariables == []
      modifies this`problemVariables, this`encodingVariables, this`problemVariableSet, this`encodingVariableSet
      ensures var r := Place(Flatten(extractor.clauses, ids), old(problemVariableSet), old(encodingVariableSet), [], []);
        normalized == r.done && problemVariables == r.problem && encodingVariables == r.encoding &&
        problemVariableSet == r.restP && encodingVariableSet == r.restE
    {
      var cs := extractor.clauses;
      ghost var goal := Place(Flatten(cs, ids), problemVariableSet, encodingVariableSet, [], []);
      for t := 0 to |ids|
        invariant Place(Flatten(cs, ids[t..]), problemVariableSet, encodingVariableSet, problemVariables, encodingVariables) == goal
      {
        var lits := cs[ids[t]].lits;
        assert Flatten(cs, ids[t..]) == lits + Flatten(cs, ids[t + 1..]) by {
          assert ids[t..][1..] == ids[t + 1..];
        }
        assert lits[0..] + Flatten(cs, ids[t + 1..]) == Flatten(cs, ids[t..]);
        for j := 0 to |lits|
          invariant Place(lits[j..] + Flatten(cs, ids[t + 1..]), problemVariableSet, encodingVariableSet, problemVariables, encodingVariables) == goal
        {
          ghost var rest := lits[j..] + Flatten(cs, ids[t + 1..]);
          assert rest[0] == lits[j] && rest[1..] == lits[j + 1..] + Flatten(cs, ids[t + 1..]);
          var v := Abs(lits[j]);
          if v in problemVariableSet {
            problemVariables := problemVariables + [v];
            problemVariableSet := problemVariableSet - {v};
          } else if v in encodingVariableSet {
            encodingVariables := encodingVariables + [v];
            encodingVariableSet := encodingVariableSet - {v};
          } else if v !in problemVariables && v !in encodingVariables {
            return false;
          }
        }
        assert lits[|lits|..] + Flatten(cs, ids[t + 1..]) == Flatten(cs, ids[t + 1..]);
      }
      assert ids[|ids|..] == [];
      return true;
    }

    // ------------------------------------------------------------ commit

    /** The statistics of one validated constraint: its size, and its encoding variables as eliminated. */
    method RecordConstraint()
      modifies this`stats
      ensures stats == old(stats).(nconstraints := old(stats).nconstraints + 1,
                                   constraintSizes := AmoGraph.Bump(old(stats).constraintSizes, |problemVariables|),
                                   eliminated := old(stats).eliminated + encodingVariables)
    {
      var csize := |problemVariables|;
      stats := stats.(nconstraints := stats.nconstraints + 1, constraintSizes := AmoGraph.Bump(stats.constraintSizes, csize));
      for t := 0 to |encodingVariables|
        invariant stats == old(stats).(nconstraints := old(stats).nconstraints + 1,
                                       constraintSizes := AmoGraph.Bump(old(stats).constraintSizes, csize),
                                       eliminated := old(stats).eliminated + encodingVariables[..t])
      {
        assert encodingVariables[..t + 1] == encodingVariables[..t] + [encodingVariables[t]];
        stats := stats.(eliminated := stats.eliminated + [encodingVariables[t]]);
      }
      assert encodingVariables[..|encodingVariables|] == encodingVariables;
    }

    /**
     * The tail of one iteration of run, after expansion: normalize the cluster and, when that
     * gets through, hand it to validate_constraint; a validated cluster's clauses are consumed,
     * which leaves the index of the encoding variables still waiting intact.
     */
    method Commit(draws: seq<int>)
      requires Indexed(encodingVariableMap, problemVariableMap, extractor.clauses)
      requires forall v :: v in encodingVariableMap ==> v !in encodingVariableSet
      requires forall v :: v in problemVariableSet ==> v in problemVariableMap
      requires problemVariableSet !! encodingVariableSet
      requires LiveIds(extractor.clauses, clauseIdsSet) && Covered(extractor.clauses, clauseIdsSet, problemVariableSet + encodingVariableSet)
      requires |draws| >= Ord.StartCount && forall t | 0 <= t < |draws| :: 0 <= draws[t] <= Ord.RandMax
      modifies this`problemVariables, this`encodingVariables, this`problemVariableSet, this`encodingVariableSet, this`stats, extractor
      ensures Indexed(encodingVariableMap, problemVariableMap, extractor.clauses)
      ensures AmoGraph.SameShape(extractor.clauses, old(extractor.clauses)) && extractor.nvars == old(extractor.nvars)
      ensures old(extractor.klauses) <= extractor.klauses
      ensures stats.nconstraints - old(stats.nconstraints) == extractor.stats.successes - old(extractor.stats.successes)
      ensures Retired(old(extractor.clauses), extractor.clauses)
      ensures Implied(old(extractor.clauses), extractor.klauses[|old(extractor.klauses)|..])
    {
      var cs := extractor.clauses;
      ghost var p, e := problemVariableSet, encodingVariableSet;
      NormalizedCluster(cs, clauseIdsSet, p, e);
      var normalized := NormalizeCluster();
      if normalized {
        Validate(p + e, draws);
      }
    }

    /**
     * The validation step of run for a normalized cluster whose clauses are all over vars, the
     * variables of the two lists: a validated cluster's clauses are consumed and the constraint
     * is recorded.
     */
    method Validate(ghost vars: set<int>, draws: seq<int>)
      requires Indexed(encodingVariableMap, problemVariableMap, extractor.clauses)
      requires forall v :: v in encodingVariableMap ==> v !in vars
      requires LiveIds(extractor.clauses, clauseIdsSet)
      requires forall i, j :: i in clauseIdsSet && 0 <= i < |extractor.clauses| && 0 <= j < |extractor.clauses[i].lits| ==>
        Abs(extractor.clauses[i].lits[j]) in vars
      requires forall v :: v in vars ==> v in problemVariables || v in encodingVariables
      requires |draws| >= Ord.StartCount && forall t | 0 <= t < |draws| :: 0 <= draws[t] <= Ord.RandMax
      modifies this`stats, extractor
      ensures Indexed(encodingVariableMap, problemVariableMap, extractor.clauses)
      ensures AmoGraph.SameShape(extractor.clauses, old(extractor.clauses)) && extractor.nvars == old(extractor.nvars)
      ensures old(extractor.klauses) <= extractor.klauses
      ensures stats.nconstraints - old(stats.nconstraints) == extractor.stats.successes - old(extractor.stats.successes)
      ensures Retired(old(extractor.clauses), extractor.clauses)
      ensures Implied(old(extractor.clauses), extractor.klauses[|old(extractor.klauses)|..])
    {
      var cs := extractor.clauses;
      var ids := SortedElements(clauseIdsSet);
      ClusterCandidates(cs, clauseIdsSet, problemVariables + encodingVariables);
      var validated := extractor.ValidateConstraint(problemVariables, encodingVariables, ids, draws);
      if validated {
        forall t, j | 0 <= t < |ids| && 0 <= ids[t] < |cs| && 0 <= j < |cs[ids[t]].lits| ensures Abs(cs[ids[t]].lits[j]) in vars {
          assert ids[t] in ids;
        }
        StillIndexed(encodingVariableMap, problemVariableMap, cs, ids, vars);
        AmoGraph.MarkDeletedShape(cs, ids);
        RecordConstraint();
      }
    }
      // ------------------------------------------------------------ run

    /**
     * One iteration of run's loop: trace a cluster, which takes its encoding variables out of
     * the map, and, when the filters admit it, expand, normalize and validate it.
     */
    method Step(draws: seq<int>)
      requires Indexed(encodingVariableMap, problemVariableMap, extractor.clauses) && encodingVariableMap != map[]
      requires |draws| >= Ord.StartCount && forall t | 0 <= t < |draws| :: 0 <= draws[t] <= Ord.RandMax
      modifies this`encodingVariableMap, this`problemVariableSet, this`encodingVariableSet, this`clauseIdsSet
      modifies this`encodingVariableNotInCluster, this`problemVariables, this`encodingVariables, this`stats, extractor
      ensures Indexed(encodingVariableMap, problemVariableMap, extractor.clauses)
      ensures |encodingVariableMap| < |old(encodingVariableMap)|
      ensures AmoGraph.SameShape(extractor.clauses, old(extractor.clauses)) && extractor.nvars == old(extractor.nvars)
      ensures old(extractor.klauses) <= extractor.klauses
      ensures stats.nconstraints - old(stats.nconstraints) == extractor.stats.successes - old(extractor.stats.successes)
      ensures Retired(old(extractor.clauses), extractor.clauses)
      ensures Implied(old(extractor.clauses), extractor.klauses[|old(extractor.klauses)|..])
    {
      GetCluster();
      NonEmpty(encodingVariableSet);
      var v :| v in encodingVariableSet;
      ShrinkKeys(old(encodingVariableMap), encodingVariableMap, v);
      IndexedShrink(old(encodingVariableMap), encodingVariableMap, problemVariableMap, extractor.clauses);
      TraceCluster(draws);
    }

    /** The rest of one iteration: a cluster that passes the size checks is expanded and committed. */
    method TraceCluster(draws: seq<int>)
      requires Indexed(encodingVariableMap, problemVariableMap, extractor.clauses)
      requires forall v :: v in encodingVariableMap ==> v !in encodingVariableSet
      requires (forall v :: v in problemVariableSet ==> v in problemVariableMap) && problemVariableSet !! encodingVariableSet
      requires LiveIds(extractor.clauses, clauseIdsSet) && Covered(extractor.clauses, clauseIdsSet, problemVariableSet + encodingVariableSet)
      requires |draws| >= Ord.StartCount && forall t | 0 <= t < |draws| :: 0 <= draws[t] <= Ord.RandMax
      modifies this`problemVariables, this`encodingVariables, this`problemVariableSet, this`encodingVariableSet
      modifies this`clauseIdsSet, this`stats, extractor
      ensures Indexed(encodingVariableMap, problemVariableMap, extractor.clauses)
      ensures AmoGraph.SameShape(extractor.clauses, old(extractor.clauses)) && extractor.nvars == old(extractor.nvars)
      ensures old(extractor.klauses) <= extractor.klauses
      ensures stats.nconstraints - old(stats.nconstraints) == extractor.stats.successes - old(extractor.stats.successes)
      ensures Retired(old(extractor.clauses), extractor.clauses)
      ensures Implied(old(extractor.clauses), extractor.klauses[|old(extractor.klauses)|..])
    {
      var admitted := Admit();
      if !admitted {
        return;
      }
      ghost var c0 := clauseIdsSet;
      ExpandCluster();
      ExpandedLive(extractor.clauses, problemVariableMap, c0, clauseIdsSet, problemVariableSet, encodingVariableSet);
      CoveredMono(extractor.clauses, c0, clauseIdsSet, problemVariableSet + encodingVariableSet);
      Commit(draws);
    }

    /**
     * run: classify, build the maps, then trace clusters until no encoding variable is left;
     * budget bounds the number of iterations, standing for the timeout. The clauses keep their
     * literals (only deletion marks change), klauses are only appended, and each recorded
     * constraint is one validated by the extractor.
     */
    method Run(budget: nat, draws: seq<int>)
      requires NonZeroClauses(extractor.clauses)
      requires variablePolarityMap == map[] && encodingVariableMap == map[] && problemVariableMap == map[]
      requires |draws| >= Ord.StartCount && forall t | 0 <= t < |draws| :: 0 <= draws[t] <= Ord.RandMax
      modifies this, extractor
      ensures encodingVariableMap == map[] || reachedTimeout
      ensures AmoGraph.SameShape(extractor.clauses, old(extractor.clauses)) && extractor.nvars == old(extractor.nvars)
      ensures old(extractor.klauses) <= extractor.klauses
      ensures stats.nconstraints == extractor.stats.successes - old(extractor.stats.successes)
      ensures Retired(old(extractor.clauses), extractor.clauses)
      ensures Implied(old(extractor.clauses), extractor.klauses[|old(extractor.klauses)|..])
      ensures NoEncoding(old(extractor.clauses), old(maxClauseSize)) ==>
                extractor.clauses == old(extractor.clauses) && extractor.klauses == old(extractor.klauses)
    {
      stats := InitialStats;
      ClassifyVariables();
      GenerateMaps();
      MapsIndexed(extractor.clauses, maxClauseSize, encodingVariableMap, problemVariableMap);
      ghost var idle := NoEncoding(extractor.clauses, maxClauseSize);
      if idle {
        NoEncodingClassified(extractor.clauses, maxClauseSize);
        assert encodingVariableMap == map[] by {
          forall v ensures v !in encodingVariableMap { }
        }
      }
      var steps := 0;
      while encodingVariableMap != map[]
        invariant idle ==> encodingVariableMap == map[] &&
                           extractor.clauses == old(extractor.clauses) && extractor.klauses == old(extractor.klauses)
        invariant Indexed(encodingVariableMap, problemVariableMap, extractor.clauses)
        invariant AmoGraph.SameShape(extractor.clauses, old(extractor.clauses)) && extractor.nvars == old(extractor.nvars)
        invariant old(extractor.klauses) <= extractor.klauses
        invariant stats.nconstraints == extractor.stats.successes - old(extractor.stats.successes)
        invariant Retired(old(extractor.clauses), extractor.clauses)
        invariant Implied(old(extractor.clauses), extractor.klauses[|old(extractor.klauses)|..])
        decreases |encodingVariableMap|
      {
        if steps >= budget {
          reachedTimeout := true;
          break;
        }
        ghost var cs, ks := extractor.clauses, extractor.klauses;
        Step(draws);
        ImpliedChain(old(extractor.clauses), cs, ks[|old(extractor.klauses)|..], extractor.klauses[|ks|..]);
        assert extractor.klauses[|old(extractor.klauses)|..] == ks[|old(extractor.klauses)|..] + extractor.klauses[|ks|..];
        RetiredTrans(old(extractor.clauses), cs, extractor.clauses);
        steps := steps + 1;
      }
    }
  }
}

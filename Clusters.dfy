/**
 * What the encoded at-most-one engine of cnf2knf (Extractor/cnf2knf/src/encoded_AMO.hpp) computes,
 * as specification functions. A variable that occurs in both polarities among the live short
 * clauses is an encoding variable, every other variable seen there a problem variable; a
 * cluster is what a worklist reaches from one encoding variable through the clauses that
 * mention it; normalisation lists the cluster's variables in the order the sorted clause ids
 * first mention them. The engine itself is in module EncodedAmo.
 */
module Clusters {
  import opened Lits
  import opened Extractor

  // ---------------------------------------------------------------- classification

  /** A variable's entry in the polarity map: (seen positive, seen negative). */
  type Polarity = (bool, bool)

  /** The clauses classify_variables looks at: live, with at most max literals. */
  predicate Small(c: Klause, max: int) { !c.deleted && |c.lits| <= max }

  /** No clause of the store holds the literal 0. */
  predicate NonZeroClauses(cs: seq<Klause>) { forall i :: 0 <= i < |cs| ==> NonZero(cs[i].lits) }

  /** One literal into the polarity map: its variable is marked in the literal's sign. */
  function MarkLit(pol: map<int, Polarity>, lit: int): map<int, Polarity>
  {
    var was := if Abs(lit) in pol then pol[Abs(lit)] else (false, false);
    pol[Abs(lit) := if lit < 0 then (was.0, true) else (true, was.1)]
  }

  /** The literals of one clause into the polarity map, in order. */
  function Mark(pol: map<int, Polarity>, lits: seq<int>): map<int, Polarity>
  {
    if lits == [] then pol else MarkLit(Mark(pol, lits[..|lits| - 1]), lits[|lits| - 1])
  }

  /** The polarity map after the first n clauses. */
  function Classified(cs: seq<Klause>, n: nat, max: int): map<int, Polarity>
    requires n <= |cs|
  {
    if n == 0 then map[]
    else if Small(cs[n - 1], max) then Mark(Classified(cs, n - 1, max), cs[n - 1].lits)
    else Classified(cs, n - 1, max)
  }

  predicate Positive(pol: map<int, Polarity>, v: int) { v in pol && pol[v].0 }
  predicate Negative(pol: map<int, Polarity>, v: int) { v in pol && pol[v].1 }

  /** An encoding variable: seen in both polarities. */
  predicate Both(pol: map<int, Polarity>, v: int) { v in pol && pol[v].0 && pol[v].1 }

  /** One of the first n clauses that classification looks at holds the literal. */
  predicate Occurs(cs: seq<Klause>, n: nat, max: int, lit: int)
    requires n <= |cs|
  {
    exists i :: 0 <= i < n && Small(cs[i], max) && lit in cs[i].lits
  }

  lemma OccursStep(cs: seq<Klause>, n: nat, max: int, lit: int)
    requires 0 < n <= |cs|
    ensures Occurs(cs, n, max, lit) <==> Occurs(cs, n - 1, max, lit) || (Small(cs[n - 1], max) && lit in cs[n - 1].lits)
  {
    if Occurs(cs, n, max, lit) {
      var i :| 0 <= i < n && Small(cs[i], max) && lit in cs[i].lits;
      if i < n - 1 {
        assert Occurs(cs, n - 1, max, lit);
      }
    }
  }

  /** Marking records exactly the variables of the literals, each in the signs it appears with. */
  lemma {:induction false} MarkMeaning(pol: map<int, Polarity>, lits: seq<int>, v: int)
    requires NonZero(lits)
    ensures v <= 0 ==> (v in Mark(pol, lits) <==> v in pol)
    ensures v > 0 ==> (v in Mark(pol, lits) <==> v in pol || v in lits || -v in lits)
    ensures v > 0 ==> (Positive(Mark(pol, lits), v) <==> Positive(pol, v) || v in lits)
    ensures v > 0 ==> (Negative(Mark(pol, lits), v) <==> Negative(pol, v) || -v in lits)
    decreases |lits|
  {
    if lits != [] {
      var init, last := lits[..|lits| - 1], lits[|lits| - 1];
      assert lits == init + [last];
      assert NonZero(init) by {
        forall i | 0 <= i < |init| ensures init[i] != 0 {
          assert init[i] == lits[i];
        }
      }
      MarkMeaning(pol, init, v);
    }
  }

  /**
   * classify_variables' map: a variable is a key exactly when some live clause of at most max
   * literals mentions it, marked positive (negative) exactly when such a clause holds it
   * positively (negatively).
   */
  lemma {:induction false} ClassifiedMeaning(cs: seq<Klause>, n: nat, max: int, v: int)
    requires n <= |cs| && NonZeroClauses(cs)
    ensures v <= 0 ==> v !in Classified(cs, n, max)
    ensures v > 0 ==> (v in Classified(cs, n, max) <==> Occurs(cs, n, max, v) || Occurs(cs, n, max, -v))
    ensures v > 0 ==> (Positive(Classified(cs, n, max), v) <==> Occurs(cs, n, max, v))
    ensures v > 0 ==> (Negative(Classified(cs, n, max), v) <==> Occurs(cs, n, max, -v))
  {
    if n > 0 {
      ClassifiedMeaning(cs, n - 1, max, v);
      OccursStep(cs, n, max, v);
      OccursStep(cs, n, max, -v);
      if Small(cs[n - 1], max) {
        MarkMeaning(Classified(cs, n - 1, max), cs[n - 1].lits, v);
      }
    }
  }

  /**
   * No variable is seen in both signs among the live clauses of at most max literals, so
   * classify_variables finds no encoding variable.
   */
  ghost predicate NoEncoding(cs: seq<Klause>, max: int)
  {
    forall v :: v > 0 && Occurs(cs, |cs|, max, v) ==> !Occurs(cs, |cs|, max, -v)
  }

  /** Over such a store the polarity map marks no variable both ways. */
  lemma NoEncodingClassified(cs: seq<Klause>, max: int)
    requires NonZeroClauses(cs) && NoEncoding(cs, max)
    ensures forall v :: !Both(Classified(cs, |cs|, max), v)
  {
    forall v ensures !Both(Classified(cs, |cs|, max), v) {
      ClassifiedMeaning(cs, |cs|, max, v);
    }
  }

  // ---------------------------------------------------------------- the variable maps

  /** Clause c has a literal over variable v. */
  predicate Mentions(c: Klause, v: int) { exists j :: 0 <= j < |c.lits| && Abs(c.lits[j]) == v }

  /** Clause id i, once per literal over v among lits. */
  function Hits(i: int, lits: seq<int>, v: int): seq<int>
  {
    if lits == [] then [] else Hits(i, lits[..|lits| - 1], v) + (if Abs(lits[|lits| - 1]) == v then [i] else [])
  }

  /** The list generate_maps files under v after the first n clauses. */
  function Occurrences(cs: seq<Klause>, n: nat, v: int): seq<int>
    requires n <= |cs|
  {
    if n == 0 then [] else Occurrences(cs, n - 1, v) + (if cs[n - 1].deleted then [] else Hits(n - 1, cs[n - 1].lits, v))
  }

  lemma {:induction false} HitsMeaning(i: int, lits: seq<int>, v: int)
    ensures forall k :: 0 <= k < |Hits(i, lits, v)| ==> Hits(i, lits, v)[k] == i
    ensures Hits(i, lits, v) != [] <==> exists j :: 0 <= j < |lits| && Abs(lits[j]) == v
    decreases |lits|
  {
    if lits != [] {
      var init := lits[..|lits| - 1];
      HitsMeaning(i, init, v);
      if exists j :: 0 <= j < |init| && Abs(init[j]) == v {
        var j :| 0 <= j < |init| && Abs(init[j]) == v;
        assert lits[j] == init[j];
      }
      if exists j :: 0 <= j < |lits| && Abs(lits[j]) == v {
        var j :| 0 <= j < |lits| && Abs(lits[j]) == v;
        if j < |lits| - 1 {
          assert init[j] == lits[j];
        }
      }
    }
  }

  /** generate_maps' list for v holds, in ascending order, ids of live clauses that mention v. */
  lemma {:induction false} OccurrencesSound(cs: seq<Klause>, n: nat, v: int)
    requires n <= |cs|
    ensures forall k :: 0 <= k < |Occurrences(cs, n, v)| ==>
      0 <= Occurrences(cs, n, v)[k] < n && !cs[Occurrences(cs, n, v)[k]].deleted && Mentions(cs[Occurrences(cs, n, v)[k]], v)
    ensures forall k, l :: 0 <= k < l < |Occurrences(cs, n, v)| ==> Occurrences(cs, n, v)[k] <= Occurrences(cs, n, v)[l]
  {
    if n > 0 {
      OccurrencesSound(cs, n - 1, v);
      var prev := Occurrences(cs, n - 1, v);
      var hits := if cs[n - 1].deleted then [] else Hits(n - 1, cs[n - 1].lits, v);
      HitsMeaning(n - 1, cs[n - 1].lits, v);
      var occ := Occurrences(cs, n, v);
      assert occ == prev + hits;
      forall k | 0 <= k < |occ|
        ensures 0 <= occ[k] < n && !cs[occ[k]].deleted && Mentions(cs[occ[k]], v)
      {
        if k >= |prev| {
          assert occ[k] == hits[k - |prev|] == n - 1;
          var j :| 0 <= j < |cs[n - 1].lits| && Abs(cs[n - 1].lits[j]) == v;
        }
      }
    }
  }

  /** Every live clause among the first n that mentions v is on generate_maps' list for v. */
  lemma {:induction false} OccurrencesComplete(cs: seq<Klause>, n: nat, v: int)
    requires n <= |cs|
    ensures forall i :: 0 <= i < n && !cs[i].deleted && Mentions(cs[i], v) ==> i in Occurrences(cs, n, v)
  {
    if n > 0 {
      OccurrencesComplete(cs, n - 1, v);
      var prev := Occurrences(cs, n - 1, v);
      var hits := if cs[n - 1].deleted then [] else Hits(n - 1, cs[n - 1].lits, v);
      HitsMeaning(n - 1, cs[n - 1].lits, v);
      var occ := Occurrences(cs, n, v);
      assert occ == prev + hits;
      forall i | 0 <= i < n && !cs[i].deleted && Mentions(cs[i], v) ensures i in occ {
        if i == n - 1 {
          assert hits[0] == n - 1;
        } else {
          assert i in prev;
        }
      }
    }
  }

  // ---------------------------------------------------------------- the engine's index

  /** Every listed id names a live clause that mentions v. */
  predicate Listed(cs: seq<Klause>, v: int, ids: seq<int>)
  {
    forall k :: 0 <= k < |ids| ==> 0 <= ids[k] < |cs| && !cs[ids[k]].deleted && Mentions(cs[ids[k]], v)
  }

  predicate InRange(cs: seq<Klause>, ids: seq<int>) { forall k :: 0 <= k < |ids| ==> 0 <= ids[k] < |cs| }

  /**
   * What the run loop keeps of the two maps: their keys are disjoint, each encoding variable
   * still waiting lists at least one clause, and only live clauses that mention it.
   */
  predicate Indexed(em: map<int, seq<int>>, pm: map<int, seq<int>>, cs: seq<Klause>)
  {
    NonZeroClauses(cs) &&
    (forall v :: v in em ==> v !in pm && em[v] != [] && Listed(cs, v, em[v])) &&
    (forall v :: v in pm ==> InRange(cs, pm[v]))
  }

  /** An encoding variable's list is not empty and names live clauses that mention it. */
  lemma EncodingListed(cs: seq<Klause>, max: int, v: int)
    requires NonZeroClauses(cs) && Both(Classified(cs, |cs|, max), v)
    ensures Occurrences(cs, |cs|, v) != [] && Listed(cs, v, Occurrences(cs, |cs|, v))
  {
    ClassifiedMeaning(cs, |cs|, max, v);
    OccurrencesSound(cs, |cs|, v);
    OccurrencesComplete(cs, |cs|, v);
    var i :| 0 <= i < |cs| && Small(cs[i], max) && v in cs[i].lits;
    var j :| 0 <= j < |cs[i].lits| && cs[i].lits[j] == v;
    assert Mentions(cs[i], v);
  }

  /** The maps generate_maps builds are the engine's index. */
  lemma MapsIndexed(cs: seq<Klause>, max: int, em: map<int, seq<int>>, pm: map<int, seq<int>>)
    requires NonZeroClauses(cs)
    requires forall v :: v in em <==> Both(Classified(cs, |cs|, max), v)
    requires forall v :: v in pm <==> v in Classified(cs, |cs|, max) && !Both(Classified(cs, |cs|, max), v)
    requires forall v :: v in em ==> em[v] == Occurrences(cs, |cs|, v)
    requires forall v :: v in pm ==> pm[v] == Occurrences(cs, |cs|, v)
    ensures Indexed(em, pm, cs)
  {
    forall v | v in em ensures em[v] != [] && Listed(cs, v, em[v]) {
      EncodingListed(cs, max, v);
    }
    forall v | v in pm ensures InRange(cs, pm[v]) {
      OccurrencesSound(cs, |cs|, v);
    }
  }

  // ---------------------------------------------------------------- clusters

  /** The listed ids name live clauses. */
  predicate LiveIds(cs: seq<Klause>, c: set<int>) { forall i :: i in c ==> 0 <= i < |cs| && !cs[i].deleted }

  /** Some clause of the id set mentions v. */
  predicate MentionedIn(cs: seq<Klause>, c: set<int>, v: int)
  {
    exists i :: i in c && 0 <= i < |cs| && Mentions(cs[i], v)
  }

  /** Every variable of s is mentioned by a clause of the id set. */
  predicate Covered(cs: seq<Klause>, c: set<int>, s: set<int>) { forall v :: v in s ==> MentionedIn(cs, c, v) }

  lemma CoveredMono(cs: seq<Klause>, c: set<int>, d: set<int>, s: set<int>)
    requires Covered(cs, c, s) && c <= d
    ensures Covered(cs, d, s)
  {
    forall v | v in s ensures MentionedIn(cs, d, v) {
      var i :| i in c && 0 <= i < |cs| && Mentions(cs[i], v);
      assert i in d;
    }
  }

  /** A variable met in a cluster's clause was traced when it is an encoding variable, recorded when a problem variable. */
  predicate Placed(v: int, em: map<int, seq<int>>, pm: map<int, seq<int>>, e: set<int>, p: set<int>)
  {
    (v in em ==> v in e) && (v in pm ==> v in p)
  }

  /** The cluster is closed: no clause of it leads to a classified variable outside it. */
  predicate Closed(cs: seq<Klause>, c: set<int>, em: map<int, seq<int>>, pm: map<int, seq<int>>, e: set<int>, p: set<int>)
  {
    forall i, j :: i in c && 0 <= i < |cs| && 0 <= j < |cs[i].lits| ==> Placed(Abs(cs[i].lits[j]), em, pm, e, p)
  }

  /** Every clause on the list of an encoding variable of e is in the id set. */
  predicate AllListed(em: map<int, seq<int>>, e: set<int>, c: set<int>)
  {
    forall v, k :: v in e && v in em && 0 <= k < |em[v]| ==> em[v][k] in c
  }

  /**
   * Halfway through get_cluster, the variables: the traced encoding variables are done (and out
   * of the map), those still to trace are waiting in trace, and the problem variables met are
   * classified ones.
   */
  ghost predicate TracingSets(em0: map<int, seq<int>>, pm: map<int, seq<int>>, em: map<int, seq<int>>,
                              p: set<int>, e: set<int>, trace: set<int>, done: set<int>)
  {
    (forall v :: v in e <==> v in done || v in trace) &&
    (forall v :: v in trace ==> v !in done) &&
    (forall v :: v in e ==> v in em0) &&
    (forall v :: v in em <==> v in em0 && v !in done) &&
    (forall v :: v in em ==> em[v] == em0[v]) &&
    (forall v :: v in p ==> v in pm)
  }

  /**
   * Halfway through get_cluster, the clauses: they are live, every clause listed under a done
   * variable is among them, every variable met in them is placed, and every variable of the
   * cluster that is not waiting in trace is mentioned by one of them.
   */
  ghost predicate TracingClauses(cs: seq<Klause>, em0: map<int, seq<int>>, pm: map<int, seq<int>>, em: map<int, seq<int>>,
                                 p: set<int>, e: set<int>, c: set<int>, trace: set<int>, done: set<int>)
  {
    LiveIds(cs, c) &&
    AllListed(em0, done, c) &&
    Closed(cs, c, em, pm, e, p) &&
    (forall v :: v in p + e ==> v in trace || MentionedIn(cs, c, v))
  }

  /** The clauses listed under ev join the cluster: they are live, listed under a done variable, and all of ev's are in. */
  lemma TraceListed(cs: seq<Klause>, em0: map<int, seq<int>>, done: set<int>, c: set<int>, c': set<int>, ev: int)
    requires ev in em0 && Listed(cs, ev, em0[ev])
    requires LiveIds(cs, c) && AllListed(em0, done, c)
    requires forall x :: x in c' <==> x in c || x in em0[ev]
    ensures LiveIds(cs, c') && AllListed(em0, done + {ev}, c')
    ensures c <= c'
  {
    forall i | i in c' ensures 0 <= i < |cs| && !cs[i].deleted {
      if i !in c {
        var k :| 0 <= k < |em0[ev]| && em0[ev][k] == i;
      }
    }
    forall i | i in c ensures i in c' {
    }
    forall v, k | v in done + {ev} && v in em0 && 0 <= k < |em0[v]| ensures em0[v][k] in c' {
      if v != ev {
        assert v in done;
        assert em0[v][k] in c;
      } else {
        assert em0[ev][k] in em0[ev];
      }
    }
  }

  /** Every variable met in the joined clauses is placed, and erasing ev from the map keeps the rest placed. */
  lemma TraceClosed(cs: seq<Klause>, em: map<int, seq<int>>, pm: map<int, seq<int>>,
                    p: set<int>, e: set<int>, c: set<int>, ev: int, p': set<int>, e': set<int>, c': set<int>)
    requires ev in em && Listed(cs, ev, em[ev]) && Closed(cs, c, em, pm, e, p) && e <= e' && p <= p'
    requires forall x :: x in c' <==> x in c || x in em[ev]
    requires forall k, j :: 0 <= k < |em[ev]| && 0 <= j < |cs[em[ev][k]].lits| ==>
      Placed(Abs(cs[em[ev][k]].lits[j]), em, pm, e', p')
    ensures Closed(cs, c', em - {ev}, pm, e', p')
  {
    forall i, j | i in c' && 0 <= i < |cs| && 0 <= j < |cs[i].lits| ensures Placed(Abs(cs[i].lits[j]), em - {ev}, pm, e', p') {
      if i !in c {
        var k :| 0 <= k < |em[ev]| && em[ev][k] == i;
      } else {
        assert Placed(Abs(cs[i].lits[j]), em, pm, e, p);
      }
    }
  }

  /** Once traced, ev is mentioned by the first clause of its list; the other variables keep their witnesses. */
  lemma TraceCovered(cs: seq<Klause>, em0: map<int, seq<int>>, p: set<int>, e: set<int>, c: set<int>, trace: set<int>, ev: int,
                     p': set<int>, e': set<int>, c': set<int>, trace': set<int>)
    requires ev in em0 && em0[ev] != [] && Listed(cs, ev, em0[ev])
    requires forall v :: v in p + e ==> v in trace || MentionedIn(cs, c, v)
    requires c <= c' && AllListed(em0, {ev}, c')
    requires forall v :: v in trace' <==> (v in trace && v != ev) || (v in e' && v !in e)
    requires forall v :: v in p' + e' && v !in p + e ==> MentionedIn(cs, c', v)
    ensures forall v :: v in p' + e' ==> v in trace' || MentionedIn(cs, c', v)
  {
    forall v | v in p' + e' ensures v in trace' || MentionedIn(cs, c', v) {
      if v in p + e && v !in trace' {
        if v == ev {
          assert em0[ev][0] in c' && Mentions(cs[em0[ev][0]], ev);
        } else {
          var i :| i in c && 0 <= i < |cs| && Mentions(cs[i], v);
          assert i in c';
        }
      }
    }
  }

  /** Tracing the least waiting variable ev, as get_cluster's inner loops do, and erasing it keeps the picture. */
  lemma TraceStep(cs: seq<Klause>, em0: map<int, seq<int>>, pm: map<int, seq<int>>, em: map<int, seq<int>>,
                  p: set<int>, e: set<int>, c: set<int>, trace: set<int>, done: set<int>, ev: int,
                  p': set<int>, e': set<int>, c': set<int>, trace': set<int>)
    requires TracingSets(em0, pm, em, p, e, trace, done) && TracingClauses(cs, em0, pm, em, p, e, c, trace, done)
    requires ev in trace && em0[ev] != [] && Listed(cs, ev, em0[ev])
    requires forall x :: x in c' <==> x in c || x in em[ev]
    requires forall v :: v in trace' <==> (v in trace && v != ev) || (v in e' && v !in e)
    requires e <= e' && p <= p'
    requires forall v :: v in p' + e' && v !in p + e ==> MentionedIn(cs, c', v)
    requires forall k, j :: 0 <= k < |em[ev]| && 0 <= j < |cs[em[ev][k]].lits| ==>
      Placed(Abs(cs[em[ev][k]].lits[j]), em, pm, e', p')
    ensures TracingClauses(cs, em0, pm, em - {ev}, p', e', c', trace', done + {ev})
  {
    assert ev in em && em[ev] == em0[ev];
    TraceListed(cs, em0, done, c, c', ev);
    TraceClosed(cs, em, pm, p, e, c, ev, p', e', c');
    TraceCovered(cs, em0, p, e, c, trace, ev, p', e', c', trace');
  }

  /** The same step, for the variables. */
  lemma TraceSetsStep(em0: map<int, seq<int>>, pm: map<int, seq<int>>, em: map<int, seq<int>>,
                      p: set<int>, e: set<int>, trace: set<int>, done: set<int>, ev: int,
                      p': set<int>, e': set<int>, trace': set<int>)
    requires TracingSets(em0, pm, em, p, e, trace, done) && ev in trace
    requires forall v :: v in trace' <==> (v in trace && v != ev) || (v in e' && v !in e)
    requires e <= e' && (forall v :: v in e' && v !in e ==> v in em)
    requires p <= p' && (forall v :: v in p' && v !in p ==> v in pm)
    ensures TracingSets(em0, pm, em - {ev}, p', e', trace', done + {ev})
  {
  }

  // ---------------------------------------------------------------- admission and expansion

  /** The sizes run admits, |P| problem and |E| encoding variables (AMO mode or not). */
  predicate Admissible(p: int, e: int, amo: bool)
  {
    3 <= p <= 300 && e <= 600 &&
    (amo ==> e <= 3 * p) &&
    (!amo ==> 2 * e <= p * p) &&
    (p > 10 ==> 3 * e >= p)
  }

  /** expand_cluster takes clause i: live, at most two literals, all over the cluster's variables. */
  predicate Eligible(cs: seq<Klause>, i: int, p: set<int>, e: set<int>)
  {
    0 <= i < |cs| && !cs[i].deleted && |cs[i].lits| <= 2 &&
    forall j :: 0 <= j < |cs[i].lits| ==> Abs(cs[i].lits[j]) in p || Abs(cs[i].lits[j]) in e
  }

  /** Clause i is an eligible clause on the list of one of the problem variables of q. */
  predicate ExpandsFrom(cs: seq<Klause>, pm: map<int, seq<int>>, q: set<int>, p: set<int>, e: set<int>, i: int)
  {
    exists v :: v in q && v in pm && i in pm[v] && Eligible(cs, i, p, e)
  }

  lemma ExpandsStep(cs: seq<Klause>, pm: map<int, seq<int>>, q: set<int>, v: int, p: set<int>, e: set<int>, i: int)
    requires v in pm
    ensures ExpandsFrom(cs, pm, q + {v}, p, e, i) <==> ExpandsFrom(cs, pm, q, p, e, i) || (i in pm[v] && Eligible(cs, i, p, e))
  {
    if ExpandsFrom(cs, pm, q + {v}, p, e, i) {
      var u :| u in q + {v} && u in pm && i in pm[u] && Eligible(cs, i, p, e);
      if u != v {
        assert ExpandsFrom(cs, pm, q, p, e, i);
      }
    }
    if i in pm[v] && Eligible(cs, i, p, e) {
      assert v in q + {v};
    }
  }

  // ---------------------------------------------------------------- normalisation

  /** The variables of a literal list. */
  function Vars(lits: seq<int>): set<int> { set j | 0 <= j < |lits| :: Abs(lits[j]) }

  lemma VarsCons(lits: seq<int>)
    requires lits != []
    ensures Vars(lits) == {Abs(lits[0])} + Vars(lits[1..])
  {
    var rest := lits[1..];
    forall x | x in Vars(lits) ensures x in {Abs(lits[0])} + Vars(rest) {
      var j :| 0 <= j < |lits| && Abs(lits[j]) == x;
      if j > 0 {
        assert rest[j - 1] == lits[j];
      }
    }
    forall x | x in Vars(rest) ensures x in Vars(lits) {
      var j :| 0 <= j < |rest| && Abs(rest[j]) == x;
      assert lits[j + 1] == rest[j];
    }
    assert Abs(lits[0]) in Vars(lits);
  }

  /** The literals of the listed clauses, one clause after the other. */
  function Flatten(cs: seq<Klause>, ids: seq<int>): seq<int>
    requires InRange(cs, ids)
  {
    if ids == [] then [] else cs[ids[0]].lits + Flatten(cs, ids[1..])
  }

  /** Every variable of a listed clause is a variable of the flattened literals. */
  lemma {:induction false} FlattenVars(cs: seq<Klause>, ids: seq<int>, t: int, j: int)
    requires InRange(cs, ids) && 0 <= t < |ids| && 0 <= j < |cs[ids[t]].lits|
    ensures Abs(cs[ids[t]].lits[j]) in Vars(Flatten(cs, ids))
    decreases t
  {
    var head, rest := cs[ids[0]].lits, Flatten(cs, ids[1..]);
    var f := Flatten(cs, ids);
    assert f == head + rest;
    if t == 0 {
      assert f[j] == head[j];
    } else {
      assert ids[1..][t - 1] == ids[t];
      FlattenVars(cs, ids[1..], t - 1, j);
      var j' :| 0 <= j' < |rest| && Abs(rest[j']) == Abs(cs[ids[t]].lits[j]);
      assert f[|head| + j'] == rest[j'];
    }
  }

  /** Where normalize_cluster stops: whether it got through, the two lists, and what is left of the two sets. */
  datatype Placement = Placement(done: bool, problem: seq<int>, encoding: seq<int>, restP: set<int>, restE: set<int>)

  /**
   * normalize_cluster's scan: each variable is moved from its set to the end of its list the
   * first time it is met, a variable already listed is passed over, and one in neither set nor
   * list stops the scan.
   */
  function Place(lits: seq<int>, p: set<int>, e: set<int>, pl: seq<int>, el: seq<int>): Placement
    decreases |lits|
  {
    if lits == [] then Placement(true, pl, el, p, e)
    else
      var v := Abs(lits[0]);
      if v in p then Place(lits[1..], p - {v}, e, pl + [v], el)
      else if v in e then Place(lits[1..], p, e - {v}, pl, el + [v])
      else if v in pl || v in el then Place(lits[1..], p, e, pl, el)
      else Placement(false, pl, el, p, e)
  }

  /** The two sets and the two lists have no variable in common, and each list is duplicate-free. */
  predicate Apart(p: set<int>, e: set<int>, pl: seq<int>, el: seq<int>)
  {
    Distinct(pl) && Distinct(el) && p !! e &&
    (forall x :: x in pl ==> x !in p && x !in e && x !in el) &&
    (forall x :: x in el ==> x !in p && x !in e)
  }

  /** The scan gets through exactly when every variable is in one of the sets or lists it starts from. */
  lemma {:induction false} PlaceDone(lits: seq<int>, p: set<int>, e: set<int>, pl: seq<int>, el: seq<int>, u: set<int>)
    requires forall x :: x in u <==> x in p || x in e || x in pl || x in el
    ensures Place(lits, p, e, pl, el).done <==> forall j :: 0 <= j < |lits| ==> Abs(lits[j]) in u
    decreases |lits|
  {
    if lits != [] {
      var v, rest := Abs(lits[0]), lits[1..];
      assert forall j :: 0 <= j < |rest| ==> rest[j] == lits[j + 1];
      if v in p {
        PlaceDone(rest, p - {v}, e, pl + [v], el, u);
      } else if v in e {
        PlaceDone(rest, p, e - {v}, pl, el + [v], u);
      } else if v in pl || v in el {
        PlaceDone(rest, p, e, pl, el, u);
      }
      if forall j :: 0 <= j < |rest| ==> Abs(rest[j]) in u {
        if v in u {
          forall j | 0 <= j < |lits| ensures Abs(lits[j]) in u {
            if j > 0 {
              assert lits[j] == rest[j - 1];
            }
          }
        }
      }
    }
  }

  /** What a scan that gets through returns: the result of PlaceDone's good case. */
  ghost predicate PlacedAll(lits: seq<int>, p: set<int>, e: set<int>, pl: seq<int>, el: seq<int>, r: Placement)
  {
    Distinct(r.problem) && Distinct(r.encoding) &&
    pl <= r.problem && el <= r.encoding &&
    (forall x :: x in r.problem <==> x in pl || (x in p && x in Vars(lits))) &&
    (forall x :: x in r.encoding <==> x in el || (x in e && x in Vars(lits))) &&
    r.restP == p - Vars(lits) && r.restE == e - Vars(lits)
  }

  /**
   * When the scan gets through, each list extends its start by the variables of its set that
   * occur, each once, and exactly those leave the sets.
   */
  lemma {:induction false} PlaceMeaning(lits: seq<int>, p: set<int>, e: set<int>, pl: seq<int>, el: seq<int>)
    requires Apart(p, e, pl, el)
    ensures Place(lits, p, e, pl, el).done ==> PlacedAll(lits, p, e, pl, el, Place(lits, p, e, pl, el))
    decreases |lits|
  {
    if lits == [] {
      assert Vars(lits) == {};
    } else {
      var v, rest := Abs(lits[0]), lits[1..];
      VarsCons(lits);
      if v in p {
        DistinctPush(pl, v);
        PlaceMeaning(rest, p - {v}, e, pl + [v], el);
      } else if v in e {
        DistinctPush(el, v);
        PlaceMeaning(rest, p, e - {v}, pl, el + [v]);
      } else if v in pl || v in el {
        PlaceMeaning(rest, p, e, pl, el);
      }
    }
  }

  /** Every literal of the flattened list lies in s when every literal of every listed clause does. */
  lemma {:induction false} FlattenWithin(cs: seq<Klause>, ids: seq<int>, s: set<int>)
    requires InRange(cs, ids)
    requires forall t, j :: 0 <= t < |ids| && 0 <= j < |cs[ids[t]].lits| ==> Abs(cs[ids[t]].lits[j]) in s
    ensures forall m :: 0 <= m < |Flatten(cs, ids)| ==> Abs(Flatten(cs, ids)[m]) in s
    decreases |ids|
  {
    if ids != [] {
      var head := cs[ids[0]].lits;
      assert forall t :: 0 <= t < |ids| - 1 ==> ids[1..][t] == ids[t + 1];
      FlattenWithin(cs, ids[1..], s);
      var f, rest := Flatten(cs, ids), Flatten(cs, ids[1..]);
      assert f == head + rest;
      forall m | 0 <= m < |f| ensures Abs(f[m]) in s {
        if m < |head| {
          assert f[m] == cs[ids[0]].lits[m];
        } else {
          assert f[m] == rest[m - |head|];
        }
      }
    }
  }

  /** The ascending listing of live clause ids indexes the store. */
  lemma SortedInRange(cs: seq<Klause>, c: set<int>)
    requires LiveIds(cs, c)
    ensures InRange(cs, Sorted(c))
  {
    forall k | 0 <= k < |Sorted(c)| ensures 0 <= Sorted(c)[k] < |cs| {
      assert Sorted(c)[k] in Sorted(c);
    }
  }

  /** A variable mentioned by a clause of the cluster is a variable of its flattened literals. */
  lemma FlattenCovers(cs: seq<Klause>, c: set<int>, s: set<int>)
    requires LiveIds(cs, c) && Covered(cs, c, s)
    ensures InRange(cs, Sorted(c)) && s <= Vars(Flatten(cs, Sorted(c)))
  {
    SortedInRange(cs, c);
    var ids := Sorted(c);
    forall v | v in s ensures v in Vars(Flatten(cs, ids)) {
      var i :| i in c && 0 <= i < |cs| && Mentions(cs[i], v);
      var j :| 0 <= j < |cs[i].lits| && Abs(cs[i].lits[j]) == v;
      var t :| 0 <= t < |ids| && ids[t] == i;
      FlattenVars(cs, ids, t, j);
    }
  }

  /** Every literal of every clause of cluster c is over a variable in s. */
  predicate ClusterWithin(cs: seq<Klause>, c: set<int>, s: set<int>)
  {
    forall i, j :: i in c && 0 <= i < |cs| && 0 <= j < |cs[i].lits| ==> Abs(cs[i].lits[j]) in s
  }

  /** Every flattened literal of the listed clauses is over a variable in s. */
  predicate FlatWithin(cs: seq<Klause>, ids: seq<int>, s: set<int>)
    requires InRange(cs, ids)
  {
    forall m :: 0 <= m < |Flatten(cs, ids)| ==> Abs(Flatten(cs, ids)[m]) in s
  }

  /** When every clause of the cluster has its variables in s, so do its flattened literals. */
  lemma FlattenAllWithin(cs: seq<Klause>, c: set<int>, s: set<int>)
    requires LiveIds(cs, c)
    ensures InRange(cs, Sorted(c))
    ensures ClusterWithin(cs, c, s) ==> FlatWithin(cs, Sorted(c), s)
  {
    SortedInRange(cs, c);
    if ClusterWithin(cs, c, s) {
      var ids := Sorted(c);
      forall t, j | 0 <= t < |ids| && 0 <= j < |cs[ids[t]].lits| ensures Abs(cs[ids[t]].lits[j]) in s {
        assert ids[t] in ids;
      }
      FlattenWithin(cs, ids, s);
    }
  }

  /** When the flattened literals have their variables in s, so has every clause of the cluster. */
  lemma FlattenAllBack(cs: seq<Klause>, c: set<int>, s: set<int>)
    requires LiveIds(cs, c)
    ensures InRange(cs, Sorted(c))
    ensures FlatWithin(cs, Sorted(c), s) ==> ClusterWithin(cs, c, s)
  {
    SortedInRange(cs, c);
    var ids := Sorted(c);
    var f := Flatten(cs, ids);
    if FlatWithin(cs, ids, s) {
      assert Vars(f) <= s;
      forall i, j | i in c && 0 <= i < |cs| && 0 <= j < |cs[i].lits| ensures Abs(cs[i].lits[j]) in s {
        assert i in ids;
        var t :| 0 <= t < |ids| && ids[t] == i;
        FlattenVars(cs, ids, t, j);
      }
    }
  }

  /** The cluster's clauses have all their variables in s exactly when their flattened literals do. */
  lemma FlattenAll(cs: seq<Klause>, c: set<int>, s: set<int>)
    requires LiveIds(cs, c)
    ensures InRange(cs, Sorted(c))
    ensures FlatWithin(cs, Sorted(c), s) <==> ClusterWithin(cs, c, s)
  {
    FlattenAllWithin(cs, c, s);
    FlattenAllBack(cs, c, s);
  }

  /**
   * normalize_cluster on a cluster whose variables are all mentioned by its clauses: it gets
   * through exactly when no clause of the cluster has a variable outside P and E, and then the
   * two lists hold P and E, each variable once, and both sets end empty.
   */
  lemma NormalizedCluster(cs: seq<Klause>, c: set<int>, p: set<int>, e: set<int>)
    requires LiveIds(cs, c) && p !! e && Covered(cs, c, p + e)
    ensures InRange(cs, Sorted(c))
    ensures Place(Flatten(cs, Sorted(c)), p, e, [], []).done <==>
            forall i, j :: i in c && 0 <= i < |cs| && 0 <= j < |cs[i].lits| ==> Abs(cs[i].lits[j]) in p + e
    ensures Place(Flatten(cs, Sorted(c)), p, e, [], []).done ==>
      var r := Place(Flatten(cs, Sorted(c)), p, e, [], []);
      r.restP == {} && r.restE == {} && Distinct(r.problem) && Distinct(r.encoding) &&
      (forall x :: x in r.problem <==> x in p) && (forall x :: x in r.encoding <==> x in e)
  {
    SortedInRange(cs, c);
    var f := Flatten(cs, Sorted(c));
    FlattenAll(cs, c, p + e);
    FlattenCovers(cs, c, p + e);
    PlaceDone(f, p, e, [], [], p + e);
    PlaceMeaning(f, p, e, [], []);
  }

  /** The clauses of a normalised cluster, with every variable among vars, are candidates for validate_constraint. */
  lemma ClusterCandidates(cs: seq<Klause>, c: set<int>, vars: seq<int>)
    requires LiveIds(cs, c) && NonZeroClauses(cs)
    requires forall i, j :: i in c && 0 <= i < |cs| && 0 <= j < |cs[i].lits| ==> Abs(cs[i].lits[j]) in vars
    ensures forall t :: 0 <= t < |Sorted(c)| ==>
      var i := Sorted(c)[t];
      0 <= i < |cs| && !cs[i].deleted &&
      forall j :: 0 <= j < |cs[i].lits| ==> cs[i].lits[j] != 0 && Abs(cs[i].lits[j]) in vars
  {
    SortedInRange(cs, c);
    forall t | 0 <= t < |Sorted(c)| ensures Sorted(c)[t] in c {
      assert Sorted(c)[t] in Sorted(c);
    }
  }

  /**
   * Consuming the clauses of a cluster keeps the index of the encoding variables still waiting:
   * none of them occurs in those clauses, so none of their listed clauses is consumed.
   */
  lemma StillIndexed(em: map<int, seq<int>>, pm: map<int, seq<int>>, cs: seq<Klause>, ids: seq<int>, vars: set<int>)
    requires Indexed(em, pm, cs)
    requires forall v :: v in em ==> v !in vars
    requires forall t, j :: 0 <= t < |ids| && 0 <= ids[t] < |cs| && 0 <= j < |cs[ids[t]].lits| ==> Abs(cs[ids[t]].lits[j]) in vars
    ensures Indexed(em, pm, MarkDeleted(cs, ids))
  {
    var ds := MarkDeleted(cs, ids);
    forall v, k | v in em && 0 <= k < |em[v]| ensures !ds[em[v][k]].deleted && Mentions(ds[em[v][k]], v) {
      var i := em[v][k];
      var j :| 0 <= j < |cs[i].lits| && Abs(cs[i].lits[j]) == v;
      assert i !in ids by {
        forall t | 0 <= t < |ids| ensures ids[t] != i {
          assert 0 <= j < |cs[i].lits| && Abs(cs[i].lits[j]) !in vars;
        }
      }
      assert ds[i].lits == cs[i].lits;
    }
  }

  /** Taking encoding variables out of the map, leaving the others' lists as they were, keeps the index. */
  lemma IndexedShrink(em0: map<int, seq<int>>, em: map<int, seq<int>>, pm: map<int, seq<int>>, cs: seq<Klause>)
    requires Indexed(em0, pm, cs)
    requires forall v :: v in em ==> v in em0 && em[v] == em0[v]
    ensures Indexed(em, pm, cs)
  {
  }

  /** The clauses expansion adds are live. */
  lemma ExpandedLive(cs: seq<Klause>, pm: map<int, seq<int>>, c0: set<int>, c: set<int>, p: set<int>, e: set<int>)
    requires LiveIds(cs, c0)
    requires forall i :: i in c <==> i in c0 || ExpandsFrom(cs, pm, p, p, e, i)
    ensures LiveIds(cs, c) && c0 <= c
  {
    forall i | i in c ensures 0 <= i < |cs| && !cs[i].deleted {
      if i !in c0 {
        var v :| v in p && v in pm && i in pm[v] && Eligible(cs, i, p, e);
      }
    }
    forall i | i in c0 ensures i in c {
    }
  }

  /** A map whose keys are among those of m, less one key of m, is smaller. */
  lemma ShrinkKeys(m: map<int, seq<int>>, m': map<int, seq<int>>, k: int)
    requires k in m && k !in m' && forall v :: v in m' ==> v in m
    ensures |m'| < |m|
  {
    forall x | x in m'.Keys ensures x in m.Keys - {k} {
    }
    SubsetSize(m'.Keys, m.Keys - {k});
  }
}

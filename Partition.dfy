/**
 * Splitting a formula into its connected components and putting the solutions of the parts
 * back together (Tools/check-sat/cnf-partition.hpp, KnfCheck::partition_clauses and
 * KnfCheck::reconstruct_partitioned_solution).
 *
 * Two variables are adjacent when they occur in the same clause or cardinality constraint. A
 * depth-first walk with an explicit stack labels every variable with the number of its part,
 * parts being numbered in the order of their smallest variable. The partition file lists the
 * number of parts and max_var, then the variables of each part in ascending order with a 0
 * between parts; one formula per part holds the constraints that mention one of its variables.
 * Reconstruction reads the partition file back and keeps, from the solution of part i, the
 * literals whose variable belongs to part i.
 */
module Partition {
  import opened Lits
  import CheckSat

  // ----- the variable graph ----------------------------------------------------------------

  /** v and u are the variables of two literals (possibly the same one) of c. */
  ghost predicate Linked(c: seq<int>, v: int, u: int)
  {
    exists j, k :: 0 <= j < |c| && 0 <= k < |c| && Abs(c[j]) == v && Abs(c[k]) == u
  }

  /** v and u occur together in one of the lists. */
  ghost predicate CoOccur(ls: seq<seq<int>>, v: int, u: int)
  {
    exists i :: 0 <= i < |ls| && Linked(ls[i], v, u)
  }

  /** No variable of the lists is above maxVar (e_graph has maxVar + 1 entries). */
  predicate InRange(ls: seq<seq<int>>, maxVar: int)
  {
    forall i, j :: 0 <= i < |ls| && 0 <= j < |ls[i]| ==> Abs(ls[i][j]) <= maxVar
  }

  /** The clauses followed by the literals of the cardinality constraints: every list the graph is made of. */
  function Lists(clauses: seq<seq<int>>, cards: seq<CheckSat.Card>): (r: seq<seq<int>>)
    ensures |r| == |clauses| + |cards|
  {
    clauses + seq(|cards|, i requires 0 <= i < |cards| => cards[i].lits)
  }

  /** Co-occurrence is symmetric. */
  lemma CoOccurSymmetric(ls: seq<seq<int>>, v: int, u: int)
    requires CoOccur(ls, v, u)
    ensures CoOccur(ls, u, v)
  {
    var i :| 0 <= i < |ls| && Linked(ls[i], v, u);
    var j, k :| 0 <= j < |ls[i]| && 0 <= k < |ls[i]| && Abs(ls[i][j]) == v && Abs(ls[i][k]) == u;
    assert Linked(ls[i], u, v);
  }

  /** Co-occurring variables are in range. */
  lemma CoOccurRange(ls: seq<seq<int>>, maxVar: int, v: int, u: int)
    requires InRange(ls, maxVar) && CoOccur(ls, v, u)
    ensures 0 <= v <= maxVar && 0 <= u <= maxVar
  {
    var i :| 0 <= i < |ls| && Linked(ls[i], v, u);
    var j, k :| 0 <= j < |ls[i]| && 0 <= k < |ls[i]| && Abs(ls[i][j]) == v && Abs(ls[i][k]) == u;
  }

  /** Taking one more list adds exactly the pairs of that list. */
  lemma CoOccurNext(ls: seq<seq<int>>, i: int, v: int, u: int)
    requires 0 <= i < |ls|
    ensures CoOccur(ls[..i + 1], v, u) <==> CoOccur(ls[..i], v, u) || Linked(ls[i], v, u)
  {
    if CoOccur(ls[..i + 1], v, u) {
      var i' :| 0 <= i' < i + 1 && Linked(ls[..i + 1][i'], v, u);
      if i' < i {
        assert ls[..i][i'] == ls[i'];
      }
    }
    if CoOccur(ls[..i], v, u) {
      var i' :| 0 <= i' < i && Linked(ls[..i][i'], v, u);
      assert ls[..i + 1][i'] == ls[i'];
    }
    if Linked(ls[i], v, u) {
      assert ls[..i + 1][i] == ls[i];
    }
  }

  /** The pairs of two list sequences together are those of either. */
  lemma CoOccurAppend(xs: seq<seq<int>>, ys: seq<seq<int>>, v: int, u: int)
    ensures CoOccur(xs + ys, v, u) <==> CoOccur(xs, v, u) || CoOccur(ys, v, u)
  {
    if CoOccur(xs + ys, v, u) {
      var i :| 0 <= i < |xs + ys| && Linked((xs + ys)[i], v, u);
      if i < |xs| {
        assert (xs + ys)[i] == xs[i];
      } else {
        assert (xs + ys)[i] == ys[i - |xs|];
      }
    }
    if CoOccur(xs, v, u) {
      var i :| 0 <= i < |xs| && Linked(xs[i], v, u);
      assert (xs + ys)[i] == xs[i];
    }
    if CoOccur(ys, v, u) {
      var i :| 0 <= i < |ys| && Linked(ys[i], v, u);
      assert (xs + ys)[|xs| + i] == ys[i];
    }
  }

  /** g is an adjacency over 0..maxVar whose neighbours are in range and which is symmetric. */
  ghost predicate Symmetric(G: seq<set<int>>, maxVar: int)
  {
    |G| == maxVar + 1 &&
    (forall v, u :: 0 <= v <= maxVar && u in G[v] ==> 0 <= u <= maxVar) &&
    (forall v, u :: 0 <= v <= maxVar && u in G[v] ==> v in G[u])
  }

  /** The inner graph loop for the literal at position j: both insertions for every literal of c. */
  method AddStar(g: array<set<int>>, c: seq<int>, j: int)
    requires 0 <= j < |c| && forall k :: 0 <= k < |c| ==> Abs(c[k]) < g.Length
    modifies g
    ensures forall v, u :: 0 <= v < g.Length && u in g[v] ==> u in old(g[v]) || Linked(c, v, u)
    ensures forall v, u :: 0 <= v < g.Length && u in old(g[v]) ==> u in g[v]
    ensures forall k :: 0 <= k < |c| ==> Abs(c[k]) in g[Abs(c[j])]
  {
    for k := 0 to |c|
      invariant forall v, u :: 0 <= v < g.Length && u in g[v] ==> u in old(g[v]) || Linked(c, v, u)
      invariant forall v, u :: 0 <= v < g.Length && u in old(g[v]) ==> u in g[v]
      invariant forall k' :: 0 <= k' < k ==> Abs(c[k']) in g[Abs(c[j])]
    {
      var a, b := Abs(c[j]), Abs(c[k]);
      assert Linked(c, a, b) && Linked(c, b, a);
      g[a] := g[a] + {b};
      g[b] := g[b] + {a};
    }
  }

  /** The two nested graph loops over one list: every pair of its literals, both ways. */
  method AddList(g: array<set<int>>, c: seq<int>)
    requires forall j :: 0 <= j < |c| ==> Abs(c[j]) < g.Length
    modifies g
    ensures forall v, u :: 0 <= v < g.Length ==> (u in g[v] <==> u in old(g[v]) || Linked(c, v, u))
  {
    for j := 0 to |c|
      invariant forall v, u :: 0 <= v < g.Length && u in g[v] ==> u in old(g[v]) || Linked(c, v, u)
      invariant forall v, u :: 0 <= v < g.Length && u in old(g[v]) ==> u in g[v]
      invariant forall j', k' :: 0 <= j' < j && 0 <= k' < |c| ==> Abs(c[k']) in g[Abs(c[j'])]
    {
      AddStar(g, c, j);
    }
  }

  /** One of the two graph loops of partition_clauses: every list in turn. */
  method AddLists(g: array<set<int>>, ls: seq<seq<int>>)
    requires InRange(ls, g.Length - 1)
    modifies g
    ensures forall v, u :: 0 <= v < g.Length ==> (u in g[v] <==> u in old(g[v]) || CoOccur(ls, v, u))
  {
    for i := 0 to |ls|
      invariant forall v, u :: 0 <= v < g.Length ==> (u in g[v] <==> u in old(g[v]) || CoOccur(ls[..i], v, u))
    {
      AddList(g, ls[i]);
      forall v, u
        ensures CoOccur(ls[..i + 1], v, u) <==> CoOccur(ls[..i], v, u) || Linked(ls[i], v, u)
      {
        CoOccurNext(ls, i, v, u);
      }
    }
    assert ls[..|ls|] == ls;
  }

  /**
   * The graph of partition_clauses: maxVar + 1 empty neighbour sets, then the pairs of every
   * clause and of every cardinality constraint. Two variables are adjacent exactly when they
   * occur together, and the graph is symmetric.
   */
  method MakeGraph(clauses: seq<seq<int>>, cards: seq<CheckSat.Card>, maxVar: nat) returns (g: array<set<int>>)
    requires InRange(Lists(clauses, cards), maxVar)
    ensures fresh(g) && g.Length == maxVar + 1
    ensures forall v, u :: 0 <= v <= maxVar ==> (u in g[v] <==> CoOccur(Lists(clauses, cards), v, u))
    ensures Symmetric(g[..], maxVar)
  {
    var ls := Lists(clauses, cards);
    var cardLits := seq(|cards|, i requires 0 <= i < |cards| => cards[i].lits);
    assert ls == clauses + cardLits;
    assert InRange(clauses, maxVar) by {
      forall i, j | 0 <= i < |clauses| && 0 <= j < |clauses[i]|
        ensures Abs(clauses[i][j]) <= maxVar
      {
        assert ls[i] == clauses[i];
      }
    }
    assert InRange(cardLits, maxVar) by {
      forall i, j | 0 <= i < |cardLits| && 0 <= j < |cardLits[i]|
        ensures Abs(cardLits[i][j]) <= maxVar
      {
        assert ls[|clauses| + i] == cardLits[i];
      }
    }
    g := new set<int>[maxVar + 1](_ => {});
    AddLists(g, clauses);
    AddLists(g, cardLits);
    forall v, u
      ensures CoOccur(ls, v, u) <==> CoOccur(clauses, v, u) || CoOccur(cardLits, v, u)
    {
      CoOccurAppend(clauses, cardLits, v, u);
    }
    forall v, u | 0 <= v <= maxVar && u in g[v]
      ensures 0 <= u <= maxVar && v in g[u]
    {
      CoOccurRange(ls, maxVar, v, u);
      CoOccurSymmetric(ls, v, u);
    }
  }

  // ----- labelling ---------------------------------------------------------------------------

  /**
   * The state during the walk of part par: -1 is unvisited, -2 is on the stack, labels below
   * par are finished parts, closed under adjacency; a variable labelled par has each neighbour
   * labelled par or on the stack, except cur, whose neighbours are being pushed.
   */
  ghost predicate Exploring(G: seq<set<int>>, L: seq<int>, par: int, frontier: seq<int>, cur: int)
  {
    |L| >= 1 && Symmetric(G, |L| - 1) && L[0] == -1 && par >= 0 &&
    (forall x :: x in frontier ==> 1 <= x < |L|) &&
    (forall v :: 1 <= v < |L| ==> -2 <= L[v] <= par) &&
    (forall v :: 1 <= v < |L| && L[v] == -2 ==> v in frontier) &&
    (forall v, u :: 1 <= v < |L| && 0 <= L[v] < par && u in G[v] ==> L[u] == L[v]) &&
    (forall v, u :: 1 <= v < |L| && v != cur && L[v] == par && u in G[v] ==> L[u] == par || L[u] == -2) &&
    (forall v :: 1 <= v < |L| && v != cur && L[v] >= 0 ==> 0 !in G[v])
  }

  /**
   * The state between two parts: par parts are finished and closed under adjacency, every
   * variable below start is labelled, and part p began at starts[p], below which every
   * variable belongs to an earlier part.
   */
  ghost predicate Settled(G: seq<set<int>>, L: seq<int>, par: int, start: int, starts: seq<int>)
  {
    |L| >= 1 && Symmetric(G, |L| - 1) && L[0] == -1 && par >= 0 && 1 <= start <= |L| &&
    (forall v :: 1 <= v < |L| ==> L[v] == -1 || 0 <= L[v] < par) &&
    (forall v :: 1 <= v < start ==> L[v] >= 0) &&
    (forall v, u :: 1 <= v < |L| && L[v] >= 0 && u in G[v] ==> L[u] == L[v]) &&
    (forall v :: 1 <= v < |L| && L[v] >= 0 ==> 0 !in G[v]) &&
    |starts| == par &&
    (forall p :: 0 <= p < par ==> 1 <= starts[p] < start && L[starts[p]] == p) &&
    (forall p, v :: 0 <= p < par && 1 <= v < starts[p] ==> 0 <= L[v] < p)
  }

  /**
   * Parts are numbered in the order of their smallest variable: a variable of part p > 0 comes
   * after some variable of part p - 1, and the last part, par - 1, is used.
   */
  ghost predicate Numbered(L: seq<int>, par: int)
  {
    (forall s :: 1 <= s < |L| && L[s] > 0 ==> exists u :: 1 <= u < s && L[u] == L[s] - 1) &&
    (par > 0 ==> exists s :: 1 <= s < |L| && L[s] == par - 1)
  }

  /** What labelling promises: every variable in a part, parts closed under adjacency and numbered by their smallest variable. */
  ghost predicate Labelled(G: seq<set<int>>, L: seq<int>, par: int)
  {
    |L| == |G| && |L| >= 1 && L[0] == -1 &&
    (forall v :: 1 <= v < |L| ==> 0 <= L[v] < par) &&
    (forall v, u :: 1 <= v < |L| && u in G[v] ==> 0 <= u < |L|) &&
    (forall v, u :: 1 <= v < |L| && u in G[v] && 0 <= u < |L| ==> L[u] == L[v]) &&
    Numbered(L, par)
  }

  /** Popping a variable that is labelled already. */
  lemma PopLabelled(G: seq<set<int>>, L: seq<int>, par: int, f: seq<int>, v: int)
    requires Exploring(G, L, par, f + [v], 0) && 1 <= v < |L| && L[v] >= 0
    ensures Exploring(G, L, par, f, 0)
  {
    forall x | x in f
      ensures x in f + [v]
    {
    }
    forall w | 1 <= w < |L| && L[w] == -2
      ensures w in f
    {
      assert w in f + [v];
    }
  }

  /** Popping an unlabelled variable and labelling it par: only its own neighbours are pending. */
  lemma Claim(G: seq<set<int>>, L: seq<int>, par: int, f: seq<int>, v: int)
    requires Exploring(G, L, par, f + [v], 0) && 1 <= v < |L| && L[v] < 0
    ensures Exploring(G, L[v := par], par, f, v)
  {
    assert v in f + [v];
    forall x | x in f
      ensures x in f + [v]
    {
    }
    forall w | 1 <= w < |L| && L[v := par][w] == -2
      ensures w in f
    {
      assert w in f + [v];
    }
  }

  /** A labelled neighbour of the variable being spread is in the same part. */
  lemma NeighbourInPart(G: seq<set<int>>, L: seq<int>, par: int, f: seq<int>, v: int, n: int)
    requires Exploring(G, L, par, f, v) && 1 <= v < |L| && L[v] == par && n in G[v] && 1 <= n && L[n] >= 0
    ensures L[n] == par
  {
    assert v in G[n];
  }

  /** Pushing an unvisited neighbour and marking it -2. */
  lemma Push(G: seq<set<int>>, L: seq<int>, par: int, f: seq<int>, v: int, n: int)
    requires Exploring(G, L, par, f, v) && 1 <= v < |L| && L[v] == par && 1 <= n < |L| && L[n] == -1
    ensures Exploring(G, L[n := -2], par, f + [n], v)
  {
  }

  /** Once all its neighbours are labelled par or on the stack, the spread variable is no exception. */
  lemma SpreadDone(G: seq<set<int>>, L: seq<int>, par: int, f: seq<int>, v: int)
    requires Exploring(G, L, par, f, v) && 1 <= v < |L| && L[v] == par
    requires forall u :: u in G[v] ==> 1 <= u < |L| && (L[u] == par || L[u] == -2)
    ensures Exploring(G, L, par, f, 0)
  {
  }

  /** An empty stack finishes part par, which began at start. */
  lemma ExploreDone(G: seq<set<int>>, L0: seq<int>, L: seq<int>, par: int, start: int, starts: seq<int>)
    requires Settled(G, L0, par, start, starts) && start < |L0| && L0[start] == -1
    requires Exploring(G, L, par, [], 0) && |L| == |L0| && L[start] == par
    requires forall v :: 0 <= v < |L| && L0[v] >= 0 ==> L[v] == L0[v]
    ensures Settled(G, L, par + 1, start + 1, starts + [start])
  {
    var S := starts + [start];
    forall p | 0 <= p < par + 1
      ensures 1 <= S[p] < start + 1 && L[S[p]] == p
    {
      if p < par {
        assert L0[starts[p]] == p;
      }
    }
    forall p, v | 0 <= p < par + 1 && 1 <= v < S[p]
      ensures 0 <= L[v] < p
    {
      if p < par {
        assert 0 <= L0[v] < p;
      } else {
        assert L0[v] >= 0;
      }
    }
  }

  /** The search moved on past the part just finished. */
  lemma SettledNext(G: seq<set<int>>, L: seq<int>, par: int, s0: int, s: int, starts: seq<int>)
    requires Settled(G, L, par + 1, s0 + 1, starts + [s0])
    requires s0 + 1 <= s <= |L| && forall v :: s0 + 1 <= v < s ==> L[v] != -1
    ensures Settled(G, L, par + 1, s, starts + [s0])
  {
  }

  /** With every variable labelled, the labelling has all its promised properties. */
  lemma LabelDone(G: seq<set<int>>, L: seq<int>, par: int, starts: seq<int>)
    requires Settled(G, L, par, |L|, starts) && |G| == |L|
    ensures Labelled(G, L, par)
    ensures forall v :: 1 <= v < |L| ==> 0 !in G[v]
  {
    forall s | 1 <= s < |L| && L[s] > 0
      ensures exists u :: 1 <= u < s && L[u] == L[s] - 1
    {
      var p := L[s];
      assert L[starts[p - 1]] == p - 1 && L[starts[p]] == p;
      assert starts[p] <= s;
      assert starts[p - 1] < starts[p];
    }
    if par > 0 {
      assert L[starts[par - 1]] == par - 1;
    }
  }

  /**
   * The neighbour loop for the variable v just labelled par: every neighbour that is neither
   * labelled nor on the stack is pushed and marked -2; a neighbour out of 1..max_var stops
   * the program, which happens exactly when the neighbour is 0.
   */
  method Spread(g: array<set<int>>, L: array<int>, v: int, par: int, frontier: seq<int>)
    returns (ok: bool, frontier': seq<int>)
    requires Exploring(g[..], L[..], par, frontier, v) && 1 <= v < L.Length && L[v] == par
    modifies L
    ensures forall w :: 0 <= w < L.Length ==> L[w] == old(L[w]) || (old(L[w]) == -1 && L[w] == -2)
    ensures ok ==> Exploring(g[..], L[..], par, frontier', 0)
    ensures !ok ==> 0 in g[v]
  {
    var rest := g[v];
    frontier' := frontier;
    while rest != {}
      invariant rest <= g[v] && L[v] == par
      invariant Exploring(g[..], L[..], par, frontier', v)
      invariant forall u :: u in g[v] && u !in rest ==> 1 <= u < L.Length && (L[u] == par || L[u] == -2)
      invariant forall w :: 0 <= w < L.Length ==> L[w] == old(L[w]) || (old(L[w]) == -1 && L[w] == -2)
      decreases rest
    {
      NonEmpty(rest);
      var n :| n in rest;
      rest := rest - {n};
      assert g[..][v] == g[v];
      if n <= 0 || n >= L.Length {
        assert n == 0;
        return false, frontier';
      }
      if L[n] >= 0 || L[n] == -2 {
        if L[n] >= 0 {
          NeighbourInPart(g[..], L[..], par, frontier', v, n);
        }
        continue;
      }
      ghost var before := L[..];
      Push(g[..], before, par, frontier', v, n);
      frontier' := frontier' + [n];
      L[n] := -2;
      assert L[..] == before[n := -2];
    }
    SpreadDone(g[..], L[..], par, frontier', v);
    ok := true;
  }

  /** A popped variable that is not labelled yet: label it par and push its unvisited neighbours. */
  method Visit(g: array<set<int>>, L: array<int>, v: int, par: int, frontier: seq<int>)
    returns (ok: bool, frontier': seq<int>)
    requires Exploring(g[..], L[..], par, frontier + [v], 0) && 1 <= v < L.Length && L[v] < 0
    modifies L
    ensures L[v] == par
    ensures forall w :: 0 <= w < L.Length && w != v ==> L[w] == old(L[w]) || (old(L[w]) == -1 && L[w] == -2)
    ensures ok ==> Exploring(g[..], L[..], par, frontier', 0)
    ensures !ok ==> 0 in g[v]
  {
    ghost var before := L[..];
    Claim(g[..], before, par, frontier, v);
    L[v] := par;
    assert L[..] == before[v := par];
    ok, frontier' := Spread(g, L, v, par, frontier);
  }

  /**
   * The inner while loop of partition_clauses for one part: pop a variable, skip it when it
   * is labelled already, otherwise label it par and push its unvisited neighbours.
   */
  method Explore(g: array<set<int>>, L: array<int>, start: int, par: int, ghost starts: seq<int>) returns (ok: bool)
    requires Settled(g[..], L[..], par, start, starts) && start < L.Length && L[start] == -1
    modifies L
    ensures ok ==> Settled(g[..], L[..], par + 1, start + 1, starts + [start])
    ensures !ok ==> exists v :: 1 <= v < L.Length && 0 in g[v]
  {
    var frontier := [start];
    ghost var pending := set v | 1 <= v < L.Length && L[v] < 0;
    while frontier != []
      invariant Exploring(g[..], L[..], par, frontier, 0)
      invariant L[start] == par || (L[start] == -1 && frontier == [start])
      invariant forall v :: 0 <= v < L.Length && old(L[v]) >= 0 ==> L[v] == old(L[v])
      invariant forall v :: 1 <= v < L.Length && L[v] < 0 ==> v in pending
      invariant forall v :: v in pending ==> 1 <= v < L.Length && L[v] < 0
      decreases |pending|, |frontier|
    {
      var v := frontier[|frontier| - 1];
      assert frontier == frontier[..|frontier| - 1] + [v];
      assert v in frontier;
      frontier := frontier[..|frontier| - 1];
      if L[v] >= 0 {
        PopLabelled(g[..], L[..], par, frontier, v);
        continue;
      }
      pending := pending - {v};
      ok, frontier := Visit(g, L, v, par, frontier);
      if !ok {
        return;
      }
    }
    ExploreDone(g[..], old(L[..]), L[..], par, start, starts);
    ok := true;
  }

  /** The search for the next part's first variable: the first unvisited one from `from` on. */
  method NextStart(L: array<int>, from: int) returns (s: int)
    requires 1 <= from <= L.Length
    ensures from <= s <= L.Length
    ensures forall v :: from <= v < s ==> L[v] != -1
    ensures s < L.Length ==> L[s] == -1
  {
    s := from;
    while s < L.Length
      invariant from <= s <= L.Length
      invariant forall v :: from <= v < s ==> L[v] != -1
    {
      if L[s] == -1 {
        break;
      }
      s := s + 1;
    }
  }

  /** One part: explore it from start, then find the next unvisited variable. */
  method NextPart(g: array<set<int>>, L: array<int>, start: int, par: int, ghost starts: seq<int>)
    returns (ok: bool, next: int)
    requires Settled(g[..], L[..], par, start, starts) && start < L.Length && L[start] == -1
    modifies L
    ensures ok ==> start < next <= L.Length && (next < L.Length ==> L[next] == -1)
    ensures ok ==> Settled(g[..], L[..], par + 1, next, starts + [start])
    ensures !ok ==> exists v :: 1 <= v < L.Length && 0 in g[v]
  {
    next := start + 1;
    ok := Explore(g, L, start, par, starts);
    if !ok {
      return;
    }
    next := NextStart(L, start + 1);
    SettledNext(g[..], L[..], par, start, next, starts);
  }

  /**
   * The labelling of partition_clauses. It stops the program (ok false) exactly when some
   * variable shares a list with the literal 0; otherwise every variable 1..maxVar is in a
   * part, adjacent variables share their part, and parts are numbered by their smallest
   * variable.
   */
  method Label(g: array<set<int>>, maxVar: nat) returns (ok: bool, L: array<int>, par: nat)
    requires Symmetric(g[..], maxVar)
    ensures fresh(L) && L.Length == maxVar + 1
    ensures ok <==> forall v :: 1 <= v <= maxVar ==> 0 !in g[v]
    ensures ok ==> Labelled(g[..], L[..], par)
  {
    L := new int[maxVar + 1](_ => -1);
    par := 0;
    var start := 1;
    ghost var starts: seq<int> := [];
    while start <= maxVar
      invariant Settled(g[..], L[..], par, start, starts)
      invariant start <= maxVar ==> L[start] == -1
      decreases maxVar + 1 - start
    {
      var next;
      ok, next := NextPart(g, L, start, par, starts);
      if !ok {
        return;
      }
      starts := starts + [start];
      start := next;
      par := par + 1;
    }
    LabelDone(g[..], L[..], par, starts);
    ok := true;
  }

  /**
   * The labelling stated on the formula: every variable 1..maxVar is in one of the parts
   * 0..par-1, co-occurring variables share their part, and each part's smallest variable is
   * preceded only by variables of earlier parts.
   */
  ghost predicate Components(ls: seq<seq<int>>, L: seq<int>, par: int)
  {
    |L| >= 1 && L[0] == -1 &&
    (forall v :: 1 <= v < |L| ==> 0 <= L[v] < par) &&
    (forall v, u :: 1 <= v < |L| && CoOccur(ls, v, u) ==> 0 <= u < |L| && L[u] == L[v]) &&
    Numbered(L, par)
  }

  /** A labelling of the co-occurrence graph is a labelling into the formula's components. */
  lemma LabelledComponents(ls: seq<seq<int>>, G: seq<set<int>>, L: seq<int>, par: int)
    requires |G| == |L| && |L| >= 1
    requires forall v, u :: 0 <= v < |L| ==> (u in G[v] <==> CoOccur(ls, v, u))
    requires Labelled(G, L, par)
    ensures Components(ls, L, par)
  {
    forall v, u | 1 <= v < |L| && CoOccur(ls, v, u)
      ensures 0 <= u < |L| && L[u] == L[v]
    {
      assert u in G[v];
    }
  }

  // ----- the parts' formulas ---------------------------------------------------------------

  /** Some literal of c has its variable in part P. */
  ghost predicate In(c: seq<int>, L: seq<int>, P: int)
  {
    exists j :: 0 <= j < |c| && Abs(c[j]) < |L| && L[Abs(c[j])] == P
  }

  /** Number of true entries. */
  function Count(bs: seq<bool>): nat
  {
    if bs == [] then 0 else Count(bs[..|bs| - 1]) + (if bs[|bs| - 1] then 1 else 0)
  }

  /**
   * Every list with a non-zero literal mentions exactly one part, the part of its first
   * variable, and all its variables share it: the "ERROR" line of the soft-clause check never
   * prints.
   */
  lemma OnePart(ls: seq<seq<int>>, L: seq<int>, par: int, i: int)
    requires Components(ls, L, par) && InRange(ls, |L| - 1)
    requires 0 <= i < |ls| && ls[i] != [] && NonZero(ls[i])
    ensures forall j :: 0 <= j < |ls[i]| ==> L[Abs(ls[i][j])] == L[Abs(ls[i][0])]
    ensures forall P :: In(ls[i], L, P) <==> P == L[Abs(ls[i][0])]
    ensures 0 <= L[Abs(ls[i][0])] < par
  {
    var c := ls[i];
    var x := Abs(c[0]);
    assert 1 <= x < |L|;
    forall j | 0 <= j < |c|
      ensures L[Abs(c[j])] == L[x]
    {
      assert Linked(ls[i], x, Abs(c[j]));
      assert CoOccur(ls, x, Abs(c[j]));
    }
    forall P
      ensures In(c, L, P) <==> P == L[x]
    {
      if In(c, L, P) {
        var j :| 0 <= j < |c| && Abs(c[j]) < |L| && L[Abs(c[j])] == P;
      }
      if P == L[x] {
        assert Abs(c[0]) < |L| && L[Abs(c[0])] == P;
      }
    }
  }

  /**
   * The selection loops for part P: in[i] is set when some literal of list i has its
   * variable in P, and n counts the lists taken.
   */
  method Select(ls: seq<seq<int>>, L: array<int>, P: int) returns (inP: array<bool>, n: nat)
    requires InRange(ls, L.Length - 1)
    ensures fresh(inP) && inP.Length == |ls|
    ensures forall i :: 0 <= i < |ls| ==> (inP[i] <==> In(ls[i], L[..], P))
    ensures n == Count(inP[..])
  {
    inP := new bool[|ls|](_ => false);
    n := 0;
    for i := 0 to |ls|
      invariant forall i' :: 0 <= i' < i ==> (inP[i'] <==> In(ls[i'], L[..], P))
      invariant forall i' :: i <= i' < |ls| ==> !inP[i']
      invariant n == Count(inP[..i])
    {
      ghost var before := inP[..i];
      var j := 0;
      while j < |ls[i]|
        invariant 0 <= j <= |ls[i]| && !inP[i] && inP[..i] == before
        invariant forall j' :: 0 <= j' < j ==> L[Abs(ls[i][j'])] != P
      {
        if L[Abs(ls[i][j])] == P {
          assert In(ls[i], L[..], P);
          if !inP[i] {
            n := n + 1;
          }
          inP[i] := true;
          break;
        }
        j := j + 1;
      }
      assert inP[..i] == before;
      assert inP[..i + 1] == before + [inP[i]];
    }
    assert inP[..|ls|] == inP[..];
  }

  /** The formula written for one part: its header's counts and which constraints it holds. */
  datatype Formula = Formula(maxVar: int, count: int, clauseIn: seq<bool>, cardIn: seq<bool>)

  /** f is the formula of part P: exactly the clauses and constraints that mention P, counted in the header. */
  ghost predicate PartFormula(clauses: seq<seq<int>>, cards: seq<CheckSat.Card>, maxVar: int, L: seq<int>, P: int, f: Formula)
  {
    f.maxVar == maxVar &&
    |f.clauseIn| == |clauses| && (forall i :: 0 <= i < |clauses| ==> (f.clauseIn[i] <==> In(clauses[i], L, P))) &&
    |f.cardIn| == |cards| && (forall i :: 0 <= i < |cards| ==> (f.cardIn[i] <==> In(cards[i].lits, L, P))) &&
    f.count == Count(f.clauseIn) + Count(f.cardIn)
  }

  /** The per-part loop of partition_clauses: select the clauses, then the constraints, of every part. */
  method Formulas(clauses: seq<seq<int>>, cards: seq<CheckSat.Card>, maxVar: int, L: array<int>, par: nat)
    returns (fs: seq<Formula>)
    requires InRange(Lists(clauses, cards), L.Length - 1)
    ensures |fs| == par && forall P :: 0 <= P < par ==> PartFormula(clauses, cards, maxVar, L[..], P, fs[P])
  {
    var ls := Lists(clauses, cards);
    var cardLits := seq(|cards|, i requires 0 <= i < |cards| => cards[i].lits);
    assert ls == clauses + cardLits;
    assert InRange(clauses, L.Length - 1) by {
      forall i, j | 0 <= i < |clauses| && 0 <= j < |clauses[i]|
        ensures Abs(clauses[i][j]) <= L.Length - 1
      {
        assert ls[i] == clauses[i];
      }
    }
    assert InRange(cardLits, L.Length - 1) by {
      forall i, j | 0 <= i < |cardLits| && 0 <= j < |cardLits[i]|
        ensures Abs(cardLits[i][j]) <= L.Length - 1
      {
        assert ls[|clauses| + i] == cardLits[i];
      }
    }
    fs := [];
    for P := 0 to par
      invariant |fs| == P && forall Q :: 0 <= Q < P ==> PartFormula(clauses, cards, maxVar, L[..], Q, fs[Q])
    {
      var clauseIn, nCls := Select(clauses, L, P);
      var cardIn, nCard := Select(cardLits, L, P);
      fs := fs + [Formula(maxVar, nCls + nCard, clauseIn[..], cardIn[..])];
    }
  }

  // ----- the partition file ----------------------------------------------------------------

  /** The variables below n in part p, ascending. */
  function Members(L: seq<int>, p: int, n: nat): (r: seq<int>)
    requires n <= |L|
    ensures forall x :: x in r ==> 0 <= x < n && L[x] == p
  {
    if n == 0 then [] else Members(L, p, n - 1) + (if L[n - 1] == p then [n - 1] else [])
  }

  /** The body of the partition file for k parts: each part's variables, with a 0 between parts. */
  function Listing(L: seq<int>, k: nat): seq<int>
  {
    if k == 0 then [] else Listing(L, k - 1) + (if k - 1 > 0 then [0] else []) + Members(L, k - 1, |L|)
  }

  /** The loops writing the partition file: "Par max_var", then each part's variables, 0 between parts. */
  method WritePartitionFile(L: array<int>, par: nat, maxVar: int) returns (toks: seq<int>)
    ensures toks == [par, maxVar] + Listing(L[..], par)
  {
    toks := [par, maxVar];
    for i := 0 to par
      invariant toks == [par, maxVar] + Listing(L[..], i)
    {
      var members := WriteMembers(L, i);
      if i > 0 {
        toks := toks + [0];
      }
      toks := toks + members;
    }
  }

  /** The inner loop of the partition file: the variables of part i, ascending. */
  method WriteMembers(L: array<int>, i: int) returns (ms: seq<int>)
    ensures ms == Members(L[..], i, L.Length)
  {
    ms := [];
    for v := 0 to L.Length
      invariant ms == Members(L[..], i, v)
    {
      if L[v] == i {
        ms := ms + [v];
      }
    }
  }

  /** What reading the partition file has built so far: the part of each variable and the current part number. */
  datatype Reading = Reading(labels: seq<int>, par: int)

  /** Reading one variable or separator. */
  function Read(r: Reading, tok: int): Reading
  {
    if tok == 0 then r.(par := r.par + 1)
    else if 0 < tok < |r.labels| then r.(labels := r.labels[tok := r.par])
    else r
  }

  /** Reading a sequence of tokens. */
  function ReadAll(r: Reading, toks: seq<int>): (q: Reading)
    ensures |q.labels| == |r.labels|
  {
    if toks == [] then r else Read(ReadAll(r, toks[..|toks| - 1]), toks[|toks| - 1])
  }

  /** The table before any variable is read: -1 on 0..maxVar-1, and the last entry never written. */
  function Initial(maxVar: nat, unset: int): seq<int>
  {
    seq(maxVar + 1, i requires 0 <= i <= maxVar => if i < maxVar then -1 else unset)
  }

  lemma {:induction false} ReadAllAppend(r: Reading, xs: seq<int>, ys: seq<int>)
    ensures ReadAll(r, xs + ys) == ReadAll(ReadAll(r, xs), ys)
    decreases |ys|
  {
    if ys == [] {
      assert xs + ys == xs;
    } else {
      var init := ys[..|ys| - 1];
      assert (xs + ys)[..|xs + ys| - 1] == xs + init;
      ReadAllAppend(r, xs, init);
    }
  }

  /** The table with p written at each variable below n that L puts in part p. */
  function Painted(labels: seq<int>, L: seq<int>, p: int, n: int): (t: seq<int>)
    requires |labels| == |L|
    ensures |t| == |L|
  {
    seq(|L|, v requires 0 <= v < |L| => if v < n && L[v] == p then p else labels[v])
  }

  /** Painting one more variable. */
  lemma PaintedStep(labels: seq<int>, L: seq<int>, p: int, n: int)
    requires |labels| == |L| && 0 < n <= |L|
    ensures Painted(labels, L, p, n) ==
      if L[n - 1] == p then Painted(labels, L, p, n - 1)[n - 1 := p] else Painted(labels, L, p, n - 1)
  {
  }

  /** Reading one part's variables writes the current part number at exactly those variables. */
  lemma {:induction false} ReadMembers(r: Reading, L: seq<int>, n: nat)
    requires |r.labels| == |L| && n <= |L| && r.par >= 0 && |L| >= 1 && L[0] < 0
    ensures ReadAll(r, Members(L, r.par, n)) == Reading(Painted(r.labels, L, r.par, n), r.par)
    decreases n
  {
    if n > 0 {
      ReadMembers(r, L, n - 1);
      PaintedStep(r.labels, L, r.par, n);
      var m := Members(L, r.par, n - 1);
      if L[n - 1] == r.par {
        ReadAllAppend(r, m, [n - 1]);
        assert [n - 1][..0] == [];
      } else {
        assert Members(L, r.par, n) == m;
      }
    } else {
      assert Painted(r.labels, L, r.par, 0) == r.labels;
    }
  }

  /** The labels a listing of k parts leaves when read over L0. */
  function Overlay(L0: seq<int>, L: seq<int>, k: int): (r: seq<int>)
    requires |L0| == |L|
    ensures |r| == |L|
  {
    seq(|L|, v requires 0 <= v < |L| => if 0 <= L[v] < k then L[v] else L0[v])
  }

  /** Reading the listing of k parts gives every listed variable its part and ends in part k - 1. */
  lemma {:induction false} ReadListing(L0: seq<int>, L: seq<int>, k: nat)
    requires |L0| == |L| && |L| >= 1 && L[0] == -1 && k >= 1
    ensures ReadAll(Reading(L0, 0), Listing(L, k)) == Reading(Overlay(L0, L, k), k - 1)
    decreases k
  {
    if k == 1 {
      assert Listing(L, 1) == Members(L, 0, |L|);
      ReadMembers(Reading(L0, 0), L, |L|);
      assert Overlay(L0, L, 1) == Painted(L0, L, 0, |L|);
    } else {
      ReadListing(L0, L, k - 1);
      var before := Listing(L, k - 1);
      var r := Reading(Overlay(L0, L, k - 1), k - 1);
      assert Listing(L, k) == before + [0] + Members(L, k - 1, |L|);
      ReadAllAppend(Reading(L0, 0), before + [0], Members(L, k - 1, |L|));
      ReadAllAppend(Reading(L0, 0), before, [0]);
      assert [0][..0] == [];
      ReadMembers(r, L, |L|);
      assert Overlay(L0, L, k) == Painted(r.labels, L, k - 1, |L|);
    }
  }

  /**
   * The partition file's round trip: reading back what partition_clauses writes gives every
   * variable 1..maxVar the part it was labelled with, whatever the never-initialised last
   * entry held, because max_var is always listed.
   */
  lemma PartitionFileRoundTrip(L: seq<int>, par: nat, unset: int)
    requires |L| >= 1 && L[0] == -1 && forall v :: 1 <= v < |L| ==> 0 <= L[v] < par
    ensures var r := ReadAll(Reading(Initial(|L| - 1, unset), 0), Listing(L, par));
      forall v :: 1 <= v < |L| ==> r.labels[v] == L[v]
  {
    if par > 0 {
      ReadListing(Initial(|L| - 1, unset), L, par);
    }
  }

  /**
   * The table reconstruct_partitioned_solution reads: the part count and max_var, maxVar + 1
   * entries of which only 0..maxVar-1 are set to -1, then each variable labelled with the
   * number of separators read before it.
   */
  method ReadPartitionFile(toks: seq<int>, unset: int) returns (nPartitions: int, L: array<int>)
    requires |toks| >= 2 && toks[1] >= 0
    requires forall k :: 2 <= k < |toks| ==> 0 <= toks[k] <= toks[1]
    ensures nPartitions == toks[0] && fresh(L)
    ensures L[..] == ReadAll(Reading(Initial(toks[1], unset), 0), toks[2..]).labels
  {
    nPartitions := toks[0];
    var maxVar := toks[1];
    L := new int[maxVar + 1](_ => unset);
    for i := 0 to maxVar
      invariant forall v :: 0 <= v < i ==> L[v] == -1
      invariant forall v :: i <= v <= maxVar ==> L[v] == unset
    {
      L[i] := -1;
    }
    assert L[..] == Initial(maxVar, unset);
    var par := 0;
    for k := 2 to |toks|
      invariant Reading(L[..], par) == ReadAll(Reading(Initial(maxVar, unset), 0), toks[2..k])
    {
      assert toks[2..k + 1][..k - 2] == toks[2..k];
      var v := toks[k];
      if v == 0 {
        par := par + 1;
      } else {
        L[v] := par;
      }
    }
    assert toks[2..|toks|] == toks[2..];
  }

  /** The literals of sol that are in part i. */
  function Keep(L: seq<int>, sol: seq<int>, i: int): seq<int>
    requires forall j :: 0 <= j < |sol| ==> Abs(sol[j]) < |L|
  {
    if sol == [] then []
    else Keep(L, sol[..|sol| - 1], i) + (if L[Abs(sol[|sol| - 1])] == i then [sol[|sol| - 1]] else [])
  }

  /** Keep takes exactly the literals of sol whose variable is in part i. */
  lemma {:induction false} KeepMeaning(L: seq<int>, sol: seq<int>, i: int, x: int)
    requires forall j :: 0 <= j < |sol| ==> Abs(sol[j]) < |L|
    ensures x in Keep(L, sol, i) <==> (x in sol && L[Abs(x)] == i)
    decreases |sol|
  {
    if sol != [] {
      var init := sol[..|sol| - 1];
      assert sol == init + [sol[|sol| - 1]];
      KeepMeaning(L, init, i, x);
    }
  }

  /** The solution of part i, or nothing when it has none. */
  function SolutionOf(sols: seq<seq<int>>, i: int): seq<int>
  {
    if 0 <= i < |sols| then sols[i] else []
  }

  /** Every solution literal's variable is at most maxVar. */
  predicate SolutionsInRange(sols: seq<seq<int>>, maxVar: int)
  {
    forall i, j :: 0 <= i < |sols| && 0 <= j < |sols[i]| ==> Abs(sols[i][j]) <= maxVar
  }

  /** The combined solution: the kept literals of parts 0..n-1, in that order. */
  function Combined(L: seq<int>, sols: seq<seq<int>>, n: int): seq<int>
    requires SolutionsInRange(sols, |L| - 1)
    decreases if n < 0 then 0 else n
  {
    if n <= 0 then [] else Combined(L, sols, n - 1) + Keep(L, SolutionOf(sols, n - 1), n - 1)
  }

  /**
   * reconstruct_partitioned_solution: read the partition file, then for each part i keep the
   * literals of its solution whose variable the file puts in part i (the "v" tokens and line
   * breaks of the text are not modelled).
   */
  method Reconstruct(toks: seq<int>, sols: seq<seq<int>>, unset: int) returns (out: seq<int>)
    requires |toks| >= 2 && toks[1] >= 0
    requires forall k :: 2 <= k < |toks| ==> 0 <= toks[k] <= toks[1]
    requires SolutionsInRange(sols, toks[1])
    ensures out == Combined(ReadAll(Reading(Initial(toks[1], unset), 0), toks[2..]).labels, sols, toks[0])
  {
    var nPartitions, L := ReadPartitionFile(toks, unset);
    ghost var R := ReadAll(Reading(Initial(toks[1], unset), 0), toks[2..]).labels;
    assert L[..] == R;
    out := [];
    for i := 0 to if nPartitions < 0 then 0 else nPartitions
      invariant L[..] == R && out == Combined(R, sols, i)
    {
      SolutionRange(sols, i, L.Length - 1);
      var kept := KeepPart(L, SolutionOf(sols, i), i);
      out := out + kept;
    }
    if nPartitions < 0 {
      assert Combined(R, sols, nPartitions) == [];
    }
  }

  /** The inner loop of the reconstruction: the literals of one solution whose variable is in part i. */
  method KeepPart(L: array<int>, sol: seq<int>, i: int) returns (kept: seq<int>)
    requires forall j :: 0 <= j < |sol| ==> Abs(sol[j]) < L.Length
    ensures kept == Keep(L[..], sol, i)
  {
    kept := [];
    for j := 0 to |sol|
      invariant kept == Keep(L[..], sol[..j], i)
    {
      assert sol[..j + 1][..j] == sol[..j];
      var lit := sol[j];
      if L[Abs(lit)] == i {
        kept := kept + [lit];
      }
    }
    assert sol[..|sol|] == sol;
  }

  /** Two tables that agree on every variable keep the same literals. */
  lemma {:induction false} KeepSame(R: seq<int>, L: seq<int>, sol: seq<int>, i: int)
    requires |R| == |L| && forall v :: 0 <= v < |L| ==> R[v] == L[v]
    requires forall j :: 0 <= j < |sol| ==> Abs(sol[j]) < |L|
    ensures Keep(R, sol, i) == Keep(L, sol, i)
    decreases |sol|
  {
    if sol != [] {
      KeepSame(R, L, sol[..|sol| - 1], i);
    }
  }

  /** Each part's solution has its variables up to maxVar. */
  lemma SolutionRange(sols: seq<seq<int>>, i: int, maxVar: int)
    requires SolutionsInRange(sols, maxVar)
    ensures forall j :: 0 <= j < |SolutionOf(sols, i)| ==> Abs(SolutionOf(sols, i)[j]) <= maxVar
  {
  }

  /** ... and so combine the solutions alike. */
  lemma {:induction false} CombinedSame(R: seq<int>, L: seq<int>, sols: seq<seq<int>>, n: nat)
    requires |R| == |L| && forall v :: 0 <= v < |L| ==> R[v] == L[v]
    requires SolutionsInRange(sols, |L| - 1)
    ensures Combined(R, sols, n) == Combined(L, sols, n)
  {
    if n > 0 {
      var sol := SolutionOf(sols, n - 1);
      SolutionRange(sols, n - 1, |L| - 1);
      calc {
        Combined(R, sols, n);
      == { CombinedStep(R, sols, n); }
        Combined(R, sols, n - 1) + Keep(R, sol, n - 1);
      == { CombinedSame(R, L, sols, n - 1); KeepSame(R, L, sol, n - 1); }
        Combined(L, sols, n - 1) + Keep(L, sol, n - 1);
      == { CombinedStep(L, sols, n); }
        Combined(L, sols, n);
      }
    }
  }

  /** One more part's kept literals. */
  lemma CombinedStep(L: seq<int>, sols: seq<seq<int>>, n: nat)
    requires SolutionsInRange(sols, |L| - 1) && n > 0
    ensures Combined(L, sols, n) == Combined(L, sols, n - 1) + Keep(L, SolutionOf(sols, n - 1), n - 1)
  {
  }

  /** Reading never writes entry 0: a 0 token is a separator, not a variable. */
  lemma {:induction false} ReadKeepsZero(r: Reading, toks: seq<int>)
    requires |r.labels| >= 1
    ensures ReadAll(r, toks).labels[0] == r.labels[0]
  {
    if toks != [] {
      ReadKeepsZero(r, toks[..|toks| - 1]);
    }
  }

  /**
   * Keeping by the labels read back from a written partition file is keeping by the labelling
   * itself: the combined solution takes from part i exactly the literals of i's variables.
   * A solution may hold the terminating 0 of a "v ... 0" line: entry 0 of the table read back
   * is -1 as in the labelling, so the 0 is never kept.
   */
  lemma CombinedRoundTrip(L: seq<int>, par: nat, sols: seq<seq<int>>, unset: int)
    requires |L| >= 2 && L[0] == -1 && forall v :: 1 <= v < |L| ==> 0 <= L[v] < par
    requires SolutionsInRange(sols, |L| - 1)
    ensures Combined(ReadAll(Reading(Initial(|L| - 1, unset), 0), Listing(L, par)).labels, sols, par) == Combined(L, sols, par)
  {
    var r0 := Reading(Initial(|L| - 1, unset), 0);
    var R := ReadAll(r0, Listing(L, par)).labels;
    PartitionFileRoundTrip(L, par, unset);
    ReadKeepsZero(r0, Listing(L, par));
    CombinedSame(R, L, sols, par);
  }

  // ----- partition_clauses -----------------------------------------------------------------

  /**
   * partition_clauses over the checker's clauses and cardinality constraints: it stops the
   * program exactly when some variable shares a list with the literal 0; otherwise the labels
   * are the formula's components, the partition file lists them, and each part's formula
   * holds exactly the constraints that mention it.
   */
  method PartitionClauses(k: CheckSat.KnfCheck) returns (ok: bool, L: array<int>, par: nat, partitionFile: seq<int>, formulas: seq<Formula>)
    requires k.maxVar >= 0 && InRange(Lists(k.clauses, k.cards), k.maxVar)
    ensures fresh(L) && L.Length == k.maxVar + 1
    ensures ok <==> forall v :: 1 <= v <= k.maxVar ==> !CoOccur(Lists(k.clauses, k.cards), v, 0)
    ensures ok ==> Components(Lists(k.clauses, k.cards), L[..], par)
    ensures ok ==> partitionFile == [par, k.maxVar] + Listing(L[..], par)
    ensures ok ==> (|formulas| == par &&
      forall P :: 0 <= P < par ==> PartFormula(k.clauses, k.cards, k.maxVar, L[..], P, formulas[P]))
  {
    var g := MakeGraph(k.clauses, k.cards, k.maxVar);
    ok, L, par := Label(g, k.maxVar);
    partitionFile, formulas := [], [];
    if !ok {
      return;
    }
    LabelledComponents(Lists(k.clauses, k.cards), g[..], L[..], par);
    partitionFile := WritePartitionFile(L, par, k.maxVar);
    formulas := Formulas(k.clauses, k.cards, k.maxVar, L, par);
  }
}

/**
 * The graph behind the direct at-most-one engine of cnf2knf (Extractor/cnf2knf/src/direct_AMO.hpp):
 * every live binary clause (x, y) is an edge between -x and -y; a clique q of k literals whose
 * k(k-1)/2 binary clauses all sit in the store says "at most one of q", which is the klause
 * "at least k - 1 of the negations of q". This module holds the two maps, cliques, what they
 * mean and the engine's invariant; the engine itself is in module DirectAmo.
 */
module AmoGraph {
  import opened Lits
  import opened Extractor

  /** A key of clause_id_map: two literals, the one of smaller variable first. */
  type Key = (int, int)

  /** The key of a binary clause: its literals negated, the smaller variable first. */
  function EdgeKey(c: seq<int>): (k: Key)
    requires |c| == 2
    ensures (k == (-c[0], -c[1]) || k == (-c[1], -c[0])) && Abs(k.0) <= Abs(k.1)
  {
    if Abs(c[0]) < Abs(c[1]) then (-c[0], -c[1]) else (-c[1], -c[0])
  }

  /** The clauses generate_maps indexes: live, with exactly two literals. */
  predicate Indexable(c: Klause) { !c.deleted && |c.lits| == 2 }

  /**
   * The store holds ordinary clauses of non-zero literals, and no binary clause names one
   * variable twice (remove_edge asserts that the two variables of a key differ).
   */
  predicate ProperClauses(cs: seq<Klause>)
  {
    forall i :: 0 <= i < |cs| ==>
      cs[i].bound == 1 && NonZero(cs[i].lits) && (|cs[i].lits| == 2 ==> Abs(cs[i].lits[0]) != Abs(cs[i].lits[1]))
  }

  /** Two stores with the same clauses, whatever has been deleted. */
  predicate SameShape(cs: seq<Klause>, ds: seq<Klause>)
  {
    |cs| == |ds| && forall i :: 0 <= i < |cs| ==> cs[i].lits == ds[i].lits && cs[i].bound == ds[i].bound
  }

  lemma MarkDeletedShape(cs: seq<Klause>, ids: seq<int>)
    ensures SameShape(MarkDeleted(cs, ids), cs)
  {
  }

  // ---------------------------------------------------------------- the two maps

  /** edge_map[a], read without inserting. */
  function Neighbours(edges: map<int, set<int>>, a: int): set<int>
  {
    if a in edges then edges[a] else {}
  }

  /** edge_map[a].insert(b). */
  function AddEdge(edges: map<int, set<int>>, a: int, b: int): map<int, set<int>>
  {
    edges[a := Neighbours(edges, a) + {b}]
  }

  /** clause_id_map after generate_maps over cs: each indexable clause under its key, the last one winning. */
  function IdIndex(cs: seq<Klause>): map<Key, int>
  {
    if cs == [] then map[]
    else
      var i := |cs| - 1;
      if Indexable(cs[i]) then IdIndex(cs[..i])[EdgeKey(cs[i].lits) := i] else IdIndex(cs[..i])
  }

  /** The store holds no live binary clause, so generate_maps indexes nothing. */
  predicate NoBinary(cs: seq<Klause>)
  {
    forall i :: 0 <= i < |cs| ==> !Indexable(cs[i])
  }

  lemma {:induction false} NoBinaryIndex(cs: seq<Klause>)
    requires NoBinary(cs)
    ensures IdIndex(cs) == map[]
    decreases |cs|
  {
    if cs != [] {
      var init := cs[..|cs| - 1];
      assert NoBinary(init) by {
        forall i | 0 <= i < |init| ensures !Indexable(init[i]) {
          assert init[i] == cs[i];
        }
      }
      NoBinaryIndex(init);
    }
  }

  /** edge_map after generate_maps over cs: each key as an edge in both directions. */
  function Adjacency(cs: seq<Klause>): map<int, set<int>>
  {
    if cs == [] then map[]
    else
      var i := |cs| - 1;
      if Indexable(cs[i]) then
        var k := EdgeKey(cs[i].lits);
        AddEdge(AddEdge(Adjacency(cs[..i]), k.0, k.1), k.1, k.0)
      else Adjacency(cs[..i])
  }

  /**
   * The invariant between the maps: every key has two variables in order and is an edge both
   * ways, and every edge comes from a key.
   */
  predicate Consistent(ids: map<Key, int>, edges: map<int, set<int>>)
  {
    (forall k :: k in ids ==> Abs(k.0) < Abs(k.1) && k.0 in edges && k.1 in edges[k.0] && k.1 in edges && k.0 in edges[k.1]) &&
    (forall a, b :: a in edges && b in edges[a] ==> (a, b) in ids || (b, a) in ids)
  }

  /** Each key names a clause of the store whose key it is. */
  predicate Indexed(ids: map<Key, int>, cs: seq<Klause>)
  {
    forall k :: k in ids ==> 0 <= ids[k] < |cs| && |cs[ids[k]].lits| == 2 && EdgeKey(cs[ids[k]].lits) == k
  }

  /** Each key names a live clause. */
  predicate LiveIds(ids: map<Key, int>, cs: seq<Klause>)
  {
    forall k :: k in ids ==> 0 <= ids[k] < |cs| && !cs[ids[k]].deleted
  }

  /** For a pair of variables in order, being a key is being an edge both ways. */
  lemma ConsistentIff(ids: map<Key, int>, edges: map<int, set<int>>, a: int, b: int)
    requires Consistent(ids, edges) && Abs(a) < Abs(b)
    ensures (a, b) in ids <==> b in Neighbours(edges, a) && a in Neighbours(edges, b)
  {
  }

  /** Edges are symmetric and join literals of different variables. */
  lemma Adjacent(ids: map<Key, int>, edges: map<int, set<int>>, x: int, y: int)
    requires Consistent(ids, edges) && y in Neighbours(edges, x)
    ensures x in Neighbours(edges, y) && Abs(x) != Abs(y)
  {
    assert (x, y) in ids || (y, x) in ids;
  }

  /** Inserting a key of two variables in order, and its edge both ways, keeps the maps consistent. */
  lemma AddKeyConsistent(ids: map<Key, int>, edges: map<int, set<int>>, k: Key, i: int)
    requires Consistent(ids, edges) && Abs(k.0) < Abs(k.1)
    ensures Consistent(ids[k := i], AddEdge(AddEdge(edges, k.0, k.1), k.1, k.0))
  {
    var ids', edges' := ids[k := i], AddEdge(AddEdge(edges, k.0, k.1), k.1, k.0);
    forall x | x in edges ensures Neighbours(edges, x) <= Neighbours(edges', x) { }
    forall x, y | x in edges' && y in edges'[x] ensures (x, y) in ids' || (y, x) in ids' {
      if !((x == k.0 && y == k.1) || (x == k.1 && y == k.0)) {
        assert x in edges && y in edges[x];
      }
    }
  }

  /** generate_maps establishes the invariant between the maps. */
  lemma {:induction false} IndexConsistent(cs: seq<Klause>)
    requires ProperClauses(cs)
    ensures Consistent(IdIndex(cs), Adjacency(cs))
  {
    if cs != [] {
      var i := |cs| - 1;
      var pre := cs[..i];
      assert ProperClauses(pre) by {
        forall j | 0 <= j < |pre| ensures pre[j] == cs[j] { }
      }
      IndexConsistent(pre);
      if Indexable(cs[i]) {
        AddKeyConsistent(IdIndex(pre), Adjacency(pre), EdgeKey(cs[i].lits), i);
      }
    }
  }

  /** generate_maps indexes only live binary clauses, each under its own key. */
  lemma {:induction false} IndexSound(cs: seq<Klause>)
    ensures Indexed(IdIndex(cs), cs) && LiveIds(IdIndex(cs), cs)
  {
    if cs != [] {
      var i := |cs| - 1;
      var pre := cs[..i];
      IndexSound(pre);
      forall k | k in IdIndex(pre) ensures cs[IdIndex(pre)[k]] == pre[IdIndex(pre)[k]] { }
    }
  }

  /** generate_maps indexes every live binary clause: its key is present. */
  lemma {:induction false} IndexComplete(cs: seq<Klause>, i: int)
    requires 0 <= i < |cs| && Indexable(cs[i])
    ensures EdgeKey(cs[i].lits) in IdIndex(cs)
  {
    var n := |cs| - 1;
    if i < n {
      assert cs[..n][i] == cs[i];
      IndexComplete(cs[..n], i);
    }
  }

  /** remove_edge on the edge map: b leaves a's neighbours and a leaves b's. */
  function CutEdge(edges: map<int, set<int>>, a: int, b: int): map<int, set<int>>
  {
    edges[a := Neighbours(edges, a) - {b}][b := Neighbours(edges[a := Neighbours(edges, a) - {b}], b) - {a}]
  }

  /** Removing a key and its edge keeps the maps consistent. */
  lemma CutConsistent(ids: map<Key, int>, edges: map<int, set<int>>, a: int, b: int)
    requires Consistent(ids, edges) && (a, b) in ids
    ensures Consistent(ids - {(a, b)}, CutEdge(edges, a, b))
  {
    var ids', edges' := ids - {(a, b)}, CutEdge(edges, a, b);
    assert Abs(a) < Abs(b);
    forall x | x in edges' ensures Neighbours(edges', x) <= Neighbours(edges, x) { }
    forall k | k in ids' ensures k.1 in Neighbours(edges', k.0) && k.0 in Neighbours(edges', k.1) {
      assert k != (b, a);
    }
  }

  /** Removing a list of keys in order. */
  function CutAll(edges: map<int, set<int>>, ps: seq<Key>): map<int, set<int>>
  {
    if ps == [] then edges else CutEdge(CutAll(edges, ps[..|ps| - 1]), ps[|ps| - 1].0, ps[|ps| - 1].1)
  }

  /** Taking a list of keys out of the index, in order. */
  function RemoveAll(ids: map<Key, int>, ps: seq<Key>): map<Key, int>
  {
    if ps == [] then ids else RemoveAll(ids, ps[..|ps| - 1]) - {ps[|ps| - 1]}
  }

  /** Taking the keys out one by one takes out the set of them. */
  lemma {:induction false} RemoveAllKeys(ids: map<Key, int>, ps: seq<Key>)
    ensures RemoveAll(ids, ps) == ids - KeySet(ps)
  {
    if ps != [] {
      var n := |ps| - 1;
      RemoveAllKeys(ids, ps[..n]);
      assert KeySet(ps) == KeySet(ps[..n]) + {ps[n]} by {
        forall k | k in KeySet(ps) ensures k in KeySet(ps[..n]) + {ps[n]} {
          var t :| 0 <= t < |ps| && ps[t] == k;
          if t < n {
            assert ps[..n][t] == k;
          }
        }
      }
    }
  }

  /** The ids the keys of ps name, in order. */
  function Lookup(ids: map<Key, int>, ps: seq<Key>): (r: seq<int>)
    requires forall t :: 0 <= t < |ps| ==> ps[t] in ids
    ensures |r| == |ps| && forall t :: 0 <= t < |ps| ==> r[t] == ids[ps[t]]
  {
    seq(|ps|, t requires 0 <= t < |ps| => ids[ps[t]])
  }

  function KeySet(ps: seq<Key>): set<Key>
  {
    set t | 0 <= t < |ps| :: ps[t]
  }

  // ---------------------------------------------------------------- cliques

  /** Strictly increasing in variable: clique_set after its sort by abs. */
  predicate AbsSorted(q: seq<int>)
  {
    forall i, j :: 0 <= i < j < |q| ==> Abs(q[i]) < Abs(q[j])
  }

  /** Every two members are joined by an edge. */
  predicate Clique(edges: map<int, set<int>>, q: seq<int>)
  {
    forall i, j :: 0 <= i < j < |q| ==> q[j] in Neighbours(edges, q[i])
  }

  /** Every two members of the set are joined by an edge. */
  predicate Joined(edges: map<int, set<int>>, s: set<int>)
  {
    forall x, y :: x in s && y in s && x != y ==> y in Neighbours(edges, x)
  }

  /** Some member of s other than o is not joined to o, so o cannot join s. */
  predicate Blocked(edges: map<int, set<int>>, o: int, s: set<int>)
  {
    exists c :: c in s && c != o && c !in Neighbours(edges, o)
  }

  /** What is blocked stays blocked as the set grows. */
  lemma BlockedGrow(edges: map<int, set<int>>, done: set<int>, s: set<int>, x: int)
    requires forall o :: o in done && o !in s ==> Blocked(edges, o, s)
    ensures forall o :: o in done && o !in s + {x} ==> Blocked(edges, o, s + {x})
  {
    forall o | o in done && o !in s + {x} ensures Blocked(edges, o, s + {x}) {
      var c :| c in s && c != o && c !in Neighbours(edges, o);
      assert c in s + {x};
    }
  }

  /**
   * The state of expand_clique's loop over lit's neighbours nb, todo still to visit: the
   * members taken are lit and visited neighbours, pairwise joined; every visited neighbour
   * left out is blocked; once a neighbour has been visited, one has been taken.
   */
  predicate Growing(edges: map<int, set<int>>, lit: int, nb: set<int>, todo: set<int>, taken: set<int>)
  {
    todo <= nb && lit in taken && lit !in todo && taken - {lit} <= nb - todo && Joined(edges, taken) &&
    (forall o :: o in nb - todo && o !in taken ==> Blocked(edges, o, taken)) &&
    (todo == nb ==> taken == {lit}) &&
    (todo != nb ==> exists o :: o in taken && o != lit)
  }

  /** One visit of expand_clique's loop keeps its state. */
  lemma GrowStep(ids: map<Key, int>, edges: map<int, set<int>>, lit: int, nb: set<int>, todo: set<int>,
                 taken: set<int>, olit: int, joined: bool)
    requires Consistent(ids, edges) && lit in edges && nb == edges[lit]
    requires Growing(edges, lit, nb, todo, taken) && olit in todo
    requires joined <==> forall c :: c in taken && c != olit ==> c in Neighbours(edges, olit)
    ensures Growing(edges, lit, nb, todo - {olit}, if joined then taken + {olit} else taken)
  {
    if todo == nb {
      Adjacent(ids, edges, lit, olit);
      assert joined;
    }
    if joined {
      forall x | x in taken && x != olit ensures olit in Neighbours(edges, x) {
        Adjacent(ids, edges, olit, x);
      }
      var todo', taken' := todo - {olit}, taken + {olit};
      BlockedGrow(edges, nb - todo, taken, olit);
      assert Joined(edges, taken');
      assert olit in nb && olit !in todo';
      forall x | x in taken' - {lit} ensures x in nb - todo' {
        if x != olit {
          assert x in taken - {lit};
        }
      }
      forall o | o in nb - todo' && o !in taken' ensures Blocked(edges, o, taken') {
        assert o in nb - todo;
      }
      assert olit in taken' && olit != lit;
    } else {
      forall o | o in nb - (todo - {olit}) && o !in taken ensures Blocked(edges, o, taken) {
        if o == olit {
          var c :| c in taken && c != olit && c !in Neighbours(edges, olit);
        }
      }
    }
  }

  /** The pairs (x, ys[j]) in order. */
  function Row(x: int, ys: seq<int>): (r: seq<Key>)
    ensures |r| == |ys| && forall j :: 0 <= j < |ys| ==> r[j] == (x, ys[j])
  {
    seq(|ys|, j requires 0 <= j < |ys| => (x, ys[j]))
  }

  /** The pairs (q[i], q[j]) with i below n and i < j, row by row. */
  function RowsBefore(q: seq<int>, n: nat): seq<Key>
    requires n <= |q|
  {
    if n == 0 then [] else RowsBefore(q, n - 1) + Row(q[n - 1], q[n..])
  }

  /** The pairs find_clique_clauses visits: (q[i], q[j]) for i < j, in the order of its two loops. */
  function CliquePairs(q: seq<int>): seq<Key>
  {
    RowsBefore(q, |q|)
  }

  /** p is (q[i], q[j]) for some i < j, with i below n. */
  predicate PairOf(q: seq<int>, p: Key, n: int)
  {
    exists i, j :: 0 <= i < j < |q| && i < n && p == (q[i], q[j])
  }

  /** Every listed pair is two members of q in order. */
  lemma {:induction false} RowsMembers(q: seq<int>, n: nat)
    requires n <= |q|
    ensures forall t :: 0 <= t < |RowsBefore(q, n)| ==> PairOf(q, RowsBefore(q, n)[t], n)
  {
    if n > 0 {
      RowsMembers(q, n - 1);
      var pre, row := RowsBefore(q, n - 1), Row(q[n - 1], q[n..]);
      var rows := RowsBefore(q, n);
      assert rows == pre + row;
      forall t | 0 <= t < |rows| ensures PairOf(q, rows[t], n) {
        if t >= |pre| {
          var j := n + t - |pre|;
          assert rows[t] == (q[n - 1], q[j]) && 0 <= n - 1 < j < |q|;
        } else {
          assert PairOf(q, pre[t], n - 1);
          var i, j :| 0 <= i < j < |q| && i < n - 1 && pre[t] == (q[i], q[j]);
          assert rows[t] == (q[i], q[j]);
        }
      }
    }
  }

  /** Every pair of members in order is listed: (q[i], q[j]) sits at a known place. */
  lemma {:induction false} RowsCover(q: seq<int>, n: nat, i: int, j: int)
    requires n <= |q| && 0 <= i < j < |q| && i < n
    ensures exists t :: 0 <= t < |RowsBefore(q, n)| && RowsBefore(q, n)[t] == (q[i], q[j])
  {
    var pre, row := RowsBefore(q, n - 1), Row(q[n - 1], q[n..]);
    assert RowsBefore(q, n) == pre + row;
    if i == n - 1 {
      assert (pre + row)[|pre| + j - n] == (q[i], q[j]);
    } else {
      RowsCover(q, n - 1, i, j);
      var t :| 0 <= t < |pre| && pre[t] == (q[i], q[j]);
      assert (pre + row)[t] == (q[i], q[j]);
    }
  }

  /** There are k(k-1)/2 pairs: twice the number of rows-so-far pairs is n(2k - n - 1). */
  lemma {:induction false} RowsCount(q: seq<int>, n: nat)
    requires n <= |q|
    ensures 2 * |RowsBefore(q, n)| == n * (2 * |q| - n - 1)
  {
    if n > 0 {
      RowsCount(q, n - 1);
      var before := 2 * |RowsBefore(q, n - 1)|;
      assert |RowsBefore(q, n)| == |RowsBefore(q, n - 1)| + (|q| - n);
      RowCountStep(n, |q|, before);
    }
  }

  /** The arithmetic of one more row: (n-1)(2k-n) + 2(k-n) == n(2k-n-1). */
  lemma RowCountStep(n: int, k: int, before: int)
    requires before == (n - 1) * (2 * k - n)
    ensures before + 2 * (k - n) == n * (2 * k - n - 1)
  {
    assert (n - 1) * (2 * k - n) == n * (2 * k - n) - (2 * k - n);
  }

  /** find_clique_clauses collects k(k-1)/2 ids for a clique of k. */
  lemma CliquePairsCount(q: seq<int>)
    ensures 2 * |CliquePairs(q)| == |q| * (|q| - 1)
  {
    RowsCount(q, |q|);
  }

  /** The pairs of a clique sorted by variable are keys of a consistent map, each once. */
  lemma CliquePairsPresent(ids: map<Key, int>, edges: map<int, set<int>>, q: seq<int>)
    requires Consistent(ids, edges) && AbsSorted(q) && Clique(edges, q)
    ensures forall t :: 0 <= t < |CliquePairs(q)| ==> CliquePairs(q)[t] in ids
    ensures forall s, t :: 0 <= s < t < |CliquePairs(q)| ==> CliquePairs(q)[s] != CliquePairs(q)[t]
  {
    var ps := CliquePairs(q);
    RowsMembers(q, |q|);
    forall t | 0 <= t < |ps| ensures ps[t] in ids {
      assert PairOf(q, ps[t], |q|);
      var i, j :| 0 <= i < j < |q| && ps[t] == (q[i], q[j]);
      Adjacent(ids, edges, q[i], q[j]);
      ConsistentIff(ids, edges, q[i], q[j]);
    }
    RowsDistinct(q, |q|);
  }

  lemma {:induction false} RowsDistinct(q: seq<int>, n: nat)
    requires n <= |q| && AbsSorted(q)
    ensures forall s, t :: 0 <= s < t < |RowsBefore(q, n)| ==> RowsBefore(q, n)[s] != RowsBefore(q, n)[t]
  {
    if n > 0 {
      RowsDistinct(q, n - 1);
      RowsMembers(q, n - 1);
      var pre, row := RowsBefore(q, n - 1), Row(q[n - 1], q[n..]);
      forall s, t | 0 <= s < t < |pre + row| ensures (pre + row)[s] != (pre + row)[t] {
        if t >= |pre| {
          if s < |pre| {
            assert PairOf(q, pre[s], n - 1);
            var i, j :| 0 <= i < j < |q| && i < n - 1 && pre[s] == (q[i], q[j]);
            assert Abs(q[i]) < Abs(q[n - 1]);
          } else {
            assert Abs(q[n + s - |pre|]) < Abs(q[n + t - |pre|]);
          }
        }
      }
    }
  }

  // ---------------------------------------------------------------- meaning

  /** The klause emit_AMO builds: the clique negated, bound k - 1. */
  function AmoKlause(q: seq<int>): Klause
  {
    NewKlause(Negate(q), |q| - 1)
  }

  /**
   * ids name, pair by pair, the binary clauses of q: clause t of the list has the t-th pair of
   * q as its key, so it says "not both" of that pair.
   */
  predicate Justified(q: seq<int>, ids: seq<int>, cs: seq<Klause>)
  {
    |ids| == |CliquePairs(q)| &&
    forall t :: 0 <= t < |ids| ==> 0 <= ids[t] < |cs| && |cs[ids[t]].lits| == 2 && EdgeKey(cs[ids[t]].lits) == CliquePairs(q)[t]
  }

  lemma JustifiedShape(q: seq<int>, ids: seq<int>, cs: seq<Klause>, ds: seq<Klause>)
    requires Justified(q, ids, cs) && SameShape(cs, ds)
    ensures Justified(q, ids, ds)
  {
  }

  /** At most one literal is true exactly when no two are. */
  lemma {:induction false} AtMostOne(q: seq<int>, a: Assignment)
    ensures CountTrue(q, a) <= 1 <==> forall i, j :: 0 <= i < j < |q| ==> !(LitTrue(a, q[i]) && LitTrue(a, q[j]))
  {
    if q != [] {
      var init, last := q[..|q| - 1], q[|q| - 1];
      AtMostOne(init, a);
      if LitTrue(a, last) && CountTrue(init, a) >= 1 {
        CountTruePositive(init, a);
        var i :| 0 <= i < |init| && LitTrue(a, init[i]);
        assert LitTrue(a, q[i]) && LitTrue(a, q[|q| - 1]);
      }
      if CountTrue(q, a) <= 1 {
        forall i, j | 0 <= i < j < |q| ensures !(LitTrue(a, q[i]) && LitTrue(a, q[j])) {
          if j < |q| - 1 {
            assert q[i] == init[i] && q[j] == init[j];
          } else if LitTrue(a, q[i]) {
            assert LitTrue(a, init[i]);
            CountTruePositive(init, a);
          }
        }
      } else {
        assert exists i, j :: 0 <= i < j < |q| && LitTrue(a, q[i]) && LitTrue(a, q[j]) by {
          if CountTrue(init, a) > 1 {
            var i, j :| 0 <= i < j < |init| && LitTrue(a, init[i]) && LitTrue(a, init[j]);
            assert LitTrue(a, q[i]) && LitTrue(a, q[j]);
          } else {
            CountTruePositive(init, a);
            var i :| 0 <= i < |init| && LitTrue(a, init[i]);
            assert LitTrue(a, q[i]) && LitTrue(a, q[|q| - 1]);
          }
        }
      }
    }
  }

  /** A binary clause of non-zero literals holds iff the two literals of its key are not both true. */
  lemma BinaryClauseMeaning(c: Klause, a: Assignment)
    requires |c.lits| == 2 && c.bound == 1 && NonZero(c.lits)
    ensures Satisfied(c, a) <==> !(LitTrue(a, EdgeKey(c.lits).0) && LitTrue(a, EdgeKey(c.lits).1))
  {
    CountTruePositive(c.lits, a);
  }

  /** Every member of a clique of two or more is in one of its pairs, so is a negated clause literal. */
  lemma JustifiedNonZero(q: seq<int>, ids: seq<int>, cs: seq<Klause>)
    requires Justified(q, ids, cs) && ProperClauses(cs) && |q| >= 2
    ensures NonZero(q)
  {
    forall i | 0 <= i < |q| ensures q[i] != 0 {
      var j := if i == 0 then 1 else 0;
      var lo, hi := if i < j then i else j, if i < j then j else i;
      RowsCover(q, |q|, lo, hi);
      var t :| 0 <= t < |CliquePairs(q)| && CliquePairs(q)[t] == (q[lo], q[hi]);
      var c := cs[ids[t]].lits;
      assert EdgeKey(c) == (q[lo], q[hi]);
      assert c[0] != 0 && c[1] != 0;
    }
  }

  /**
   * The klause emit_AMO commits is equivalent to the binary clauses it consumes: at least
   * k - 1 of the negations hold iff no two clique literals hold iff every clause holds.
   */
  lemma JustifiedMeaning(q: seq<int>, ids: seq<int>, cs: seq<Klause>, a: Assignment)
    requires Justified(q, ids, cs) && ProperClauses(cs)
    ensures Satisfied(AmoKlause(q), a) <==> forall t :: 0 <= t < |ids| ==> Satisfied(cs[ids[t]], a)
  {
    var ps := CliquePairs(q);
    if |q| >= 2 {
      JustifiedNonZero(q, ids, cs);
      CountNegate(q, a);
    }
    AtMostOne(q, a);
    forall t | 0 <= t < |ids|
      ensures Satisfied(cs[ids[t]], a) <==> !(LitTrue(a, ps[t].0) && LitTrue(a, ps[t].1))
    {
      BinaryClauseMeaning(cs[ids[t]], a);
    }
    RowsMembers(q, |q|);
    if forall t :: 0 <= t < |ids| ==> Satisfied(cs[ids[t]], a) {
      forall i, j | 0 <= i < j < |q| ensures !(LitTrue(a, q[i]) && LitTrue(a, q[j])) {
        RowsCover(q, |q|, i, j);
      }
    }
  }

  /** The formula a store stands for: its klauses and its live clauses. */
  predicate Holds(cs: seq<Klause>, ks: seq<Klause>, a: Assignment)
  {
    AllSatisfied(ks, a) && forall i :: 0 <= i < |cs| && !cs[i].deleted ==> Satisfied(cs[i], a)
  }

  /** A store stands for its own formula and has its own shape. */
  lemma KeepsFormula(cs: seq<Klause>, ks: seq<Klause>)
    ensures SameShape(cs, cs) && Equivalent(cs, ks, cs, ks)
  {
  }

  /** Two stores stand for the same formula. */
  ghost predicate Equivalent(cs: seq<Klause>, ks: seq<Klause>, ds: seq<Klause>, ls: seq<Klause>)
  {
    forall a :: Holds(cs, ks, a) <==> Holds(ds, ls, a)
  }

  /** Committing a klause equivalent to live clauses, and deleting those, keeps the formula. */
  lemma CommitEquivalent(cs: seq<Klause>, ks: seq<Klause>, k: Klause, ids: seq<int>, a: Assignment)
    requires forall t :: 0 <= t < |ids| ==> 0 <= ids[t] < |cs| && !cs[ids[t]].deleted
    requires Satisfied(k, a) <==> forall t :: 0 <= t < |ids| ==> Satisfied(cs[ids[t]], a)
    ensures Holds(MarkDeleted(cs, ids), ks + [k], a) <==> Holds(cs, ks, a)
  {
    var ds := MarkDeleted(cs, ids);
    if Holds(cs, ks, a) {
      forall t | 0 <= t < |ids| ensures Satisfied(cs[ids[t]], a) { }
      assert AllSatisfied(ks + [k], a) by {
        forall i | 0 <= i < |ks| + 1 ensures Satisfied((ks + [k])[i], a) {
          if i < |ks| { assert (ks + [k])[i] == ks[i]; }
        }
      }
    }
    if Holds(ds, ks + [k], a) {
      assert Satisfied((ks + [k])[|ks|], a);
      forall i | 0 <= i < |ks| ensures Satisfied(ks[i], a) {
        assert (ks + [k])[i] == ks[i];
      }
      forall i | 0 <= i < |cs| && !cs[i].deleted ensures Satisfied(cs[i], a) {
        if i in ids {
          var t :| 0 <= t < |ids| && ids[t] == i;
        } else {
          assert ds[i] == cs[i];
        }
      }
    }
  }

  // ---------------------------------------------------------------- choices

  /** A finite non-empty set of literals has one of least variable. */
  lemma {:induction false} LeastAbs(s: set<int>)
    requires s != {}
    ensures exists x :: x in s && forall y :: y in s ==> Abs(x) <= Abs(y)
    decreases |s|
  {
    NonEmpty(s);
    var x0 :| x0 in s;
    if s != {x0} {
      var s' := s - {x0};
      LeastAbs(s');
      var x :| x in s' && forall y :: y in s' ==> Abs(x) <= Abs(y);
      var m := if Abs(x0) < Abs(x) then x0 else x;
      forall y | y in s ensures Abs(m) <= Abs(y) {
        if y != x0 { assert y in s'; }
      }
    } else {
      forall y | y in s ensures Abs(x0) <= Abs(y) { assert y in {x0}; }
    }
  }

  /** A finite non-empty set of integers has a least element: where a set<int> iteration starts. */
  lemma {:induction false} LeastElement(s: set<int>)
    requires s != {}
    ensures exists x :: x in s && forall y :: y in s ==> x <= y
    decreases |s|
  {
    NonEmpty(s);
    var x0 :| x0 in s;
    if s != {x0} {
      var s' := s - {x0};
      LeastElement(s');
      var x :| x in s' && forall y :: y in s' ==> x <= y;
      var m := if x0 < x then x0 else x;
      forall y | y in s ensures m <= y {
        if y != x0 { assert y in s'; }
      }
    } else {
      forall y | y in s ensures x0 <= y { assert y in {x0}; }
    }
  }

  /** A finite non-empty key set has a least key under compare_pair: where clause_id_map.begin() points. */
  lemma {:induction false} LeastKey(s: set<Key>)
    requires s != {}
    ensures exists k :: k in s && forall k' :: k' in s ==> !PairLess(k', k)
    decreases |s|
  {
    var k0 :| k0 in s;
    if s != {k0} {
      var s' := s - {k0};
      LeastKey(s');
      var k :| k in s' && forall k' :: k' in s' ==> !PairLess(k', k);
      var m := if PairLess(k0, k) then k0 else k;
      forall k' | k' in s ensures !PairLess(k', m) {
        if k' == k0 {
          PairLessOrder(k0, k, k0);
        } else {
          assert k' in s';
          PairLessOrder(k', k0, k);
        }
      }
      assert m in s;
    } else {
      forall k' | k' in s ensures !PairLess(k', k0) { assert k' in {k0}; }
    }
  }

  /** Listing a joined set by increasing variable gives a clique with the same members. */
  lemma JoinedClique(edges: map<int, set<int>>, s: set<int>, q: seq<int>)
    requires Joined(edges, s) && AbsSorted(q) && forall x :: x in q <==> x in s
    ensures Clique(edges, q) && (set x | x in q) == s
  {
    forall i, j | 0 <= i < j < |q| ensures q[j] in Neighbours(edges, q[i]) {
      assert q[i] in s && q[j] in s && Abs(q[i]) < Abs(q[j]);
    }
    assert forall x :: x in (set y | y in q) <==> x in s;
  }

  /** The sort of clique_set by abs: the members of a set whose variables differ, by increasing variable. */
  method SortByAbs(s: set<int>) returns (r: seq<int>)
    requires forall x, y :: x in s && y in s && x != y ==> Abs(x) != Abs(y)
    ensures AbsSorted(r) && forall x :: x in r <==> x in s
  {
    r := [];
    var rest := s;
    while rest != {}
      invariant rest <= s && AbsSorted(r)
      invariant forall x :: x in s <==> x in r || x in rest
      invariant forall i, y :: 0 <= i < |r| && y in rest ==> Abs(r[i]) < Abs(y)
      decreases |rest|
    {
      LeastAbs(rest);
      var x :| x in rest && forall y :: y in rest ==> Abs(x) <= Abs(y);
      r := r + [x];
      rest := rest - {x};
    }
  }

  /** Counting one more constraint of a size in constraint_sizes. */
  function Bump(m: map<int, int>, size: int): (r: map<int, int>)
    ensures size in r && r[size] == (if size in m then m[size] else 0) + 1
    ensures forall s :: s in m && s != size ==> s in r && r[s] == m[s]
  {
    m[size := (if size in m then m[size] else 0) + 1]
  }

  lemma {:induction false} SubsetSmaller<T>(a: set<T>, b: set<T>)
    requires a <= b
    ensures |a| <= |b|
    decreases |b|
  {
    if a != {} {
      var y :| y in a;
      SubsetSmaller(a - {y}, b - {y});
    }
  }

  /** Removing a set of keys that holds a present key leaves fewer keys. */
  lemma KeysShrink(m: map<Key, int>, ks: set<Key>, k: Key)
    requires k in m && k in ks
    ensures |m - ks| < |m|
  {
    assert (m - ks).Keys <= m.Keys - {k};
    SubsetSmaller((m - ks).Keys, m.Keys - {k});
  }

  /** One more pair of a list of distinct present keys: found, then removed, in the maps so far. */
  lemma RemovedStep(m: map<Key, int>, edges: map<int, set<int>>, ps: seq<Key>, t: int)
    requires 0 <= t < |ps| && forall s :: 0 <= s < |ps| ==> ps[s] in m
    requires forall s, u :: 0 <= s < u < |ps| ==> ps[s] != ps[u]
    ensures ps[t] in m - KeySet(ps[..t])
    ensures (m - KeySet(ps[..t])) - {ps[t]} == m - KeySet(ps[..t + 1])
    ensures Lookup(m, ps[..t + 1]) == Lookup(m, ps[..t]) + [m[ps[t]]]
    ensures CutAll(edges, ps[..t + 1]) == CutEdge(CutAll(edges, ps[..t]), ps[t].0, ps[t].1)
  {
    assert ps[..t + 1] == ps[..t] + [ps[t]];
    assert KeySet(ps[..t + 1]) == KeySet(ps[..t]) + {ps[t]};
  }

  /** The first rows of the pairs stay a prefix as rows are added. */
  lemma {:induction false} RowsPrefix(q: seq<int>, n: nat, m: nat)
    requires n <= m <= |q|
    ensures |RowsBefore(q, n)| <= |RowsBefore(q, m)| && RowsBefore(q, m)[..|RowsBefore(q, n)|] == RowsBefore(q, n)
    decreases m
  {
    if n < m {
      RowsPrefix(q, n, m - 1);
    }
  }

  /** The first pair of a clique of two or more is its first two members. */
  lemma FirstPair(q: seq<int>)
    requires |q| >= 2
    ensures |CliquePairs(q)| >= 1 && CliquePairs(q)[0] == (q[0], q[1])
  {
    assert RowsBefore(q, 1) == Row(q[0], q[1..]);
    RowsPrefix(q, 1, |q|);
  }

  /** A store's shape carries its properness. */
  lemma ProperShape(cs: seq<Klause>, ds: seq<Klause>)
    requires ProperClauses(cs) && SameShape(cs, ds)
    ensures ProperClauses(ds)
  {
    forall i | 0 <= i < |ds| ensures ds[i].lits == cs[i].lits { }
  }

  /** The ids of a clique's pairs, read from an index of the store, justify the clique. */
  lemma DeferredJustified(m: map<Key, int>, ps: seq<Key>, q: seq<int>, cs: seq<Klause>)
    requires Indexed(m, cs) && ps == CliquePairs(q)
    requires forall t :: 0 <= t < |ps| ==> ps[t] in m
    ensures Justified(q, Lookup(m, ps), cs)
  {
  }

  /**
   * Emitting a clique found through the index: its ids are live, so the formula is kept; the
   * keys left name clauses still live, since each id is the clause of its own key.
   */
  lemma EmitSound(m: map<Key, int>, ps: seq<Key>, q: seq<int>, cs: seq<Klause>, ks: seq<Klause>)
    requires ProperClauses(cs) && Indexed(m, cs) && LiveIds(m, cs) && ps == CliquePairs(q)
    requires forall t :: 0 <= t < |ps| ==> ps[t] in m
    ensures Equivalent(MarkDeleted(cs, Lookup(m, ps)), ks + [AmoKlause(q)], cs, ks)
    ensures LiveIds(RemoveAll(m, ps), MarkDeleted(cs, Lookup(m, ps)))
    ensures Indexed(RemoveAll(m, ps), MarkDeleted(cs, Lookup(m, ps)))
    ensures ProperClauses(MarkDeleted(cs, Lookup(m, ps)))
  {
    var ids := Lookup(m, ps);
    var ds := MarkDeleted(cs, ids);
    DeferredJustified(m, ps, q, cs);
    RemoveAllKeys(m, ps);
    forall a ensures Holds(ds, ks + [AmoKlause(q)], a) <==> Holds(cs, ks, a) {
      JustifiedMeaning(q, ids, cs, a);
      CommitEquivalent(cs, ks, AmoKlause(q), ids, a);
    }
    forall k | k in m - KeySet(ps) ensures !ds[m[k]].deleted {
      forall t | 0 <= t < |ids| ensures ids[t] != m[k] {
        assert EdgeKey(cs[ids[t]].lits) == ps[t];
        assert ps[t] in KeySet(ps);
      }
    }
    ProperShape(cs, ds);
  }

  /** The maps are consistent and index live clauses of the store. */
  predicate MapsValid(ids: map<Key, int>, edges: map<int, set<int>>, cs: seq<Klause>)
  {
    Consistent(ids, edges) && Indexed(ids, cs) && LiveIds(ids, cs)
  }

  /** Every clique set aside has three or four members and is justified by its clause ids. */
  predicate DeferredValid(qs: seq<seq<int>>, idss: seq<seq<int>>, cs: seq<Klause>)
  {
    |qs| == |idss| &&
    (qs != [] ==>
      DeferredValid(qs[..|qs| - 1], idss[..|idss| - 1], cs) &&
      3 <= |qs[|qs| - 1]| <= 4 && Justified(qs[|qs| - 1], idss[|idss| - 1], cs))
  }

  /** Each clique set aside is justified. */
  lemma {:induction false} DeferredAt(qs: seq<seq<int>>, idss: seq<seq<int>>, cs: seq<Klause>, i: int)
    requires DeferredValid(qs, idss, cs) && 0 <= i < |qs|
    ensures i < |idss| && 3 <= |qs[i]| <= 4 && Justified(qs[i], idss[i], cs)
    decreases |qs|
  {
    if i < |qs| - 1 {
      DeferredAt(qs[..|qs| - 1], idss[..|idss| - 1], cs, i);
    }
  }

  /** Setting aside a justified clique of three or four keeps the list valid. */
  lemma DeferredSnoc(qs: seq<seq<int>>, idss: seq<seq<int>>, cs: seq<Klause>, q: seq<int>, ids: seq<int>)
    requires DeferredValid(qs, idss, cs) && 3 <= |q| <= 4 && Justified(q, ids, cs)
    ensures DeferredValid(qs + [q], idss + [ids], cs)
  {
    assert (qs + [q])[..|qs|] == qs;
    assert (idss + [ids])[..|idss|] == idss;
  }

  lemma {:induction false} DeferredShape(qs: seq<seq<int>>, idss: seq<seq<int>>, cs: seq<Klause>, ds: seq<Klause>)
    requires DeferredValid(qs, idss, cs) && SameShape(cs, ds)
    ensures DeferredValid(qs, idss, ds)
    decreases |qs|
  {
    if qs != [] {
      DeferredShape(qs[..|qs| - 1], idss[..|idss| - 1], cs, ds);
      JustifiedShape(qs[|qs| - 1], idss[|idss| - 1], cs, ds);
    }
  }

  /** The engine's invariant: consistent maps over a proper store, and justified cliques set aside. */
  predicate EngineInv(ids: map<Key, int>, edges: map<int, set<int>>, cs: seq<Klause>, qs: seq<seq<int>>, idss: seq<seq<int>>)
  {
    ProperClauses(cs) && MapsValid(ids, edges, cs) && DeferredValid(qs, idss, cs)
  }

  /** A clique of two is a key of the index. */
  lemma PairKey(ids: map<Key, int>, edges: map<int, set<int>>, q: seq<int>)
    requires Consistent(ids, edges) && |q| == 2 && AbsSorted(q) && Clique(edges, q)
    ensures (q[0], q[1]) in ids
  {
    Adjacent(ids, edges, q[0], q[1]);
    ConsistentIff(ids, edges, q[0], q[1]);
  }

  /** Dropping a key keeps the invariant once the edges are consistent with what is left. */
  lemma DropValid(ids: map<Key, int>, edges: map<int, set<int>>, edges': map<int, set<int>>, cs: seq<Klause>,
                  qs: seq<seq<int>>, idss: seq<seq<int>>, k: Key)
    requires EngineInv(ids, edges, cs, qs, idss) && Consistent(ids - {k}, edges')
    ensures EngineInv(ids - {k}, edges', cs, qs, idss)
  {
  }

  /** Every pair of the clique is a key of the index. */
  predicate PairsIndexed(m: map<Key, int>, q: seq<int>)
  {
    forall t :: 0 <= t < |CliquePairs(q)| ==> CliquePairs(q)[t] in m
  }

  /** Taking a list of distinct keys out of the index, with their edges, keeps the maps consistent. */
  lemma {:induction false} CutAllConsistent(m: map<Key, int>, edges: map<int, set<int>>, ps: seq<Key>, n: int)
    requires Consistent(m, edges) && 0 <= n <= |ps| && forall s :: 0 <= s < |ps| ==> ps[s] in m
    requires forall s, u :: 0 <= s < u < |ps| ==> ps[s] != ps[u]
    ensures Consistent(m - KeySet(ps[..n]), CutAll(edges, ps[..n]))
  {
    if n == 0 {
      assert ps[..0] == [];
      assert m - KeySet([]) == m;
    } else {
      CutAllConsistent(m, edges, ps, n - 1);
      RemovedStep(m, edges, ps, n - 1);
      CutConsistent(m - KeySet(ps[..n - 1]), CutAll(edges, ps[..n - 1]), ps[n - 1].0, ps[n - 1].1);
    }
  }

  /** Taking a clique's pairs out: they are all keys, the index shrinks and stays consistent. */
  lemma TakeValid(m: map<Key, int>, edges: map<int, set<int>>, cs: seq<Klause>, q: seq<int>)
    requires MapsValid(m, edges, cs) && |q| >= 2 && AbsSorted(q) && Clique(edges, q)
    ensures PairsIndexed(m, q) && |RemoveAll(m, CliquePairs(q))| < |m|
    ensures Indexed(RemoveAll(m, CliquePairs(q)), cs) && LiveIds(RemoveAll(m, CliquePairs(q)), cs)
    ensures Justified(q, Lookup(m, CliquePairs(q)), cs)
  {
    var ps := CliquePairs(q);
    CliquePairsPresent(m, edges, q);
    FirstPair(q);
    KeysShrink(m, KeySet(ps), ps[0]);
    RemoveAllKeys(m, ps);
    DeferredJustified(m, ps, q, cs);
  }

  /**
   * A clique of three or four whose pairs are taken out of the index: the index shrinks, the
   * invariant holds, and the clique with its clause ids may be set aside.
   */
  lemma DeferValid(m: map<Key, int>, edges: map<int, set<int>>, edges': map<int, set<int>>, cs: seq<Klause>,
                   qs: seq<seq<int>>, idss: seq<seq<int>>, q: seq<int>)
    requires EngineInv(m, edges, cs, qs, idss) && 3 <= |q| <= 4 && AbsSorted(q) && Clique(edges, q)
    requires Consistent(RemoveAll(m, CliquePairs(q)), edges')
    ensures PairsIndexed(m, q) && |RemoveAll(m, CliquePairs(q))| < |m|
    ensures EngineInv(RemoveAll(m, CliquePairs(q)), edges', cs, qs + [q], idss + [Lookup(m, CliquePairs(q))])
  {
    TakeValid(m, edges, cs, q);
    DeferredSnoc(qs, idss, cs, q, Lookup(m, CliquePairs(q)));
  }

  /** The ids looked up in an index of the store are clause ids of the store. */
  lemma LookupBounds(m: map<Key, int>, ps: seq<Key>, cs: seq<Klause>)
    requires Indexed(m, cs) && forall t :: 0 <= t < |ps| ==> ps[t] in m
    ensures forall t :: 0 <= t < |Lookup(m, ps)| ==> 0 <= Lookup(m, ps)[t] < |cs|
  {
    var ids := Lookup(m, ps);
    forall t | 0 <= t < |ids| ensures 0 <= ids[t] < |cs| {
      assert ids[t] == m[ps[t]];
    }
  }

  /**
   * The state between collecting a large clique's clause ids and committing its klause: the
   * ids are clause ids of the store, and deleting them while committing the clique's
   * at-most-one klause gives back the invariant and keeps the formula.
   */
  ghost predicate PendingEmit(ids: map<Key, int>, edges: map<int, set<int>>, cs: seq<Klause>, ks: seq<Klause>,
                              qs: seq<seq<int>>, idss: seq<seq<int>>, q: seq<int>, cids: seq<int>)
  {
    (forall t :: 0 <= t < |cids| ==> 0 <= cids[t] < |cs|) &&
    EngineInv(ids, edges, MarkDeleted(cs, cids), qs, idss) &&
    SameShape(MarkDeleted(cs, cids), cs) && Equivalent(MarkDeleted(cs, cids), ks + [AmoKlause(q)], cs, ks)
  }

  /**
   * A clique of five or more whose pairs are taken out of the index: committing its
   * at-most-one klause and deleting its clauses keeps the formula and the invariant.
   */
  lemma EmitValid(m: map<Key, int>, edges: map<int, set<int>>, edges': map<int, set<int>>, cs: seq<Klause>, ks: seq<Klause>,
                  qs: seq<seq<int>>, idss: seq<seq<int>>, q: seq<int>)
    requires EngineInv(m, edges, cs, qs, idss) && |q| >= 5 && AbsSorted(q) && Clique(edges, q)
    requires Consistent(RemoveAll(m, CliquePairs(q)), edges')
    ensures PairsIndexed(m, q) && |RemoveAll(m, CliquePairs(q))| < |m|
    ensures PendingEmit(RemoveAll(m, CliquePairs(q)), edges', cs, ks, qs, idss, q, Lookup(m, CliquePairs(q)))
  {
    var ps := CliquePairs(q);
    TakeValid(m, edges, cs, q);
    var ids := Lookup(m, ps);
    var ds := MarkDeleted(cs, ids);
    LookupBounds(m, ps, cs);
    EmitSound(m, ps, q, cs, ks);
    MarkDeletedShape(cs, ids);
    assert SameShape(cs, ds);
    DeferredShape(qs, idss, cs, ds);
  }
}

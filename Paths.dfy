/**
 * The weighted graph over encoding variables and the single-source shortest-path search
 * that the variable ordering runs on it. A search keeps a tentative distance per node
 * (`sofar`), a queue of (distance, node) entries, and the nodes it has settled (`visited`,
 * with their distances in `length`); the predicates below are the invariants of that search.
 */
module Paths {
  import opened Lits

  /** Weight of an edge between two encoding variables that share a clause (1.0, in quarters). */
  const Unit := 4
  /** Weight of an edge between two encoding variables that share a data neighbour (0.75, in quarters). */
  const Shared := 3

  datatype Edge = Edge(node1: int, node2: int, weight: int)

  predicate EdgesOk(edges: seq<Edge>, ndata: int, nvar: int)
  {
    forall e | e in edges :: ndata < e.node1 <= e.node2 <= nvar && (e.weight == Unit || e.weight == Shared)
  }

  /** The indices of the edges that have v as an end. */
  function Incident(edges: seq<Edge>, v: int): set<int>
  {
    set id | 0 <= id < |edges| && (edges[id].node1 == v || edges[id].node2 == v)
  }

  /** encoded[k] holds exactly the indices of the edges at encoding variable ndata + 1 + k. */
  predicate Filed(edges: seq<Edge>, encoded: seq<set<int>>, ndata: int)
  {
    forall k | 0 <= k < |encoded| :: encoded[k] == Incident(edges, ndata + 1 + k)
  }

  /** The end of e that is not v (v itself for a loop). */
  function Other(e: Edge, v: int): int { if e.node1 == v then e.node2 else e.node1 }

  function Sum(xs: seq<int>): int
  {
    if xs == [] then 0 else Sum(xs[..|xs| - 1]) + xs[|xs| - 1]
  }

  /** The sum of the entries below bound. */
  function SumBelow(xs: seq<int>, bound: int): int
  {
    if xs == [] then 0
    else SumBelow(xs[..|xs| - 1], bound) + (if xs[|xs| - 1] < bound then xs[|xs| - 1] else 0)
  }

  lemma {:induction false} SumUpdate(xs: seq<int>, i: int, x: int)
    requires 0 <= i < |xs|
    ensures Sum(xs[i := x]) == Sum(xs) - xs[i] + x
    decreases |xs|
  {
    var ys := xs[i := x];
    assert ys[..|ys| - 1] == if i == |xs| - 1 then xs[..|xs| - 1] else xs[..|xs| - 1][i := x];
    if i < |xs| - 1 {
      SumUpdate(xs[..|xs| - 1], i, x);
    }
  }

  lemma {:induction false} SumNonNegative(xs: seq<int>)
    requires forall i | 0 <= i < |xs| :: 0 <= xs[i]
    ensures 0 <= Sum(xs)
  {
    if xs != [] {
      SumNonNegative(xs[..|xs| - 1]);
    }
  }

  /** All distances below bound add up to the plain sum. */
  lemma {:induction false} SumBelowAll(xs: seq<int>, bound: int)
    requires forall i | 0 <= i < |xs| :: xs[i] < bound
    ensures SumBelow(xs, bound) == Sum(xs)
  {
    if xs != [] {
      SumBelowAll(xs[..|xs| - 1], bound);
    }
  }

  /** The position of the first entry with the smallest distance: the front of an ordered map keyed by distance. */
  method MinEntry(queue: seq<(int, int)>) returns (m: int)
    requires queue != []
    ensures 0 <= m < |queue|
    ensures forall j | 0 <= j < |queue| :: queue[m].0 <= queue[j].0
    ensures forall j | 0 <= j < m :: queue[m].0 < queue[j].0
  {
    m := 0;
    for j := 1 to |queue|
      invariant 0 <= m < j
      invariant forall i | 0 <= i < j :: queue[m].0 <= queue[i].0
      invariant forall i | 0 <= i < m :: queue[m].0 < queue[i].0
    {
      if queue[j].0 < queue[m].0 {
        m := j;
      }
    }
  }

  /**
   * Queue entries name encoding variables, lie between the distance last taken (cur) and
   * infinity, never undercut the node's tentative distance, and a node never has two entries
   * at one distance. nvis bounds each distance by one full edge per settled node.
   */
  ghost predicate Frontier(queue: seq<(int, int)>, sofar: seq<int>, ndata: int, nvar: int, cur: int, nvis: int)
  {
    |sofar| == nvar - ndata && 0 <= cur
    && (forall i | 0 <= i < |queue| ::
          ndata < queue[i].1 <= nvar && cur <= queue[i].0 < Unit * (nvar - ndata) && queue[i].0 <= Unit * nvis
          && sofar[queue[i].1 - ndata - 1] <= queue[i].0)
    && (forall i, j | 0 <= i < j < |queue| && queue[i].1 == queue[j].1 :: queue[i].0 != queue[j].0)
  }

  /**
   * Settled nodes are distinct encoding variables, taken in order of distance, whose
   * tentative distance is final: every queue entry left for one of them is longer.
   */
  ghost predicate Settled(visited: seq<int>, length: seq<int>, sofar: seq<int>, queue: seq<(int, int)>,
                          ndata: int, nvar: int, cur: int)
  {
    |visited| == |length| && |sofar| == nvar - ndata && Distinct(visited)
    && (forall k | 0 <= k < |visited| ::
          ndata < visited[k] <= nvar && sofar[visited[k] - ndata - 1] == length[k]
          && 0 <= length[k] <= cur && length[k] <= Unit * k && length[k] < Unit * (nvar - ndata))
    && (forall k, k' | 0 <= k < k' < |length| :: length[k] <= length[k'])
    && (forall k, i | 0 <= k < |visited| && 0 <= i < |queue| && queue[i].1 == visited[k] :: queue[i].0 > length[k])
  }

  /** The finite tentative distance of node ndata + 1 + i, if any, belongs to a settled node or waits in the queue. */
  ghost predicate Accounted(sofar: seq<int>, queue: seq<(int, int)>, visited: seq<int>, ndata: int, nvar: int, i: int)
  {
    0 <= i < |sofar|
    && (sofar[i] < Unit * (nvar - ndata) ==> ndata + 1 + i in visited || (sofar[i], ndata + 1 + i) in queue)
  }

  /** Every finite tentative distance belongs to a settled node or is waiting in the queue. */
  ghost predicate Tracked(sofar: seq<int>, queue: seq<(int, int)>, visited: seq<int>, ndata: int, nvar: int)
  {
    |sofar| == nvar - ndata
    && (forall i | 0 <= i < |sofar| :: 0 <= sofar[i] <= Unit * (nvar - ndata))
    && (forall i | 0 <= i < |sofar| :: Accounted(sofar, queue, visited, ndata, nvar, i))
  }

  /** Every edge in ids leads from v to a node whose tentative distance is at most len plus the edge. */
  ghost predicate Relaxed(edges: seq<Edge>, v: int, len: int, sofar: seq<int>, ndata: int, ids: set<int>)
  {
    forall id | id in ids ::
      0 <= id < |edges| && 0 <= Other(edges[id], v) - ndata - 1 < |sofar|
      && sofar[Other(edges[id], v) - ndata - 1] <= len + edges[id].weight
  }

  /** The edges of the first n settled nodes have all been relaxed. */
  ghost predicate Closed(edges: seq<Edge>, visited: seq<int>, length: seq<int>, sofar: seq<int>, ndata: int, n: int)
  {
    0 <= n <= |visited| == |length|
    && forall k | 0 <= k < n :: Relaxed(edges, visited[k], length[k], sofar, ndata, Incident(edges, visited[k]))
  }

  /** v is reached at distance dist over edge pid.1 from the settled node at position pid.0. */
  ghost predicate Via(edges: seq<Edge>, pid: (int, int), visited: seq<int>, length: seq<int>, v: int, dist: int)
  {
    0 <= pid.0 < |visited| && pid.0 < |length| && 0 <= pid.1 < |edges| && pid.1 in Incident(edges, visited[pid.0])
    && Other(edges[pid.1], visited[pid.0]) == v && dist == length[pid.0] + edges[pid.1].weight
  }

  /** A finite distance of node ndata + 1 + i other than the source was set over an edge recorded in parent. */
  ghost predicate Reached(edges: seq<Edge>, sofar: seq<int>, parent: seq<(int, int)>, visited: seq<int>,
                          length: seq<int>, ndata: int, nvar: int, vsource: int, i: int)
  {
    0 <= i < |sofar| && i < |parent|
    && (sofar[i] < Unit * (nvar - ndata) && ndata + 1 + i != vsource ==>
          Via(edges, parent[i], visited, length, ndata + 1 + i, sofar[i]))
  }

  /**
   * The source has distance 0; every other finite distance was set over an edge from a settled
   * node, recorded in parent, and a settled node's parent was settled before it.
   */
  ghost predicate Derived(edges: seq<Edge>, sofar: seq<int>, parent: seq<(int, int)>, visited: seq<int>,
                          length: seq<int>, ndata: int, nvar: int, vsource: int)
  {
    |sofar| == nvar - ndata && |parent| == |sofar| && ndata < vsource <= nvar && sofar[vsource - ndata - 1] == 0
    && (forall i | 0 <= i < |sofar| :: Reached(edges, sofar, parent, visited, length, ndata, nvar, vsource, i))
    && (forall k | 0 < k < |visited| ::
          0 <= visited[k] - ndata - 1 < |parent| ==> parent[visited[k] - ndata - 1].0 < k)
  }

  /** The queue without its entry at position m. */
  function Remove(queue: seq<(int, int)>, m: int): (r: seq<(int, int)>)
    requires 0 <= m < |queue|
    ensures |r| == |queue| - 1
    ensures forall i | 0 <= i < m :: r[i] == queue[i]
    ensures forall i | m <= i < |r| :: r[i] == queue[i + 1]
  {
    queue[..m] + queue[m + 1..]
  }

  /** Entries other than the one removed stay in the queue. */
  lemma RemoveKeeps(queue: seq<(int, int)>, m: int, x: (int, int))
    requires 0 <= m < |queue| && x in queue && x != queue[m]
    ensures x in Remove(queue, m)
  {
    var i :| 0 <= i < |queue| && queue[i] == x;
    if i < m {
      assert Remove(queue, m)[i] == x;
    } else {
      assert Remove(queue, m)[i - 1] == x;
    }
  }

  /** Taking the smallest entry keeps the queue invariant, with the taken distance as the new floor. */
  lemma PopFrontier(queue: seq<(int, int)>, sofar: seq<int>, ndata: int, nvar: int, cur: int, nvis: int, m: int)
    requires Frontier(queue, sofar, ndata, nvar, cur, nvis)
    requires 0 <= m < |queue| && forall j | 0 <= j < |queue| :: queue[m].0 <= queue[j].0
    ensures cur <= queue[m].0
    ensures Frontier(Remove(queue, m), sofar, ndata, nvar, queue[m].0, nvis)
    ensures Frontier(Remove(queue, m), sofar, ndata, nvar, queue[m].0, nvis + 1)
  {
    var r := Remove(queue, m);
    forall i, j | 0 <= i < j < |r| && r[i].1 == r[j].1 ensures r[i].0 != r[j].0 {
      var i' := if i < m then i else i + 1;
      var j' := if j < m then j else j + 1;
      assert r[i] == queue[i'] && r[j] == queue[j'] && i' < j';
    }
  }

  /** Settling the smallest entry's node, when that entry is its current distance. */
  lemma VisitSettled(visited: seq<int>, length: seq<int>, sofar: seq<int>, queue: seq<(int, int)>,
                     ndata: int, nvar: int, cur: int, m: int)
    requires Frontier(queue, sofar, ndata, nvar, cur, |visited|)
    requires Settled(visited, length, sofar, queue, ndata, nvar, cur)
    requires 0 <= m < |queue| && forall j | 0 <= j < |queue| :: queue[m].0 <= queue[j].0
    requires queue[m].0 <= sofar[queue[m].1 - ndata - 1]
    ensures queue[m].1 !in visited
    ensures Settled(visited + [queue[m].1], length + [queue[m].0], sofar, Remove(queue, m), ndata, nvar, queue[m].0)
  {
    var (d, ev) := queue[m];
    RemoveLonger(visited, length, queue, m);
    SettledRows(visited, length, sofar, ndata, nvar, cur, ev, d);
  }

  /** Once the smallest entry is removed, every entry left for a settled node is longer than its distance. */
  lemma RemoveLonger(visited: seq<int>, length: seq<int>, queue: seq<(int, int)>, m: int)
    requires |visited| == |length| && 0 <= m < |queue|
    requires forall k, i | 0 <= k < |visited| && 0 <= i < |queue| && queue[i].1 == visited[k] :: queue[i].0 > length[k]
    requires forall j | 0 <= j < |queue| :: queue[m].0 <= queue[j].0
    requires forall i, j | 0 <= i < j < |queue| && queue[i].1 == queue[j].1 :: queue[i].0 != queue[j].0
    ensures var r, visited', length' := Remove(queue, m), visited + [queue[m].1], length + [queue[m].0];
            forall k, i | 0 <= k < |visited'| && 0 <= i < |r| && r[i].1 == visited'[k] :: r[i].0 > length'[k]
  {
    var r := Remove(queue, m);
    var visited' := visited + [queue[m].1];
    var length' := length + [queue[m].0];
    forall k, i | 0 <= k < |visited'| && 0 <= i < |r| && r[i].1 == visited'[k]
      ensures r[i].0 > length'[k]
    {
      var i' := if i < m then i else i + 1;
      assert r[i] == queue[i'];
      if k == |visited| {
        assert queue[i'].0 != queue[m].0 by {
          if i' < m {
            assert queue[i'].1 == queue[m].1;
          } else {
            assert m < i' && queue[m].1 == queue[i'].1;
          }
        }
      }
    }
  }

  /** Appending a fresh node at a distance no shorter than any settled one keeps the settled rows in order. */
  lemma SettledRows(visited: seq<int>, length: seq<int>, sofar: seq<int>, ndata: int, nvar: int, cur: int, ev: int, d: int)
    requires |visited| == |length| && Distinct(visited) && ev !in visited && |sofar| == nvar - ndata
    requires forall k | 0 <= k < |visited| ::
          ndata < visited[k] <= nvar && sofar[visited[k] - ndata - 1] == length[k]
          && 0 <= length[k] <= cur && length[k] <= Unit * k && length[k] < Unit * (nvar - ndata)
    requires forall k, k' | 0 <= k < k' < |length| :: length[k] <= length[k']
    requires ndata < ev <= nvar && sofar[ev - ndata - 1] == d
    requires 0 <= cur <= d <= Unit * |visited| && d < Unit * (nvar - ndata)
    ensures var visited', length' := visited + [ev], length + [d];
            Distinct(visited')
            && (forall k | 0 <= k < |visited'| ::
                  ndata < visited'[k] <= nvar && sofar[visited'[k] - ndata - 1] == length'[k]
                  && 0 <= length'[k] <= d && length'[k] <= Unit * k && length'[k] < Unit * (nvar - ndata))
            && (forall k, k' | 0 <= k < k' < |length'| :: length'[k] <= length'[k'])
  {
    var visited' := visited + [ev];
    var length' := length + [d];
    assert Distinct(visited');
    assert forall k | 0 <= k < |visited'| ::
          ndata < visited'[k] <= nvar && sofar[visited'[k] - ndata - 1] == length'[k]
          && 0 <= length'[k] <= d && length'[k] <= Unit * k && length'[k] < Unit * (nvar - ndata);
    assert forall k, k' | 0 <= k < k' < |length'| :: length'[k] <= length'[k'];
  }

  /** Settling ev keeps every finite distance accounted for. */
  lemma VisitTracked(sofar: seq<int>, queue: seq<(int, int)>, visited: seq<int>, ndata: int, nvar: int, m: int)
    requires Tracked(sofar, queue, visited, ndata, nvar)
    requires 0 <= m < |queue| && ndata < queue[m].1 <= nvar
    ensures Tracked(sofar, Remove(queue, m), visited + [queue[m].1], ndata, nvar)
  {
    forall i | 0 <= i < |sofar| ensures Accounted(sofar, Remove(queue, m), visited + [queue[m].1], ndata, nvar, i) {
      assert Accounted(sofar, queue, visited, ndata, nvar, i);
      if sofar[i] < Unit * (nvar - ndata) && ndata + 1 + i != queue[m].1 && ndata + 1 + i !in visited {
        RemoveKeeps(queue, m, (sofar[i], ndata + 1 + i));
      }
    }
  }

  /** Dropping a stale entry (longer than its node's distance) keeps every finite distance accounted for. */
  lemma DropTracked(sofar: seq<int>, queue: seq<(int, int)>, visited: seq<int>, ndata: int, nvar: int, m: int)
    requires Tracked(sofar, queue, visited, ndata, nvar)
    requires 0 <= m < |queue| && ndata < queue[m].1 <= nvar && queue[m].0 > sofar[queue[m].1 - ndata - 1]
    ensures Tracked(sofar, Remove(queue, m), visited, ndata, nvar)
  {
    forall i | 0 <= i < |sofar| ensures Accounted(sofar, Remove(queue, m), visited, ndata, nvar, i) {
      assert Accounted(sofar, queue, visited, ndata, nvar, i);
      if sofar[i] < Unit * (nvar - ndata) && ndata + 1 + i !in visited {
        RemoveKeeps(queue, m, (sofar[i], ndata + 1 + i));
      }
    }
  }

  /** Settling a node that is not the source: its parent was settled earlier. */
  lemma VisitDerived(edges: seq<Edge>, sofar: seq<int>, parent: seq<(int, int)>, visited: seq<int>,
                     length: seq<int>, ndata: int, nvar: int, vsource: int, ev: int, d: int)
    requires Derived(edges, sofar, parent, visited, length, ndata, nvar, vsource)
    requires ndata < ev <= nvar && sofar[ev - ndata - 1] < Unit * (nvar - ndata)
    requires |visited| == |length| && (|visited| > 0 ==> visited[0] == vsource && ev != vsource)
    ensures Derived(edges, sofar, parent, visited + [ev], length + [d], ndata, nvar, vsource)
  {
    var visited' := visited + [ev];
    var length' := length + [d];
    forall i | 0 <= i < |sofar| ensures Reached(edges, sofar, parent, visited', length', ndata, nvar, vsource, i) {
      assert Reached(edges, sofar, parent, visited, length, ndata, nvar, vsource, i);
      if sofar[i] < Unit * (nvar - ndata) && ndata + 1 + i != vsource {
        assert visited'[parent[i].0] == visited[parent[i].0];
      }
    }
    forall k | 0 < k < |visited'| && 0 <= visited'[k] - ndata - 1 < |parent|
      ensures parent[visited'[k] - ndata - 1].0 < k
    {
      if k == |visited| {
        assert Reached(edges, sofar, parent, visited, length, ndata, nvar, vsource, ev - ndata - 1);
      }
    }
  }

  /** The invariant of the search loop, apart from which settled nodes have had their edges relaxed. */
  ghost predicate Searching(edges: seq<Edge>, sofar: seq<int>, queue: seq<(int, int)>, parent: seq<(int, int)>,
                            visited: seq<int>, length: seq<int>, ndata: int, nvar: int, vsource: int, cur: int)
  {
    Frontier(queue, sofar, ndata, nvar, cur, |visited|)
    && Settled(visited, length, sofar, queue, ndata, nvar, cur)
    && Tracked(sofar, queue, visited, ndata, nvar)
    && Derived(edges, sofar, parent, visited, length, ndata, nvar, vsource)
    && (|visited| == 0 ==> queue == [(0, vsource)])
    && (|visited| > 0 ==> visited[0] == vsource && length[0] == 0)
  }

  /** Lowering tentative distances keeps every relaxed edge relaxed. */
  lemma ClosedLower(edges: seq<Edge>, visited: seq<int>, length: seq<int>, sofar: seq<int>, sofar': seq<int>,
                    ndata: int, n: int, v: int, len: int, ids: set<int>)
    requires |sofar'| == |sofar| && forall i | 0 <= i < |sofar| :: sofar'[i] <= sofar[i]
    requires Closed(edges, visited, length, sofar, ndata, n)
    requires Relaxed(edges, v, len, sofar, ndata, ids)
    ensures Closed(edges, visited, length, sofar', ndata, n)
    ensures Relaxed(edges, v, len, sofar', ndata, ids)
  {
    forall k | 0 <= k < n
      ensures Relaxed(edges, visited[k], length[k], sofar', ndata, Incident(edges, visited[k]))
    {
      assert Relaxed(edges, visited[k], length[k], sofar, ndata, Incident(edges, visited[k]));
    }
  }

  /** Lowering the distance of ov to nd over an edge from the last settled node keeps the queue invariant. */
  lemma RelaxFrontier(queue: seq<(int, int)>, sofar: seq<int>, ndata: int, nvar: int, d: int, nvis: int,
                      ov: int, nd: int)
    requires Frontier(queue, sofar, ndata, nvar, d, nvis)
    requires ndata < ov <= nvar && d < nd <= d + Unit && d <= Unit * (nvis - 1) && nd < sofar[ov - ndata - 1]
    requires sofar[ov - ndata - 1] <= Unit * (nvar - ndata)
    ensures Frontier(queue + [(nd, ov)], sofar[ov - ndata - 1 := nd], ndata, nvar, d, nvis)
  {
    var q := queue + [(nd, ov)];
    var sofar' := sofar[ov - ndata - 1 := nd];
    forall i | 0 <= i < |q|
      ensures ndata < q[i].1 <= nvar && d <= q[i].0 < Unit * (nvar - ndata) && q[i].0 <= Unit * nvis
      ensures sofar'[q[i].1 - ndata - 1] <= q[i].0
    {
      if i < |queue| {
        assert q[i] == queue[i];
      }
    }
    forall i, j | 0 <= i < j < |q| && q[i].1 == q[j].1 ensures q[i].0 != q[j].0 {
      if j == |queue| {
        assert q[i] == queue[i];
      } else {
        assert q[i] == queue[i] && q[j] == queue[j];
      }
    }
  }

  /** The lowered node is not settled, and settled nodes keep their distances. */
  lemma RelaxSettled(visited: seq<int>, length: seq<int>, sofar: seq<int>, queue: seq<(int, int)>,
                     ndata: int, nvar: int, d: int, ov: int, nd: int)
    requires Settled(visited, length, sofar, queue, ndata, nvar, d)
    requires ndata < ov <= nvar && d < nd < sofar[ov - ndata - 1]
    ensures ov !in visited
    ensures Settled(visited, length, sofar[ov - ndata - 1 := nd], queue + [(nd, ov)], ndata, nvar, d)
  {
    var q := queue + [(nd, ov)];
    forall k, i | 0 <= k < |visited| && 0 <= i < |q| && q[i].1 == visited[k] ensures q[i].0 > length[k] {
      assert q[i] == queue[i];
    }
  }

  lemma RelaxTracked(sofar: seq<int>, queue: seq<(int, int)>, visited: seq<int>, ndata: int, nvar: int, ov: int, nd: int)
    requires Tracked(sofar, queue, visited, ndata, nvar)
    requires ndata < ov <= nvar && 0 <= nd < sofar[ov - ndata - 1]
    ensures Tracked(sofar[ov - ndata - 1 := nd], queue + [(nd, ov)], visited, ndata, nvar)
  {
    var q := queue + [(nd, ov)];
    var sofar' := sofar[ov - ndata - 1 := nd];
    forall i | 0 <= i < |sofar'| ensures Accounted(sofar', q, visited, ndata, nvar, i) {
      if i == ov - ndata - 1 {
        assert q[|queue|] == (nd, ov);
      } else {
        assert Accounted(sofar, queue, visited, ndata, nvar, i);
        if sofar[i] < Unit * (nvar - ndata) && ndata + 1 + i !in visited {
          var j :| 0 <= j < |queue| && queue[j] == (sofar[i], ndata + 1 + i);
          assert q[j] == queue[j];
        }
      }
    }
  }

  lemma RelaxDerived(edges: seq<Edge>, sofar: seq<int>, parent: seq<(int, int)>, visited: seq<int>,
                     length: seq<int>, ndata: int, nvar: int, vsource: int, id: int, ov: int, nd: int)
    requires Derived(edges, sofar, parent, visited, length, ndata, nvar, vsource)
    requires |visited| == |length| > 0 && ov !in visited && ndata < ov <= nvar && 0 < nd < sofar[ov - ndata - 1]
    requires Via(edges, (|visited| - 1, id), visited, length, ov, nd)
    ensures Derived(edges, sofar[ov - ndata - 1 := nd], parent[ov - ndata - 1 := (|visited| - 1, id)],
                    visited, length, ndata, nvar, vsource)
  {
    var sofar' := sofar[ov - ndata - 1 := nd];
    var parent' := parent[ov - ndata - 1 := (|visited| - 1, id)];
    forall i | 0 <= i < |sofar'| ensures Reached(edges, sofar', parent', visited, length, ndata, nvar, vsource, i) {
      if i != ov - ndata - 1 {
        assert Reached(edges, sofar, parent, visited, length, ndata, nvar, vsource, i);
      }
    }
    forall k | 0 < k < |visited| && 0 <= visited[k] - ndata - 1 < |parent'|
      ensures parent'[visited[k] - ndata - 1].0 < k
    {
      assert visited[k] != ov;
    }
  }

  /**
   * Relaxes the edges ids of ev, the node just settled at distance d: each neighbour whose
   * tentative distance exceeds d plus the edge's weight gets that distance and a new queue entry.
   */
  method Relax(edges: seq<Edge>, ids: seq<int>, ev: int, d: int, sofar: seq<int>, queue: seq<(int, int)>,
               ghost parent: seq<(int, int)>, ghost visited: seq<int>, ghost length: seq<int>,
               ndata: int, nvar: int, vsource: int)
    returns (sofar': seq<int>, queue': seq<(int, int)>, ghost parent': seq<(int, int)>)
    requires EdgesOk(edges, ndata, nvar)
    requires forall t | 0 <= t < |ids| :: ids[t] in Incident(edges, ev)
    requires |visited| > 0 && |visited| == |length| && visited[|visited| - 1] == ev && length[|length| - 1] == d
    requires Searching(edges, sofar, queue, parent, visited, length, ndata, nvar, vsource, d)
    requires Closed(edges, visited, length, sofar, ndata, |visited| - 1)
    ensures Searching(edges, sofar', queue', parent', visited, length, ndata, nvar, vsource, d)
    ensures Closed(edges, visited, length, sofar', ndata, |visited| - 1)
    ensures Relaxed(edges, ev, d, sofar', ndata, set t | 0 <= t < |ids| :: ids[t])
    ensures 2 * Sum(sofar') + |queue'| <= 2 * Sum(sofar) + |queue|
  {
    sofar', queue', parent' := sofar, queue, parent;
    for t := 0 to |ids|
      invariant Searching(edges, sofar', queue', parent', visited, length, ndata, nvar, vsource, d)
      invariant Closed(edges, visited, length, sofar', ndata, |visited| - 1)
      invariant Relaxed(edges, ev, d, sofar', ndata, set u | 0 <= u < t :: ids[u])
      invariant 2 * Sum(sofar') + |queue'| <= 2 * Sum(sofar) + |queue|
    {
      assert (set u | 0 <= u < t + 1 :: ids[u]) == (set u | 0 <= u < t :: ids[u]) + {ids[t]};
      sofar', queue', parent' := RelaxEdge(edges, ids[t], ev, d, sofar', queue', parent', visited, length,
                                           ndata, nvar, vsource, set u | 0 <= u < t :: ids[u]);
    }
  }

  /** One edge id of ev, the node just settled at distance d. */
  method RelaxEdge(edges: seq<Edge>, id: int, ev: int, d: int, sofar: seq<int>, queue: seq<(int, int)>,
                   ghost parent: seq<(int, int)>, ghost visited: seq<int>, ghost length: seq<int>,
                   ndata: int, nvar: int, vsource: int, ghost done: set<int>)
    returns (sofar': seq<int>, queue': seq<(int, int)>, ghost parent': seq<(int, int)>)
    requires EdgesOk(edges, ndata, nvar) && id in Incident(edges, ev)
    requires |visited| > 0 && |visited| == |length| && visited[|visited| - 1] == ev && length[|length| - 1] == d
    requires Searching(edges, sofar, queue, parent, visited, length, ndata, nvar, vsource, d)
    requires Closed(edges, visited, length, sofar, ndata, |visited| - 1)
    requires Relaxed(edges, ev, d, sofar, ndata, done)
    ensures Searching(edges, sofar', queue', parent', visited, length, ndata, nvar, vsource, d)
    ensures Closed(edges, visited, length, sofar', ndata, |visited| - 1)
    ensures Relaxed(edges, ev, d, sofar', ndata, done + {id})
    ensures 2 * Sum(sofar') + |queue'| <= 2 * Sum(sofar) + |queue|
  {
    RelaxFacts(edges, id, ev, d, sofar, queue, parent, visited, length, ndata, nvar, vsource);
    var ov := Other(edges[id], ev);
    var nd := d + edges[id].weight;
    if nd < sofar[ov - ndata - 1] {
      RelaxLower(edges, id, ev, d, sofar, queue, parent, visited, length, ndata, nvar, vsource, ov, nd);
      ClosedLower(edges, visited, length, sofar, sofar[ov - ndata - 1 := nd], ndata, |visited| - 1, ev, d, done);
      SumUpdate(sofar, ov - ndata - 1, nd);
      sofar' := sofar[ov - ndata - 1 := nd];
      queue' := queue + [(nd, ov)];
      parent' := parent[ov - ndata - 1 := (|visited| - 1, id)];
      RelaxedAdd(edges, ev, d, sofar', ndata, done, id);
    } else {
      sofar', queue', parent' := sofar, queue, parent;
      RelaxedAdd(edges, ev, d, sofar, ndata, done, id);
    }
  }

  /** Lowering the tentative distance of ov to nd over edge id of the last settled node keeps the search invariant. */
  lemma RelaxLower(edges: seq<Edge>, id: int, ev: int, d: int, sofar: seq<int>, queue: seq<(int, int)>,
                   parent: seq<(int, int)>, visited: seq<int>, length: seq<int>,
                   ndata: int, nvar: int, vsource: int, ov: int, nd: int)
    requires |visited| > 0 && |visited| == |length| && visited[|visited| - 1] == ev && length[|length| - 1] == d
    requires Searching(edges, sofar, queue, parent, visited, length, ndata, nvar, vsource, d)
    requires ndata < ov <= nvar && d < nd <= d + Unit && d <= Unit * (|visited| - 1)
    requires nd < sofar[ov - ndata - 1] <= Unit * (nvar - ndata)
    requires Via(edges, (|visited| - 1, id), visited, length, ov, nd)
    ensures Searching(edges, sofar[ov - ndata - 1 := nd], queue + [(nd, ov)], parent[ov - ndata - 1 := (|visited| - 1, id)],
                      visited, length, ndata, nvar, vsource, d)
  {
    RelaxFrontier(queue, sofar, ndata, nvar, d, |visited|, ov, nd);
    RelaxSettled(visited, length, sofar, queue, ndata, nvar, d, ov, nd);
    RelaxTracked(sofar, queue, visited, ndata, nvar, ov, nd);
    RelaxDerived(edges, sofar, parent, visited, length, ndata, nvar, vsource, id, ov, nd);
  }

  /** What relaxing one edge of the last settled node relies on. */
  lemma RelaxFacts(edges: seq<Edge>, id: int, ev: int, d: int, sofar: seq<int>, queue: seq<(int, int)>,
                   parent: seq<(int, int)>, visited: seq<int>, length: seq<int>, ndata: int, nvar: int, vsource: int)
    requires EdgesOk(edges, ndata, nvar) && id in Incident(edges, ev)
    requires |visited| > 0 && |visited| == |length| && visited[|visited| - 1] == ev && length[|length| - 1] == d
    requires Searching(edges, sofar, queue, parent, visited, length, ndata, nvar, vsource, d)
    ensures 0 <= id < |edges| && ndata < Other(edges[id], ev) <= nvar && |sofar| == nvar - ndata
    ensures 0 <= d <= Unit * (|visited| - 1) && 0 < edges[id].weight <= Unit
    ensures sofar[Other(edges[id], ev) - ndata - 1] <= Unit * (nvar - ndata)
    ensures Via(edges, (|visited| - 1, id), visited, length, Other(edges[id], ev), d + edges[id].weight)
  {
    assert edges[id] in edges;
  }

  lemma RelaxedAdd(edges: seq<Edge>, v: int, len: int, sofar: seq<int>, ndata: int, done: set<int>, id: int)
    requires Relaxed(edges, v, len, sofar, ndata, done)
    requires 0 <= id < |edges| && 0 <= Other(edges[id], v) - ndata - 1 < |sofar|
    requires sofar[Other(edges[id], v) - ndata - 1] <= len + edges[id].weight
    ensures Relaxed(edges, v, len, sofar, ndata, done + {id})
  {
  }

  /** Dropping a stale entry keeps the settled nodes settled, with its distance as the new floor. */
  lemma DropSettled(visited: seq<int>, length: seq<int>, sofar: seq<int>, queue: seq<(int, int)>,
                    ndata: int, nvar: int, cur: int, m: int)
    requires Settled(visited, length, sofar, queue, ndata, nvar, cur)
    requires 0 <= m < |queue| && cur <= queue[m].0
    ensures Settled(visited, length, sofar, Remove(queue, m), ndata, nvar, queue[m].0)
  {
    var r := Remove(queue, m);
    forall k, i | 0 <= k < |visited| && 0 <= i < |r| && r[i].1 == visited[k] ensures r[i].0 > length[k] {
      assert r[i] == queue[if i < m then i else i + 1];
    }
  }

  /** Settling one more node keeps the edges of the first n settled nodes relaxed. */
  lemma ClosedExtend(edges: seq<Edge>, visited: seq<int>, length: seq<int>, sofar: seq<int>, ndata: int, n: int,
                     ev: int, d: int)
    requires Closed(edges, visited, length, sofar, ndata, n)
    ensures Closed(edges, visited + [ev], length + [d], sofar, ndata, n)
  {
    forall k | 0 <= k < n
      ensures Relaxed(edges, (visited + [ev])[k], (length + [d])[k], sofar, ndata, Incident(edges, (visited + [ev])[k]))
    {
      assert (visited + [ev])[k] == visited[k] && (length + [d])[k] == length[k];
    }
  }

  /**
   * Every edge of a settled node at finite distance leads to a settled node, whose distance is
   * at most the first one's plus the edge's weight.
   */
  ghost predicate Triangle(edges: seq<Edge>, visited: seq<int>, length: seq<int>, inf: int)
  {
    |visited| == |length|
    && (forall k, id | 0 <= k < |visited| && length[k] < inf && id in Incident(edges, visited[k]) ::
          Other(edges[id], visited[k]) in visited)
    && (forall k, j, id | 0 <= k < |visited| && 0 <= j < |visited| && length[k] < inf
                          && id in Incident(edges, visited[k]) && visited[j] == Other(edges[id], visited[k]) ::
          length[j] <= length[k] + edges[id].weight)
  }

  /**
   * Every settled node after the first, at finite distance, is reached over an edge from a
   * node settled before it, at exactly that node's distance plus the edge's weight.
   */
  ghost predicate Derivable(edges: seq<Edge>, visited: seq<int>, length: seq<int>, inf: int)
  {
    |visited| == |length| && forall k | 0 < k < |visited| :: DerivedAt(edges, visited, length, inf, k)
  }

  /** The node at position k, if at finite distance, is reached over an edge from a node settled before it. */
  ghost predicate DerivedAt(edges: seq<Edge>, visited: seq<int>, length: seq<int>, inf: int, k: int)
  {
    0 < k < |visited| && k < |length|
    && (length[k] < inf ==>
          exists j, id | 0 <= j < k && id in Incident(edges, visited[j]) ::
            Other(edges[id], visited[j]) == visited[k] && length[k] == length[j] + edges[id].weight)
  }

  /** When the queue is empty, the settled nodes are exactly those with a finite distance. */
  lemma DoneReach(edges: seq<Edge>, sofar: seq<int>, parent: seq<(int, int)>, visited: seq<int>,
                  length: seq<int>, ndata: int, nvar: int, vsource: int, cur: int)
    requires Searching(edges, sofar, [], parent, visited, length, ndata, nvar, vsource, cur)
    ensures forall v | ndata < v <= nvar :: v in visited <==> sofar[v - ndata - 1] < Unit * (nvar - ndata)
  {
    forall v | ndata < v <= nvar ensures v in visited <==> sofar[v - ndata - 1] < Unit * (nvar - ndata) {
      assert Accounted(sofar, [], visited, ndata, nvar, v - ndata - 1);
    }
  }

  /** When the queue is empty and every settled node's edges are relaxed, distances obey the triangle inequality. */
  lemma DoneTriangle(edges: seq<Edge>, sofar: seq<int>, visited: seq<int>, length: seq<int>,
                     ndata: int, nvar: int, cur: int)
    requires EdgesOk(edges, ndata, nvar)
    requires Settled(visited, length, sofar, [], ndata, nvar, cur)
    requires Closed(edges, visited, length, sofar, ndata, |visited|)
    requires forall v | ndata < v <= nvar :: v in visited <==> sofar[v - ndata - 1] < Unit * (nvar - ndata)
    ensures Triangle(edges, visited, length, Unit * (nvar - ndata))
  {
    forall k, id | 0 <= k < |visited| && length[k] < Unit * (nvar - ndata) && id in Incident(edges, visited[k])
      ensures Other(edges[id], visited[k]) in visited
    {
      TriangleAt(edges, sofar, visited, length, ndata, nvar, cur, k, id);
    }
    forall k, j, id | 0 <= k < |visited| && 0 <= j < |visited| && length[k] < Unit * (nvar - ndata)
                      && id in Incident(edges, visited[k]) && visited[j] == Other(edges[id], visited[k])
      ensures length[j] <= length[k] + edges[id].weight
    {
      TriangleAt(edges, sofar, visited, length, ndata, nvar, cur, k, id);
    }
  }

  /** One edge id of the settled node at position k, for DoneTriangle. */
  lemma TriangleAt(edges: seq<Edge>, sofar: seq<int>, visited: seq<int>, length: seq<int>,
                   ndata: int, nvar: int, cur: int, k: int, id: int)
    requires EdgesOk(edges, ndata, nvar)
    requires Settled(visited, length, sofar, [], ndata, nvar, cur)
    requires Closed(edges, visited, length, sofar, ndata, |visited|)
    requires forall v | ndata < v <= nvar :: v in visited <==> sofar[v - ndata - 1] < Unit * (nvar - ndata)
    requires 0 <= k < |visited| && id in Incident(edges, visited[k])
    ensures Other(edges[id], visited[k]) in visited
    ensures sofar[Other(edges[id], visited[k]) - ndata - 1] <= length[k] + edges[id].weight
  {
    assert Relaxed(edges, visited[k], length[k], sofar, ndata, Incident(edges, visited[k]));
    var ov := Other(edges[id], visited[k]);
    assert edges[id] in edges;
    if ov !in visited {
      DistinctMissing(visited, ndata + 1, nvar + 1, ov);
    }
  }

  /** When the queue is empty, every settled node but the source was reached from an earlier one. */
  lemma DoneDerivable(edges: seq<Edge>, sofar: seq<int>, parent: seq<(int, int)>, visited: seq<int>,
                      length: seq<int>, ndata: int, nvar: int, vsource: int, cur: int)
    requires Searching(edges, sofar, [], parent, visited, length, ndata, nvar, vsource, cur)
    ensures Derivable(edges, visited, length, Unit * (nvar - ndata))
  {
    var inf := Unit * (nvar - ndata);
    forall k | 0 < k < |visited| ensures DerivedAt(edges, visited, length, inf, k) {
      var i := visited[k] - ndata - 1;
      assert Reached(edges, sofar, parent, visited, length, ndata, nvar, vsource, i);
      assert visited[k] != visited[0];
      var (j, id) := parent[i];
      assert Via(edges, parent[i], visited, length, visited[k], sofar[i]);
    }
  }

  /** The encoding variables ndata + 1 .. ndata + i whose distance is still inf, in increasing order. */
  function Unreached(sofar: seq<int>, ndata: int, inf: int, i: int): seq<int>
    requires 0 <= i <= |sofar|
  {
    if i == 0 then [] else Unreached(sofar, ndata, inf, i - 1) + (if sofar[i - 1] == inf then [ndata + i] else [])
  }

  lemma {:induction false} UnreachedFacts(sofar: seq<int>, ndata: int, inf: int, i: int)
    requires 0 <= i <= |sofar|
    ensures Distinct(Unreached(sofar, ndata, inf, i))
    ensures forall x :: x in Unreached(sofar, ndata, inf, i) <==> ndata < x <= ndata + i && sofar[x - ndata - 1] == inf
  {
    if i > 0 {
      UnreachedFacts(sofar, ndata, inf, i - 1);
      var u := Unreached(sofar, ndata, inf, i - 1);
      if sofar[i - 1] == inf {
        var w := u + [ndata + i];
        forall p, q | 0 <= p < q < |w| ensures w[p] != w[q] {
          if q == |u| {
            assert w[p] == u[p] && u[p] in u;
          }
        }
      }
    }
  }

  /** The sum of the distances below inf ignores distances equal to inf. */
  lemma SumBelowInf(xs: seq<int>, inf: int)
    ensures SumBelow(xs + [inf], inf) == SumBelow(xs, inf)
  {
    assert (xs + [inf])[..|xs|] == xs;
  }

  /** Settled nodes at finite distance followed by the nodes still at inf: all distinct. */
  lemma AppendDistinct(visited: seq<int>, sofar: seq<int>, ndata: int, nvar: int, extra: seq<int>)
    requires |sofar| == nvar - ndata && Distinct(visited)
    requires forall k | 0 <= k < |visited| :: ndata < visited[k] <= nvar && sofar[visited[k] - ndata - 1] < Unit * (nvar - ndata)
    requires extra == Unreached(sofar, ndata, Unit * (nvar - ndata), |sofar|)
    ensures Distinct(visited + extra)
  {
    UnreachedFacts(sofar, ndata, Unit * (nvar - ndata), |sofar|);
    var all := visited + extra;
    forall i, j | 0 <= i < j < |all| ensures all[i] != all[j] {
      if i < |visited| && |visited| <= j {
        assert all[j] == extra[j - |visited|] && extra[j - |visited|] in extra;
      } else if |visited| <= i {
        assert all[i] == extra[i - |visited|] && all[j] == extra[j - |visited|];
      }
    }
  }

  /** Appending nodes at distance inf, none of them settled before, keeps the triangle inequality. */
  lemma AppendTriangle(edges: seq<Edge>, visited: seq<int>, length: seq<int>, inf: int, extra: seq<int>)
    requires Triangle(edges, visited, length, inf) && Distinct(visited + extra)
    ensures Triangle(edges, visited + extra, length + seq(|extra|, _ => inf), inf)
  {
    var vs := visited + extra;
    var ls := length + seq(|extra|, _ => inf);
    forall k, id | 0 <= k < |vs| && ls[k] < inf && id in Incident(edges, vs[k]) ensures Other(edges[id], vs[k]) in vs {
      assert k < |visited| && vs[k] == visited[k] && ls[k] == length[k];
    }
    forall k, j, id | 0 <= k < |vs| && 0 <= j < |vs| && ls[k] < inf && id in Incident(edges, vs[k])
                      && vs[j] == Other(edges[id], vs[k])
      ensures ls[j] <= ls[k] + edges[id].weight
    {
      assert k < |visited| && vs[k] == visited[k] && ls[k] == length[k];
      var t :| 0 <= t < |visited| && visited[t] == Other(edges[id], visited[k]);
      assert vs[t] == vs[j];
    }
  }

  /** Appending nodes at distance inf keeps every finite distance derivable. */
  lemma AppendDerivable(edges: seq<Edge>, visited: seq<int>, length: seq<int>, inf: int, extra: seq<int>)
    requires Derivable(edges, visited, length, inf)
    ensures Derivable(edges, visited + extra, length + seq(|extra|, _ => inf), inf)
  {
    var vs := visited + extra;
    var ls := length + seq(|extra|, _ => inf);
    forall k | 0 < k < |vs| ensures DerivedAt(edges, vs, ls, inf, k) {
      if k >= |visited| {
        assert ls[k] == inf;
      } else {
        AppendDerivedAt(edges, visited, length, inf, extra, k);
      }
    }
  }

  lemma AppendDerivedAt(edges: seq<Edge>, visited: seq<int>, length: seq<int>, inf: int, extra: seq<int>, k: int)
    requires Derivable(edges, visited, length, inf) && 0 < k < |visited|
    ensures DerivedAt(edges, visited + extra, length + seq(|extra|, _ => inf), inf, k)
  {
    var vs := visited + extra;
    var ls := length + seq(|extra|, _ => inf);
    assert vs[k] == visited[k] && ls[k] == length[k];
    assert DerivedAt(edges, visited, length, inf, k);
    if length[k] < inf {
      var j, id :| 0 <= j < k && id in Incident(edges, visited[j])
                   && Other(edges[id], visited[j]) == visited[k] && length[k] == length[j] + edges[id].weight;
      assert vs[j] == visited[j] && ls[j] == length[j];
    }
  }

  /**
   * What a search from vsource delivers: distinct encoding variables, the source first at
   * distance 0, distances nondecreasing and at most inf, obeying the triangle inequality and
   * each finite one realised by an edge from an earlier node.
   */
  ghost predicate ShortestOrder(edges: seq<Edge>, visited: seq<int>, length: seq<int>, ndata: int, nvar: int, vsource: int)
  {
    |visited| == |length| && 0 < |visited| && visited[0] == vsource && length[0] == 0
    && Distinct(visited) && (forall k | 0 <= k < |visited| :: ndata < visited[k] <= nvar)
    && (forall k, k' | 0 <= k < k' < |length| :: length[k] <= length[k'])
    && (forall k | 0 <= k < |length| :: 0 <= length[k] <= Unit * (nvar - ndata))
    && Triangle(edges, visited, length, Unit * (nvar - ndata))
    && Derivable(edges, visited, length, Unit * (nvar - ndata))
  }

  /** The search starts with only the source, at distance 0, in the queue. */
  lemma StartSearching(edges: seq<Edge>, ndata: int, nvar: int, vsource: int)
    requires ndata < vsource <= nvar
    ensures var inf := Unit * (nvar - ndata);
            Searching(edges, seq(nvar - ndata, _ => inf)[vsource - ndata - 1 := 0], [(0, vsource)],
                      seq(nvar - ndata, _ => (0, 0)), [], [], ndata, nvar, vsource, 0)
  {
    var inf := Unit * (nvar - ndata);
    var sofar := seq(nvar - ndata, _ => inf)[vsource - ndata - 1 := 0];
    var parent := seq(nvar - ndata, _ => (0, 0));
    forall i | 0 <= i < |sofar| ensures Accounted(sofar, [(0, vsource)], [], ndata, nvar, i) {
      if i == vsource - ndata - 1 {
        assert [(0, vsource)][0] == (sofar[i], ndata + 1 + i);
      }
    }
    forall i | 0 <= i < |sofar| ensures Reached(edges, sofar, parent, [], [], ndata, nvar, vsource, i) {
    }
  }

  /** When the queue is empty, the search has produced a shortest-path order from the source. */
  lemma Done(edges: seq<Edge>, sofar: seq<int>, parent: seq<(int, int)>, visited: seq<int>,
             length: seq<int>, ndata: int, nvar: int, vsource: int, cur: int)
    requires EdgesOk(edges, ndata, nvar)
    requires Searching(edges, sofar, [], parent, visited, length, ndata, nvar, vsource, cur)
    requires Closed(edges, visited, length, sofar, ndata, |visited|)
    ensures ShortestOrder(edges, visited, length, ndata, nvar, vsource)
    ensures forall k | 0 <= k < |length| :: length[k] < Unit * (nvar - ndata)
    ensures forall v | ndata < v <= nvar :: v in visited <==> sofar[v - ndata - 1] < Unit * (nvar - ndata)
    ensures SumBelow(length, Unit * (nvar - ndata)) == Sum(length)
  {
    DoneReach(edges, sofar, parent, visited, length, ndata, nvar, vsource, cur);
    DoneTriangle(edges, sofar, visited, length, ndata, nvar, cur);
    DoneDerivable(edges, sofar, parent, visited, length, ndata, nvar, vsource, cur);
    SumBelowAll(length, Unit * (nvar - ndata));
  }

  /** A finished search followed by the nodes still at distance inf covers every encoding variable. */
  lemma Completed(edges: seq<Edge>, sofar: seq<int>, visited: seq<int>, length: seq<int>,
                  ndata: int, nvar: int, vsource: int, extra: seq<int>)
    requires ShortestOrder(edges, visited, length, ndata, nvar, vsource)
    requires forall k | 0 <= k < |length| :: length[k] < Unit * (nvar - ndata)
    requires |sofar| == nvar - ndata && forall i | 0 <= i < |sofar| :: sofar[i] <= Unit * (nvar - ndata)
    requires forall v | ndata < v <= nvar :: v in visited <==> sofar[v - ndata - 1] < Unit * (nvar - ndata)
    requires extra == Unreached(sofar, ndata, Unit * (nvar - ndata), |sofar|)
    ensures ShortestOrder(edges, visited + extra, length + seq(|extra|, _ => Unit * (nvar - ndata)), ndata, nvar, vsource)
    ensures forall v :: v in visited + extra <==> ndata < v <= nvar
  {
    var inf := Unit * (nvar - ndata);
    var vs := visited + extra;
    var ls := length + seq(|extra|, _ => inf);
    UnreachedFacts(sofar, ndata, inf, |sofar|);
    forall k | 0 <= k < |visited| ensures sofar[visited[k] - ndata - 1] < inf {
      assert visited[k] in visited;
    }
    AppendDistinct(visited, sofar, ndata, nvar, extra);
    AppendTriangle(edges, visited, length, inf, extra);
    AppendDerivable(edges, visited, length, inf, extra);
    forall k | 0 <= k < |vs| ensures ndata < vs[k] <= nvar {
      if k >= |visited| {
        assert vs[k] == extra[k - |visited|] && extra[k - |visited|] in extra;
      }
    }
    forall k, k' | 0 <= k < k' < |ls| ensures ls[k] <= ls[k'] {
      if k < |length| && k' < |length| {
        assert ls[k] == length[k] && ls[k'] == length[k'];
      }
    }
  }

  /** Distinct encoding variables, as many as there are, are all of them. */
  lemma AllSettled(visited: seq<int>, ndata: int, nvar: int)
    requires Distinct(visited) && forall k | 0 <= k < |visited| :: ndata < visited[k] <= nvar
    requires nvar - ndata <= |visited|
    ensures forall v :: v in visited <==> ndata < v <= nvar
  {
    forall v | ndata < v <= nvar ensures v in visited {
      if v !in visited {
        DistinctMissing(visited, ndata + 1, nvar + 1, v);
      }
    }
  }

  /** The positions of a sequence hold exactly the elements of s when its elements are those of s. */
  lemma ElementsSet(ids: seq<int>, s: set<int>)
    requires forall x :: x in ids <==> x in s
    ensures (set t | 0 <= t < |ids| :: ids[t]) == s
  {
    forall x | x in s ensures x in (set t | 0 <= t < |ids| :: ids[t]) {
      assert x in ids;
      var t :| 0 <= t < |ids| && ids[t] == x;
    }
    forall y | y in (set t | 0 <= t < |ids| :: ids[t]) ensures y in s {
      var t :| 0 <= t < |ids| && ids[t] == y;
      assert ids[t] in ids;
    }
  }

  /**
   * The search loop: take the first entry of least distance; settle its node and relax the
   * node's edges when the entry is its current distance, drop it otherwise. Settled nodes come
   * out in order of distance, with the sum of their distances.
   */
  method Search(edges: seq<Edge>, encoded: seq<set<int>>, ndata: int, nvar: int, vsource: int)
    returns (visited: seq<int>, length: seq<int>, dsum: int, sofar: seq<int>)
    requires EdgesOk(edges, ndata, nvar) && Filed(edges, encoded, ndata) && |encoded| == nvar - ndata
    requires ndata < vsource <= nvar
    ensures ShortestOrder(edges, visited, length, ndata, nvar, vsource)
    ensures forall k | 0 <= k < |length| :: length[k] < Unit * (nvar - ndata)
    ensures |sofar| == nvar - ndata && forall i | 0 <= i < |sofar| :: sofar[i] <= Unit * (nvar - ndata)
    ensures forall v | ndata < v <= nvar :: v in visited <==> sofar[v - ndata - 1] < Unit * (nvar - ndata)
    ensures dsum == SumBelow(length, Unit * (nvar - ndata))
  {
    var nencode := nvar - ndata;
    var inf := Unit * nencode;
    sofar := seq(nencode, _ => inf)[vsource - ndata - 1 := 0];
    var queue := [(0, vsource)];
    ghost var parent: seq<(int, int)> := seq(nencode, _ => (0, 0));
    ghost var cur;
    StartSearching(edges, ndata, nvar, vsource);
    SumNonNegative(sofar);
    sofar, visited, length, dsum, parent, cur := Drain(edges, encoded, ndata, nvar, vsource, sofar, queue, parent);
    Done(edges, sofar, parent, visited, length, ndata, nvar, vsource, cur);
  }

  /** The search loop proper, from the start state until the queue is empty. */
  method Drain(edges: seq<Edge>, encoded: seq<set<int>>, ndata: int, nvar: int, vsource: int,
               sofar0: seq<int>, queue0: seq<(int, int)>, ghost parent0: seq<(int, int)>)
    returns (sofar: seq<int>, visited: seq<int>, length: seq<int>, dsum: int, ghost parent: seq<(int, int)>, ghost cur: int)
    requires EdgesOk(edges, ndata, nvar) && Filed(edges, encoded, ndata) && |encoded| == nvar - ndata
    requires Searching(edges, sofar0, queue0, parent0, [], [], ndata, nvar, vsource, 0)
    requires 0 <= Sum(sofar0)
    ensures Searching(edges, sofar, [], parent, visited, length, ndata, nvar, vsource, cur)
    ensures Closed(edges, visited, length, sofar, ndata, |visited|) && dsum == Sum(length)
  {
    sofar, parent, cur := sofar0, parent0, 0;
    var queue := queue0;
    visited, length, dsum := [], [], 0;
    while |queue| > 0
      invariant Searching(edges, sofar, queue, parent, visited, length, ndata, nvar, vsource, cur)
      invariant Closed(edges, visited, length, sofar, ndata, |visited|)
      invariant dsum == Sum(length) && 0 <= Sum(sofar)
      decreases 2 * Sum(sofar) + |queue|
    {
      var m := MinEntry(queue);
      var (d, ev) := queue[m];
      if d <= sofar[ev - ndata - 1] {
        sofar, queue, parent, visited, length, dsum :=
          Settle(edges, encoded, ndata, nvar, vsource, sofar, queue, parent, visited, length, dsum, cur, m);
        cur := d;
        SumNonNegative(sofar);
      } else {
        PopFrontier(queue, sofar, ndata, nvar, cur, |visited|, m);
        DropSettled(visited, length, sofar, queue, ndata, nvar, cur, m);
        DropTracked(sofar, queue, visited, ndata, nvar, m);
        queue := Remove(queue, m);
        cur := d;
      }
    }
  }

  /** Settles the node of the least entry m, at that entry's distance, and relaxes its edges. */
  method Settle(edges: seq<Edge>, encoded: seq<set<int>>, ndata: int, nvar: int, vsource: int,
                sofar: seq<int>, queue: seq<(int, int)>, ghost parent: seq<(int, int)>,
                visited: seq<int>, length: seq<int>, dsum: int, ghost cur: int, m: int)
    returns (sofar': seq<int>, queue': seq<(int, int)>, ghost parent': seq<(int, int)>,
             visited': seq<int>, length': seq<int>, dsum': int)
    requires EdgesOk(edges, ndata, nvar) && Filed(edges, encoded, ndata) && |encoded| == nvar - ndata
    requires Searching(edges, sofar, queue, parent, visited, length, ndata, nvar, vsource, cur)
    requires Closed(edges, visited, length, sofar, ndata, |visited|) && dsum == Sum(length)
    requires 0 <= m < |queue| && forall j | 0 <= j < |queue| :: queue[m].0 <= queue[j].0
    requires queue[m].0 <= sofar[queue[m].1 - ndata - 1]
    ensures Searching(edges, sofar', queue', parent', visited', length', ndata, nvar, vsource, queue[m].0)
    ensures Closed(edges, visited', length', sofar', ndata, |visited'|) && dsum' == Sum(length')
    ensures 2 * Sum(sofar') + |queue'| < 2 * Sum(sofar) + |queue|
  {
    var (d, ev) := queue[m];
    PopFrontier(queue, sofar, ndata, nvar, cur, |visited|, m);
    VisitSettled(visited, length, sofar, queue, ndata, nvar, cur, m);
    VisitTracked(sofar, queue, visited, ndata, nvar, m);
    VisitDerived(edges, sofar, parent, visited, length, ndata, nvar, vsource, ev, d);
    ClosedExtend(edges, visited, length, sofar, ndata, |visited|, ev, d);
    assert (length + [d])[..|length|] == length;
    visited' := visited + [ev];
    length' := length + [d];
    dsum' := dsum + d;
    var ids := Elements(encoded[ev - ndata - 1]);
    forall t | 0 <= t < |ids| ensures ids[t] in Incident(edges, ev) {
      assert ids[t] in ids;
    }
    ElementsSet(ids, Incident(edges, ev));
    sofar', queue', parent' := Relax(edges, ids, ev, d, sofar, Remove(queue, m), parent, visited', length', ndata, nvar, vsource);
  }

  /** After a search, the nodes still at distance inf, in increasing order, are appended at distance inf. */
  method AppendUnreached(edges: seq<Edge>, sofar: seq<int>, visited: seq<int>, length: seq<int>,
                         ndata: int, nvar: int, vsource: int)
    returns (visited': seq<int>, length': seq<int>)
    requires ShortestOrder(edges, visited, length, ndata, nvar, vsource)
    requires forall k | 0 <= k < |length| :: length[k] < Unit * (nvar - ndata)
    requires |sofar| == nvar - ndata && forall i | 0 <= i < |sofar| :: sofar[i] <= Unit * (nvar - ndata)
    requires forall v | ndata < v <= nvar :: v in visited <==> sofar[v - ndata - 1] < Unit * (nvar - ndata)
    ensures ShortestOrder(edges, visited', length', ndata, nvar, vsource)
    ensures forall v :: v in visited' <==> ndata < v <= nvar
    ensures |visited| <= |visited'| && visited'[..|visited|] == visited && length'[..|length|] == length
    ensures forall k | |length| <= k < |length'| :: length'[k] == Unit * (nvar - ndata)
    ensures SumBelow(length', Unit * (nvar - ndata)) == SumBelow(length, Unit * (nvar - ndata))
  {
    var inf := Unit * (nvar - ndata);
    visited', length' := visited, length;
    for i := 0 to |sofar|
      invariant visited' == visited + Unreached(sofar, ndata, inf, i)
      invariant length' == length + seq(|Unreached(sofar, ndata, inf, i)|, _ => inf)
      invariant SumBelow(length', inf) == SumBelow(length, inf)
    {
      if sofar[i] == inf {
        ghost var n := |Unreached(sofar, ndata, inf, i)|;
        assert seq(n + 1, _ => inf) == seq(n, _ => inf) + [inf];
        SumBelowInf(length', inf);
        visited' := visited' + [ndata + 1 + i];
        length' := length' + [inf];
      }
    }
    Completed(edges, sofar, visited, length, ndata, nvar, vsource, Unreached(sofar, ndata, inf, |sofar|));
    assert visited'[..|visited|] == visited && length'[..|length|] == length;
  }
}

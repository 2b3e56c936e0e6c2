/**
 * Re-encoding a cardinality constraint into clauses inside the solver
 * (cardinality-cadical/src/cardinality_encoding.cpp): the split encoding for at-least-all-but-one
 * constraints, a totalizer (Totalizer) for every other bound, the phase partition and the sorts
 * that order the literals, and the dispatch encode_cardinality_constraint with the solver state
 * it changes. The solver's clause database is the `formula` list, the derivation file the
 * `proof` list; the score tables are integer-valued here.
 */
module CardEncoding {
  import opened Lits
  import opened KnfToCnf
  import opened Totalizer

  // ---------------------------------------------------------------------------
  // The split encoding.

  /**
   * split_full_encoding's clauses for the literals s: up to four literals get all pairwise
   * clauses; beyond that the first three get pairwise clauses and clauses (freshVar, x), and the
   * recursion continues on -freshVar followed by the fourth literal onwards.
   */
  function SplitClauses(s: seq<int>, freshVar: int): seq<seq<int>>
    decreases |s|
  {
    if |s| <= 4 then Pairs(s)
    else Pairs(s[..3]) + Guarded(freshVar, s[..3]) + SplitClauses([-freshVar] + s[3..], freshVar + 1)
  }

  /** The derivation lines: each call's clauses, plus the definition (-freshVar, -x1, -x2, -x3) of its fresh variable. */
  function SplitDerivation(s: seq<int>, freshVar: int): seq<seq<int>>
    decreases |s|
  {
    if |s| <= 4 then Pairs(s)
    else
      Pairs(s[..3]) + Guarded(freshVar, s[..3]) + [[-freshVar, -s[0], -s[1], -s[2]]]
      + SplitDerivation([-freshVar] + s[3..], freshVar + 1)
  }

  /** The values the fresh variables take in a model of the split encoding. */
  function SplitExtend(s: seq<int>, freshVar: int, a: Assignment): Assignment
    decreases |s|
  {
    if |s| <= 4 then a
    else
      var a' := if LitTrue(a, s[0]) && LitTrue(a, s[1]) && LitTrue(a, s[2]) then a - {freshVar} else a + {freshVar};
      SplitExtend([-freshVar] + s[3..], freshVar + 1, a')
  }

  /** The split encoding is sound: if its clauses hold, all literals but at most one do. */
  lemma {:induction false} SplitSound(s: seq<int>, freshVar: int, a: Assignment)
    requires freshVar > 0
    requires Sat(SplitClauses(s, freshVar), a)
    ensures AtLeast(s, |s| - 1, a)
    decreases |s|
  {
    OneFalseCount(s, a);
    if |s| <= 4 {
      PairsMeaning(s, a);
    } else {
      var head := s[..3];
      var t := [-freshVar] + s[3..];
      SatAppend(Pairs(head) + Guarded(freshVar, head), SplitClauses(t, freshVar + 1), a);
      SatAppend(Pairs(head), Guarded(freshVar, head), a);
      PairsMeaning(head, a);
      GuardedMeaning(freshVar, head, a);
      SplitSound(t, freshVar + 1, a);
      OneFalseCount(t, a);
      forall p, q | 0 <= p < q < |s| ensures LitTrue(a, s[p]) || LitTrue(a, s[q]) {
        if q < 3 {
          assert LitTrue(a, head[p]) || LitTrue(a, head[q]);
        } else if p < 3 {
          if !LitTrue(a, s[p]) {
            assert !LitTrue(a, head[p]);
            assert LitTrue(a, freshVar);
            assert t[0] == -freshVar && t[q - 2] == s[q];
            OneFalseAt(t, a, 0, q - 2);
          }
        } else {
          assert t[p - 2] == s[p] && t[q - 2] == s[q];
          assert LitTrue(a, t[p - 2]) || LitTrue(a, t[q - 2]);
        }
      }
    }
  }

  /** SplitExtend changes only fresh variables, from `freshVar` on. */
  lemma {:induction false} SplitExtendAgrees(s: seq<int>, freshVar: int, a: Assignment)
    ensures Agree(a, SplitExtend(s, freshVar, a), freshVar)
    decreases |s|
  {
    if |s| > 4 {
      var a' := if LitTrue(a, s[0]) && LitTrue(a, s[1]) && LitTrue(a, s[2]) then a - {freshVar} else a + {freshVar};
      SplitExtendAgrees([-freshVar] + s[3..], freshVar + 1, a');
    }
  }

  /**
   * The split encoding is complete: when all literals but at most one hold, the fresh
   * variables can be set so that every clause holds, without touching the literals' variables.
   */
  lemma {:induction false} SplitComplete(s: seq<int>, freshVar: int, a: Assignment)
    requires Below(s, freshVar)
    requires AtLeast(s, |s| - 1, a)
    ensures Sat(SplitClauses(s, freshVar), SplitExtend(s, freshVar, a))
    ensures Agree(a, SplitExtend(s, freshVar, a), freshVar)
    decreases |s|
  {
    var b := SplitExtend(s, freshVar, a);
    SplitExtendAgrees(s, freshVar, a);
    AgreeLits(s, a, b, freshVar);
    OneFalseCount(s, a);
    if |s| <= 4 {
      PairsMeaning(s, b);
    } else {
      var head := s[..3];
      var t := [-freshVar] + s[3..];
      var a' := if LitTrue(a, s[0]) && LitTrue(a, s[1]) && LitTrue(a, s[2]) then a - {freshVar} else a + {freshVar};
      assert b == SplitExtend(t, freshVar + 1, a');
      assert 0 < Abs(s[0]) < freshVar;
      assert Below(t, freshVar + 1) by {
        forall i | 0 <= i < |t| ensures 0 < Abs(t[i]) < freshVar + 1 {
          if i > 0 { assert t[i] == s[i + 2]; }
        }
      }
      assert Agree(a, a', freshVar);
      AgreeLits(s, a, a', freshVar);
      assert OneFalseAtMost(t, a') by {
        forall p, q | 0 <= p < q < |t| ensures LitTrue(a', t[p]) || LitTrue(a', t[q]) {
          if p > 0 {
            assert t[p] == s[p + 2] && t[q] == s[q + 2];
            assert LitTrue(a, s[p + 2]) || LitTrue(a, s[q + 2]);
          } else {
            assert t[q] == s[q + 2];
            if !LitTrue(a', t[p]) {
              assert freshVar in a';
              assert !LitTrue(a, s[0]) || !LitTrue(a, s[1]) || !LitTrue(a, s[2]);
              assert LitTrue(a, s[q + 2]) by {
                if !LitTrue(a, s[0]) { assert LitTrue(a, s[0]) || LitTrue(a, s[q + 2]); }
                else if !LitTrue(a, s[1]) { assert LitTrue(a, s[1]) || LitTrue(a, s[q + 2]); }
                else { assert LitTrue(a, s[2]) || LitTrue(a, s[q + 2]); }
              }
            }
          }
        }
      }
      OneFalseCount(t, a');
      SplitComplete(t, freshVar + 1, a');
      SplitExtendAgrees(t, freshVar + 1, a');
      assert freshVar in b <==> freshVar in a';
      assert OneFalseAtMost(head, b) by {
        forall p, q | 0 <= p < q < 3 ensures LitTrue(b, head[p]) || LitTrue(b, head[q]) {
          assert LitTrue(b, s[p]) || LitTrue(b, s[q]);
        }
      }
      PairsMeaning(head, b);
      GuardedMeaning(freshVar, head, b);
      assert LitTrue(b, freshVar) || forall i :: 0 <= i < 3 ==> LitTrue(b, head[i]);
      SatAppend(Pairs(head), Guarded(freshVar, head), b);
      SatAppend(Pairs(head) + Guarded(freshVar, head), SplitClauses(t, freshVar + 1), b);
    }
  }

  /** The clauses one call of split_full_encoding pushes before it recurses (or returns). */
  method SplitBlock(lits: seq<int>, start: int, freshVar: int) returns (block: seq<seq<int>>)
    requires 0 <= start && |lits| - start >= 3
    ensures var s := lits[start..];
      block == if |s| <= 4 then Pairs(s) else Pairs(s[..3]) + Guarded(freshVar, s[..3])
  {
    ghost var s := lits[start..];
    var size := |lits| - start;
    if size == 3 {
      block := [[lits[start + 0], lits[start + 1]], [lits[start + 0], lits[start + 2]], [lits[start + 1], lits[start + 2]]];
      PairsThree(s);
    } else if size == 4 {
      block := [[lits[start + 0], lits[start + 1]], [lits[start + 0], lits[start + 2]], [lits[start + 1], lits[start + 2]],
                [lits[start + 0], lits[start + 3]], [lits[start + 1], lits[start + 3]], [lits[start + 2], lits[start + 3]]];
      PairsFour(s);
    } else {
      block := [[lits[start + 0], lits[start + 1]], [lits[start + 0], lits[start + 2]], [lits[start + 1], lits[start + 2]],
                [freshVar, lits[start + 0]], [freshVar, lits[start + 1]], [freshVar, lits[start + 2]]];
      PairsThree(s[..3]);
      assert block == Pairs(s[..3]) + Guarded(freshVar, s[..3]);
    }
  }

  /** One step of the split recursion, as split_full_encoding takes it. */
  lemma SplitStep(s: seq<int>, freshVar: int, t: seq<int>, f1: int, block: seq<seq<int>>)
    requires |s| > 4 && t == [-freshVar] + s[3..] && f1 == freshVar + 1
    requires block == Pairs(s[..3]) + Guarded(freshVar, s[..3])
    ensures SplitClauses(s, freshVar) == block + SplitClauses(t, f1)
    ensures SplitDerivation(s, freshVar) == block + [[-freshVar, -s[0], -s[1], -s[2]]] + SplitDerivation(t, f1)
  {
  }

  lemma SplitBase(s: seq<int>, freshVar: int)
    requires |s| <= 4
    ensures SplitClauses(s, freshVar) == Pairs(s) && SplitDerivation(s, freshVar) == Pairs(s)
  {
  }

  lemma Assoc<T>(x: seq<T>, y: seq<T>, z: seq<T>)
    ensures x + y + z == x + (y + z)
  {
  }

  lemma AuxStepsStep(size: int)
    requires size > 4
    ensures AuxSteps(size) == 1 + AuxSteps(size - 2)
  {
  }

  // ---------------------------------------------------------------------------
  // Ordering the literals before they are encoded.

  /** Every literal's variable indexes the table `t`. */
  predicate Indexed<T>(lits: seq<int>, t: seq<T>)
  {
    forall i :: 0 <= i < |lits| ==> Abs(lits[i]) < |t|
  }

  /** No literal whose saved phase is true comes after one whose phase is false. */
  predicate PhaseGrouped(s: seq<int>, best: seq<bool>)
    requires Indexed(s, best)
  {
    forall i, j :: 0 <= i < j < |s| && !best[Abs(s[i])] ==> !best[Abs(s[j])]
  }

  /** The number of literals whose saved phase is true. */
  function PhaseTrue(s: seq<int>, best: seq<bool>): (r: nat)
    requires Indexed(s, best)
    ensures r <= |s|
  {
    if s == [] then 0 else PhaseTrue(s[..|s| - 1], best) + (if best[Abs(s[|s| - 1])] then 1 else 0)
  }

  /** A sequence split at `mid` into phase-true literals followed by phase-false ones has `mid` phase-true literals. */
  lemma {:induction false} PhaseTrueSplit(s: seq<int>, best: seq<bool>, mid: int)
    requires Indexed(s, best) && 0 <= mid <= |s|
    requires forall i :: 0 <= i < mid ==> best[Abs(s[i])]
    requires forall i :: mid <= i < |s| ==> !best[Abs(s[i])]
    ensures PhaseTrue(s, best) == mid
    decreases |s|
  {
    if s != [] {
      if mid == |s| {
        PhaseTrueSplit(s[..|s| - 1], best, mid - 1);
      } else {
        PhaseTrueSplit(s[..|s| - 1], best, mid);
      }
    }
  }

  /** The literals before `start` have phase true, those after `end` phase false. */
  predicate Flanked(s: seq<int>, best: seq<bool>, start: int, end: int)
    requires Indexed(s, best)
  {
    (forall i :: 0 <= i < start && i < |s| ==> best[Abs(s[i])]) &&
    (forall i :: end < i < |s| && 0 <= i ==> !best[Abs(s[i])])
  }

  /** What sort_by_phase's loop keeps between rounds, for an array of `n` literals. */
  predicate Closing(s: seq<int>, best: seq<bool>, start: int, end: int)
  {
    Indexed(s, best) && 0 <= start < |s| && 0 <= end < |s| && start <= end + 1
    && Flanked(s, best, start, end)
    && (start < end && end < |s| - 1 ==> !best[Abs(s[end])])
    && (start == end ==> (end == |s| - 1 <==> best[Abs(s[end])]))
  }

  /** Decreases with every round of sort_by_phase's loop. */
  function Distance(s: seq<int>, best: seq<bool>, start: int, end: int): int
    requires Indexed(s, best) && 0 <= start < |s| && 0 <= end < |s|
  {
    2 * (end - start) + (if start < end && best[Abs(s[start])] && !best[Abs(s[end])] then 0 else 1)
  }

  /** The first inner loop of a round: step over the phase-true literals at the front. */
  method SkipTrue(s: seq<int>, best: seq<bool>, start0: int, end: int) returns (start: int)
    requires Indexed(s, best) && 0 <= start0 <= end < |s| && Flanked(s, best, start0, end)
    ensures start0 <= start <= end && Flanked(s, best, start, end)
    ensures start < end ==> !best[Abs(s[start])]
  {
    start := start0;
    while best[Abs(s[start])] && start < end
      invariant start0 <= start <= end && Flanked(s, best, start, end)
    {
      start := start + 1;
    }
  }

  /** The second inner loop of a round: step back over the phase-false literals at the end. */
  method SkipFalse(s: seq<int>, best: seq<bool>, start: int, end0: int) returns (end: int)
    requires Indexed(s, best) && 0 <= start <= end0 < |s| && Flanked(s, best, start, end0)
    ensures 0 <= end <= end0 && start <= end + 1 && Flanked(s, best, start, end)
    ensures end > 0 && end >= start ==> best[Abs(s[end])]
    ensures end == end0 ==> best[Abs(s[end])] || end == 0
  {
    end := end0;
    while !best[Abs(s[end])] && end > 0
      invariant 0 <= end <= end0 && start <= end + 1 && Flanked(s, best, start, end)
      invariant end < end0 ==> !best[Abs(s[end0])]
    {
      end := end - 1;
    }
  }

  /** Swapping a phase-false front literal with a phase-true back literal keeps the loop's facts. */
  lemma SwapCloses(s: seq<int>, best: seq<bool>, start: int, end: int, t: seq<int>)
    requires Indexed(s, best) && 0 <= start < end < |s| && Flanked(s, best, start, end)
    requires !best[Abs(s[start])] && best[Abs(s[end])]
    requires t == s[start := s[end]][end := s[start]]
    ensures Closing(t, best, start, end) && Distance(t, best, start, end) == 2 * (end - start)
    ensures multiset(t) == multiset(s)
  {
  }

  /** One round of sort_by_phase's loop: skip the placed literals at both ends, then swap. */
  method PhaseRound(a: array<int>, best: seq<bool>, start0: int, end0: int) returns (start: int, end: int)
    requires Closing(a[..], best, start0, end0) && start0 < end0
    modifies a
    ensures multiset(a[..]) == multiset(old(a[..])) && Closing(a[..], best, start, end)
    ensures Distance(a[..], best, start, end) < Distance(old(a[..]), best, start0, end0)
  {
    ghost var s := a[..];
    start := SkipTrue(a[..], best, start0, end0);
    end := SkipFalse(a[..], best, start, end0);
    if start < end {
      a[start], a[end] := a[end], a[start];
      SwapCloses(s, best, start, end, a[..]);
    }
  }

  /** sort_by_phase's swapping loop: `start` and `end` close in from both ends. */
  method PhaseSwaps(a: array<int>, best: seq<bool>) returns (start: int, end: int)
    requires a.Length >= 2 && Indexed(a[..], best)
    modifies a
    ensures multiset(a[..]) == multiset(old(a[..])) && Closing(a[..], best, start, end) && start >= end
  {
    start, end := 0, a.Length - 1;
    while start < end
      invariant multiset(a[..]) == multiset(old(a[..])) && Closing(a[..], best, start, end)
      decreases Distance(a[..], best, start, end)
    {
      start, end := PhaseRound(a, best, start, end);
    }
  }

  /**
   * sort_by_phase: moves the literals whose saved phase is true to the front, swapping from
   * both ends, and returns how many there are. With a single literal it returns 1 whatever its
   * phase; its one caller only sees more than two literals.
   */
  method SortByPhase(a: array<int>, best: seq<bool>) returns (mid: int)
    requires a.Length >= 1 && Indexed(a[..], best)
    modifies a
    ensures multiset(a[..]) == multiset(old(a[..])) && Indexed(a[..], best)
    ensures a.Length == 1 ==> a[..] == old(a[..]) && mid == 1
    ensures a.Length >= 2 ==> 0 <= mid <= a.Length && Flanked(a[..], best, mid, mid - 1)
    ensures a.Length >= 2 ==> mid == PhaseTrue(a[..], best) && PhaseGrouped(a[..], best)
  {
    if a.Length == 1 {
      return 1;
    }
    var start, end := PhaseSwaps(a, best);
    if end < start || end == a.Length - 1 {
      mid := end + 1;
    } else {
      mid := end;
    }
    PhaseTrueSplit(a[..], best, mid);
  }

  // The solver's two std::sort calls, as a stable insertion sort by an integer key.

  /** `s` is in non-decreasing order of `key`. */
  predicate SortedBy(s: seq<int>, key: int -> int)
  {
    forall i, j :: 0 <= i < j < |s| ==> key(s[i]) <= key(s[j])
  }

  function InsertBy(x: int, s: seq<int>, key: int -> int): (r: seq<int>)
    ensures |r| == |s| + 1
  {
    if s == [] then [x]
    else if key(x) <= key(s[0]) then [x] + s
    else [s[0]] + InsertBy(x, s[1..], key)
  }

  function SortBy(s: seq<int>, key: int -> int): (r: seq<int>)
    ensures |r| == |s|
  {
    if s == [] then [] else InsertBy(s[0], SortBy(s[1..], key), key)
  }

  lemma {:induction false} InsertByPerm(x: int, s: seq<int>, key: int -> int)
    ensures multiset(InsertBy(x, s, key)) == multiset(s) + multiset{x}
  {
    if s != [] && key(x) > key(s[0]) {
      InsertByPerm(x, s[1..], key);
      assert s == [s[0]] + s[1..];
    }
  }

  /** A key bound that holds for x and for all of s holds for all of InsertBy(x, s). */
  lemma {:induction false} InsertByAbove(x: int, s: seq<int>, key: int -> int, lo: int)
    requires lo <= key(x) && forall i :: 0 <= i < |s| ==> lo <= key(s[i])
    ensures forall i :: 0 <= i < |s| + 1 ==> lo <= key(InsertBy(x, s, key)[i])
  {
    if s != [] && key(x) > key(s[0]) {
      InsertByAbove(x, s[1..], key, lo);
    }
  }

  lemma {:induction false} InsertBySorted(x: int, s: seq<int>, key: int -> int)
    requires SortedBy(s, key)
    ensures SortedBy(InsertBy(x, s, key), key)
  {
    if s != [] && key(x) > key(s[0]) {
      InsertBySorted(x, s[1..], key);
      InsertByAbove(x, s[1..], key, key(s[0]));
    }
  }

  /** The sort orders by the key and only rearranges. */
  lemma {:induction false} SortByMeaning(s: seq<int>, key: int -> int)
    ensures SortedBy(SortBy(s, key), key) && multiset(SortBy(s, key)) == multiset(s)
  {
    if s != [] {
      SortByMeaning(s[1..], key);
      InsertBySorted(s[0], SortBy(s[1..], key), key);
      InsertByPerm(s[0], SortBy(s[1..], key), key);
      assert s == [s[0]] + s[1..];
    }
  }

  /** The comparator of the sort without a score: variables in increasing order. */
  function VarKey(): int -> int
  {
    x => Abs(x)
  }

  /** The score sorts' comparator: higher score first. */
  function ScoreKey(tab: seq<int>): int -> int
  {
    x => if Abs(x) < |tab| then -tab[Abs(x)] else 0
  }

  /** A rearrangement of literals that all have phase `v` has only literals of phase `v`. */
  lemma PermPhase(s: seq<int>, t: seq<int>, best: seq<bool>, v: bool)
    requires multiset(s) == multiset(t) && Indexed(s, best)
    requires forall i :: 0 <= i < |s| ==> best[Abs(s[i])] == v
    ensures Indexed(t, best) && forall i :: 0 <= i < |t| ==> best[Abs(t[i])] == v
  {
    forall i | 0 <= i < |t| ensures Abs(t[i]) < |best| && best[Abs(t[i])] == v {
      assert t[i] in multiset(s);
      var k :| 0 <= k < |s| && s[k] == t[i];
    }
  }

  /** Sorting the literals before position `upto` keeps the phase grouping at `mid`. */
  lemma SortFront(s: seq<int>, best: seq<bool>, mid: int, upto: int, key: int -> int)
    requires Indexed(s, best) && 0 <= upto <= mid <= |s| && Flanked(s, best, mid, mid - 1)
    ensures var t := SortBy(s[..upto], key) + s[upto..];
      multiset(t) == multiset(s) && Indexed(t, best) && Flanked(t, best, mid, mid - 1)
      && SortedBy(t[..upto], key) && t[upto..] == s[upto..]
  {
    var f := SortBy(s[..upto], key);
    var t := f + s[upto..];
    SortByMeaning(s[..upto], key);
    PermPhase(s[..upto], f, best, true);
    assert s == s[..upto] + s[upto..];
    assert t[..upto] == f && t[upto..] == s[upto..];
  }

  /** Sorting the literals from position `mid` on keeps the phase grouping at `mid`. */
  lemma SortBack(s: seq<int>, best: seq<bool>, mid: int, key: int -> int)
    requires Indexed(s, best) && 0 <= mid <= |s| && Flanked(s, best, mid, mid - 1)
    ensures var t := s[..mid] + SortBy(s[mid..], key);
      multiset(t) == multiset(s) && Indexed(t, best) && Flanked(t, best, mid, mid - 1)
      && SortedBy(t[mid..], key) && t[..mid] == s[..mid]
  {
    var b := SortBy(s[mid..], key);
    var t := s[..mid] + b;
    SortByMeaning(s[mid..], key);
    PermPhase(s[mid..], b, best, false);
    assert s == s[..mid] + s[mid..];
    assert t[..mid] == s[..mid] && t[mid..] == b;
  }

  /** The two score sorts after sort_by_phase returned `mid`: before mid - 1, and from mid on. */
  function ScoreSorted(s: seq<int>, mid: int, key: int -> int): seq<int>
    requires 0 <= mid <= |s|
  {
    var t := FrontSorted(s, mid, key);
    if mid < |t| - 1 then t[..mid] + SortBy(t[mid..], key) else t
  }

  /** The first score sort: the literals before mid - 1, when there are at least two phase-true ones. */
  function FrontSorted(s: seq<int>, mid: int, key: int -> int): seq<int>
    requires 0 <= mid <= |s|
  {
    if mid > 1 then SortBy(s[..FrontEnd(mid)], key) + s[FrontEnd(mid)..] else s
  }

  /** The sort before mid - 1 leaves nothing out of order there. */
  function FrontEnd(mid: int): int { if mid > 0 then mid - 1 else 0 }

  lemma ScoreSortedMeaning(s: seq<int>, best: seq<bool>, mid: int, key: int -> int)
    requires Indexed(s, best) && 0 <= mid <= |s| && Flanked(s, best, mid, mid - 1)
    ensures var t := ScoreSorted(s, mid, key);
      multiset(t) == multiset(s) && Indexed(t, best) && Flanked(t, best, mid, mid - 1)
      && SortedBy(t[..FrontEnd(mid)], key) && SortedBy(t[mid..], key)
  {
    FrontSortedMeaning(s, best, mid, key);
    BackSortedMeaning(FrontSorted(s, mid, key), best, mid, key);
  }

  /** The first score sort rearranges the literals, keeps the grouping and orders the front. */
  lemma FrontSortedMeaning(s: seq<int>, best: seq<bool>, mid: int, key: int -> int)
    requires Indexed(s, best) && 0 <= mid <= |s| && Flanked(s, best, mid, mid - 1)
    ensures var t := FrontSorted(s, mid, key);
      multiset(t) == multiset(s) && Indexed(t, best) && Flanked(t, best, mid, mid - 1)
      && SortedBy(t[..FrontEnd(mid)], key)
  {
    if mid > 1 {
      SortFront(s, best, mid, FrontEnd(mid), key);
    }
  }

  /** The second score sort rearranges the literals, keeps the grouping and the front, and orders the back. */
  lemma BackSortedMeaning(t: seq<int>, best: seq<bool>, mid: int, key: int -> int)
    requires Indexed(t, best) && 0 <= mid <= |t| && Flanked(t, best, mid, mid - 1)
    requires SortedBy(t[..FrontEnd(mid)], key)
    ensures var u := if mid < |t| - 1 then t[..mid] + SortBy(t[mid..], key) else t;
      multiset(u) == multiset(t) && Indexed(u, best) && Flanked(u, best, mid, mid - 1)
      && SortedBy(u[..FrontEnd(mid)], key) && SortedBy(u[mid..], key)
  {
    if mid < |t| - 1 {
      SortBack(t, best, mid, key);
      var u := t[..mid] + SortBy(t[mid..], key);
      assert u[..FrontEnd(mid)] == t[..FrontEnd(mid)];
    }
  }

  /**
   * The order in which the literals are encoded. Without a score (byScore == 0), by
   * increasing variable. With one, the phase-true literals first (sort_by_phase), then each
   * group by decreasing score from `tab`; the front sort stops one short of the group's end.
   */
  method OrderLiterals(lits: seq<int>, byScore: int, tab: seq<int>, best: seq<bool>) returns (order: seq<int>)
    requires byScore != 0 ==> |lits| >= 1 && Indexed(lits, best)
    ensures multiset(order) == multiset(lits)
    ensures byScore == 0 ==> SortedBy(order, VarKey())
    ensures byScore != 0 && |lits| >= 2 ==> Indexed(order, best) && PhaseGrouped(order, best)
    ensures byScore != 0 && |lits| >= 2 ==> SortedBy(order[..FrontEnd(PhaseTrue(order, best))], ScoreKey(tab))
    ensures byScore != 0 && |lits| >= 2 ==> SortedBy(order[PhaseTrue(order, best)..], ScoreKey(tab))
  {
    if byScore == 0 {
      order := SortBy(lits, VarKey());
      SortByMeaning(lits, VarKey());
      return;
    }
    var a := new int[|lits|](i requires 0 <= i < |lits| => lits[i]);
    assert a[..] == lits;
    var mid := SortByPhase(a, best);
    if |lits| == 1 {
      return a[..];
    }
    ScoreSortedMeaning(a[..], best, mid, ScoreKey(tab));
    order := ScoreSorted(a[..], mid, ScoreKey(tab));
    PhaseTrueSplit(order, best, mid);
  }

  /** Two permutations of each other have the same length. */
  lemma SameLength(a: seq<int>, b: seq<int>)
    requires multiset(a) == multiset(b)
    ensures |a| == |b|
  {
    assert |a| == |multiset(a)|;
  }

  /**
   * `order` rearranges `lits` as encode_cardinality_constraint orders them: by variable without
   * a score, phase-true literals first with one.
   */
  predicate Arranged(order: seq<int>, lits: seq<int>, byScore: int, best: seq<bool>)
  {
    multiset(order) == multiset(lits) && |order| == |lits|
    && (byScore == 0 ==> SortedBy(order, VarKey()))
    && (byScore != 0 ==> Indexed(order, best) && PhaseGrouped(order, best))
  }

  // ---------------------------------------------------------------------------
  // What encode_cardinality_constraint produces for the ordered literals.

  /** A cardinality constraint in the solver's list: at least `bound` of `lits`, unless marked garbage. */
  datatype CardClause = CardClause(lits: seq<int>, bound: int, garbage: bool)

  /** The constraint reaches the encoders: not garbage, not promoted to a clause, more than two literals. */
  predicate Encodes(c: CardClause, onlyDerivation: bool)
  {
    !c.garbage && !(c.bound == 1 && !onlyDerivation) && |c.lits| > 2
  }

  /** All but one literal must hold: the split encoding; otherwise a totalizer on the negated literals. */
  function EncodingOf(order: seq<int>, bound: int, freshVar: int): seq<seq<int>>
    requires 2 < |order| && bound <= |order|
  {
    if bound == |order| - 1 then SplitClauses(order, freshVar)
    else Tree(Leaves(Negate(order)), [], |order| - bound, freshVar)
  }

  /** The derivation lines the encoders write: the split encoding adds its definitions. */
  function DerivationOf(order: seq<int>, bound: int, freshVar: int): seq<seq<int>>
    requires 2 < |order| && bound <= |order|
  {
    if bound == |order| - 1 then SplitDerivation(order, freshVar)
    else Tree(Leaves(Negate(order)), [], |order| - bound, freshVar)
  }

  /** The fresh variable after the encoding. */
  function EncodingNext(order: seq<int>, bound: int, freshVar: int): int
    requires 2 < |order| && bound <= |order|
  {
    if bound == |order| - 1 then freshVar + AuxSteps(|order|)
    else TreeNext(Leaves(Negate(order)), [], |order| - bound, freshVar)
  }

  /** Taking out the literal at position k takes it out of the multiset and of the count. */
  lemma RemoveAt(ys: seq<int>, k: int, a: Assignment)
    requires 0 <= k < |ys|
    ensures multiset(ys[..k] + ys[k + 1..]) == multiset(ys) - multiset{ys[k]}
    ensures CountTrue(ys, a) == CountTrue(ys[..k] + ys[k + 1..], a) + (if LitTrue(a, ys[k]) then 1 else 0)
  {
    var left, right := ys[..k], ys[k + 1..];
    assert ys == left + [ys[k]] + right;
    CountTrueAppend(left + [ys[k]], right, a);
    CountTrueAppend(left, [ys[k]], a);
    CountTrueAppend(left, right, a);
    assert [ys[k]][..0] == [];
  }

  /** Rearranging the literals does not change how many are true. */
  lemma {:induction false} CountTruePerm(xs: seq<int>, ys: seq<int>, a: Assignment)
    requires multiset(xs) == multiset(ys)
    ensures CountTrue(xs, a) == CountTrue(ys, a)
    decreases |xs|
  {
    if xs == [] {
      assert |ys| == |multiset(ys)| == 0;
    } else {
      var init, x := xs[..|xs| - 1], xs[|xs| - 1];
      assert xs == init + [x];
      assert x in multiset(ys);
      var k :| 0 <= k < |ys| && ys[k] == x;
      RemoveAt(ys, k, a);
      CountTruePerm(init, ys[..k] + ys[k + 1..], a);
    }
  }

  /** Rearranging literals below `bound` leaves them below `bound`. */
  lemma PermBelow(xs: seq<int>, ys: seq<int>, bound: int)
    requires multiset(xs) == multiset(ys) && Below(xs, bound)
    ensures Below(ys, bound)
  {
    forall i | 0 <= i < |ys| ensures 0 < Abs(ys[i]) < bound {
      assert ys[i] in multiset(xs);
      var k :| 0 <= k < |xs| && xs[k] == ys[i];
    }
  }

  lemma PermNonZero(xs: seq<int>, ys: seq<int>)
    requires multiset(xs) == multiset(ys) && NonZero(xs)
    ensures NonZero(ys)
  {
    forall i | 0 <= i < |ys| ensures ys[i] != 0 {
      assert ys[i] in multiset(xs);
    }
  }

  lemma NegateBelow(s: seq<int>, bound: int)
    requires Below(s, bound)
    ensures Below(Negate(s), bound) && NonZero(s)
  {
    forall i | 0 <= i < |s| ensures 0 < Abs(Negate(s)[i]) < bound && s[i] != 0 {
      assert 0 < Abs(s[i]) < bound;
    }
  }

  /**
   * The encoding is sound, whatever order the literals were put in: if its clauses hold, at
   * least `bound` of the constraint's literals are true.
   */
  lemma EncodingSound(lits: seq<int>, order: seq<int>, bound: int, freshVar: int, a: Assignment)
    requires multiset(order) == multiset(lits) && 2 < |order| == |lits| && bound <= |lits|
    requires NonZero(lits) && freshVar > 0
    ensures Sat(EncodingOf(order, bound, freshVar), a) ==> AtLeast(lits, bound, a)
  {
    CountTruePerm(order, lits, a);
    PermNonZero(lits, order);
    if Sat(EncodingOf(order, bound, freshVar), a) {
      OrderedSound(order, bound, freshVar, a);
    }
  }

  /** The encoding of the literals in the order given forces at least `bound` of them. */
  lemma OrderedSound(order: seq<int>, bound: int, freshVar: int, a: Assignment)
    requires 2 < |order| && bound <= |order| && NonZero(order) && freshVar > 0
    requires Sat(EncodingOf(order, bound, freshVar), a)
    ensures AtLeast(order, bound, a)
  {
    if bound == |order| - 1 {
      SplitSound(order, freshVar, a);
    } else {
      TreeSoundNegated(order, bound, freshVar, a);
    }
  }

  /** The totalizer on the negated literals, with bound |order| - bound, forces at least `bound` true. */
  lemma TreeSoundNegated(order: seq<int>, bound: int, freshVar: int, a: Assignment)
    requires 2 < |order| && bound <= |order| && NonZero(order) && freshVar > 0
    requires Sat(Tree(Leaves(Negate(order)), [], |order| - bound, freshVar), a)
    ensures AtLeast(order, bound, a)
  {
    assert NonZero(Negate(order));
    TotalizerSound(Negate(order), |order| - bound, freshVar, a);
    CountNegate(order, a);
  }

  /**
   * The encoding is complete, whatever order the literals were put in: when at least `bound`
   * of the literals hold, the fresh variables can be set so that every clause holds, without
   * changing any variable below `freshVar`.
   */
  lemma EncodingComplete(lits: seq<int>, order: seq<int>, bound: int, freshVar: int, a: Assignment)
    requires multiset(order) == multiset(lits) && 2 < |order| == |lits| && bound <= |lits|
    requires Below(lits, freshVar)
    ensures AtLeast(lits, bound, a) ==>
      exists b :: Agree(a, b, freshVar) && Sat(EncodingOf(order, bound, freshVar), b)
  {
    CountTruePerm(order, lits, a);
    PermBelow(lits, order, freshVar);
    if AtLeast(lits, bound, a) {
      if bound == |order| - 1 {
        SplitComplete(order, freshVar, a);
        var b := SplitExtend(order, freshVar, a);
        assert Agree(a, b, freshVar) && Sat(EncodingOf(order, bound, freshVar), b);
      } else {
        NegateBelow(order, freshVar);
        CountNegate(order, a);
        TotalizerComplete(Negate(order), |order| - bound, freshVar, a);
      }
    }
  }

  /** The first fresh variable when the largest variable in use is maxVar. */
  function FirstFresh(maxVar: int): int { maxVar + 1 }

  class Encoder {
    /** The clauses produced so far, waiting to be added to the formula. */
    var encodingClauses: seq<seq<int>>
    /** The clauses produced for the derivation, waiting to be written. */
    var encodingDerivation: seq<seq<int>>
    /** The clauses added to the formula (add_new_original_cardinality_clause). */
    var formula: seq<seq<int>>
    /** The solver's cardinality constraints, by index. */
    var cards: seq<CardClause>
    /** The largest variable in use; fresh variables are numbered from FirstFresh(maxVar). */
    var maxVar: int
    /** The lines written to the encoding derivation file. */
    var proof: seq<seq<int>>

    constructor (cards0: seq<CardClause>, maxVar0: int)
      ensures encodingClauses == [] && encodingDerivation == [] && formula == [] && proof == []
      ensures cards == cards0 && maxVar == maxVar0
    {
      encodingClauses := [];
      encodingDerivation := [];
      formula := [];
      cards := cards0;
      maxVar := maxVar0;
      proof := [];
    }

    /** add_encoding_clauses: the pending clauses go into the formula, in order, and the list is emptied. */
    method AddEncodingClauses()
      modifies this`formula, this`encodingClauses
      ensures formula == old(formula) + old(encodingClauses) && encodingClauses == []
    {
      var pending := encodingClauses;
      for i := 0 to |pending|
        invariant formula == old(formula) + pending[..i]
      {
        formula := formula + [pending[i]];
      }
      assert pending[..|pending|] == pending;
      encodingClauses := [];
    }

    /** add_encoding_derivation: the pending derivation lines are written, in order, and the list is emptied. */
    method AddEncodingDerivation()
      modifies this`proof, this`encodingDerivation
      ensures proof == old(proof) + old(encodingDerivation) && encodingDerivation == []
    {
      var pending := encodingDerivation;
      for i := 0 to |pending|
        invariant proof == old(proof) + pending[..i]
      {
        proof := proof + [pending[i]];
      }
      assert pending[..|pending|] == pending;
      encodingDerivation := [];
    }

    /**
     * The encoding step of encode_cardinality_constraint on the ordered literals: the split
     * encoding when all but one must hold, otherwise the literals are negated in place and a
     * totalizer bounds how many of the negations hold by |order| - bound.
     */
    method EncodeOrdered(order: seq<int>, bound: int, freshVar: int, addDerivation: bool) returns (next: int)
      requires 2 < |order| && bound <= |order|
      modifies this
      ensures formula == old(formula) && cards == old(cards) && maxVar == old(maxVar) && proof == old(proof)
      ensures encodingClauses == old(encodingClauses) + EncodingOf(order, bound, freshVar)
      ensures encodingDerivation ==
        if addDerivation then old(encodingDerivation) + DerivationOf(order, bound, freshVar) else old(encodingDerivation)
      ensures next == EncodingNext(order, bound, freshVar)
    {
      if bound == |order| - 1 {
        next := SplitFullEncoding(order, 0, freshVar, addDerivation);
        assert order[0..] == order;
        return;
      }
      var lits := order;
      for i := 0 to |lits|
        invariant |lits| == |order|
        invariant forall k :: 0 <= k < i ==> lits[k] == -order[k]
        invariant forall k :: i <= k < |lits| ==> lits[k] == order[k]
      {
        lits := lits[i := -lits[i]];
      }
      assert lits == Negate(order);
      var clauses := Tree(Leaves(lits), [], |lits| - bound, freshVar);
      encodingClauses := encodingClauses + clauses;
      if addDerivation {
        encodingDerivation := encodingDerivation + clauses;
      }
      next := TreeNext(Leaves(lits), [], |lits| - bound, freshVar);
    }

    /**
     * encode_cardinality_constraint for constraint `cidx`. A garbage constraint is left alone;
     * one with bound 1 becomes a formula clause (unless only the derivation is wanted); one
     * with at most two literals is left alone. Otherwise its literals are ordered (`byScore`
     * is the encoding-by-score option: 0 none, 1 and 2 the two score tables), encoded with
     * fresh variables from maxVar + 1, and the pending clauses go into the formula and the
     * constraint is retired, or, with `onlyDerivation`, both stay as they are; the pending
     * derivation lines are written when `addDerivation` holds. `order` is the literal order used.
     */
    method EncodeCardinalityConstraint(cidx: int, byScore: int, stab: seq<int>, mptab: seq<int>, best: seq<bool>,
                                       addDerivation: bool, onlyDerivation: bool) returns (ghost order: seq<int>)
      requires 0 <= cidx < |cards| && 0 <= byScore <= 2
      requires Encodes(cards[cidx], onlyDerivation) ==> 1 < cards[cidx].bound <= |cards[cidx].lits|
      requires Encodes(cards[cidx], onlyDerivation) && byScore != 0 ==>
        Indexed(cards[cidx].lits, best) && Indexed(cards[cidx].lits, if byScore == 1 then stab else mptab)
      modifies this
      ensures var c := old(cards[cidx]);
        !c.garbage && c.bound == 1 && !onlyDerivation ==>
          formula == old(formula) + [c.lits] && cards == old(cards)[cidx := c.(garbage := true)]
          && encodingClauses == old(encodingClauses) && encodingDerivation == old(encodingDerivation)
          && maxVar == old(maxVar) && proof == old(proof)
      ensures var c := old(cards[cidx]);
        c.garbage || (!(c.bound == 1 && !onlyDerivation) && |c.lits| <= 2) ==>
          formula == old(formula) && cards == old(cards)
          && encodingClauses == old(encodingClauses) && encodingDerivation == old(encodingDerivation)
          && maxVar == old(maxVar) && proof == old(proof)
      ensures var c := old(cards[cidx]);
        Encodes(c, onlyDerivation) ==> Arranged(order, c.lits, byScore, best)
      ensures var c := old(cards[cidx]);
        Encodes(c, onlyDerivation) ==>
          var clauses := EncodingOf(order, c.bound, FirstFresh(old(maxVar)));
          var next := EncodingNext(order, c.bound, FirstFresh(old(maxVar)));
          formula == (if onlyDerivation then old(formula) else old(formula) + (old(encodingClauses) + clauses))
          && encodingClauses == (if onlyDerivation then old(encodingClauses) + clauses else [])
          && cards == (if onlyDerivation then old(cards) else old(cards)[cidx := c.(garbage := true)])
          && maxVar == (if !onlyDerivation && next - 1 > old(maxVar) then next - 1 else old(maxVar))
      ensures var c := old(cards[cidx]);
        Encodes(c, onlyDerivation) ==>
          var lines := DerivationOf(order, c.bound, FirstFresh(old(maxVar)));
          proof == (if addDerivation then old(proof) + (old(encodingDerivation) + lines) else old(proof))
          && encodingDerivation == (if addDerivation then [] else old(encodingDerivation))
    {
      order := [];
      var c := cards[cidx];
      if c.garbage {
        return;
      }
      if c.bound == 1 && !onlyDerivation {
        formula := formula + [c.lits];
        cards := cards[cidx := c.(garbage := true)];
        return;
      }
      if |c.lits| <= 2 {
        return;
      }
      order := EncodeConstraint(cidx, c, if byScore == 1 then stab else mptab, byScore, best, addDerivation, onlyDerivation);
    }

    /** The part of encode_cardinality_constraint that encodes constraint c = cards[cidx]. */
    method EncodeConstraint(cidx: int, c: CardClause, tab: seq<int>, byScore: int, best: seq<bool>,
                            addDerivation: bool, onlyDerivation: bool) returns (ghost order: seq<int>)
      requires 0 <= cidx < |cards| && c == cards[cidx] && Encodes(c, onlyDerivation) && 1 < c.bound <= |c.lits|
      requires byScore != 0 ==> Indexed(c.lits, best) && Indexed(c.lits, tab)
      modifies this
      ensures Arranged(order, c.lits, byScore, best)
      ensures var clauses := EncodingOf(order, c.bound, FirstFresh(old(maxVar)));
        formula == (if onlyDerivation then old(formula) else old(formula) + (old(encodingClauses) + clauses))
        && encodingClauses == (if onlyDerivation then old(encodingClauses) + clauses else [])
      ensures var next := EncodingNext(order, c.bound, FirstFresh(old(maxVar)));
        cards == (if onlyDerivation then old(cards) else old(cards)[cidx := c.(garbage := true)])
        && maxVar == (if !onlyDerivation && next - 1 > old(maxVar) then next - 1 else old(maxVar))
      ensures var lines := DerivationOf(order, c.bound, FirstFresh(old(maxVar)));
        proof == (if addDerivation then old(proof) + (old(encodingDerivation) + lines) else old(proof))
        && encodingDerivation == (if addDerivation then [] else old(encodingDerivation))
    {
      var oldMaxVar := maxVar;
      var start := FirstFresh(maxVar);
      var literals := ArrangedLiterals(c.lits, byScore, tab, best);
      order := literals;
      ghost var clauses, lines := EncodingOf(order, c.bound, start), DerivationOf(order, c.bound, start);
      ghost var f0, e0, c0, p0, d0 := formula, encodingClauses, cards, proof, encodingDerivation;
      var next := EncodeOrdered(literals, c.bound, start, addDerivation);
      ghost var e1, d1 := encodingClauses, encodingDerivation;
      assert e1 == e0 + clauses && formula == f0 && cards == c0 && proof == p0 && maxVar == oldMaxVar;
      assert d1 == if addDerivation then d0 + lines else d0;
      Retire(cidx, c, oldMaxVar, next, addDerivation, onlyDerivation);
      assert formula == if onlyDerivation then f0 else f0 + e1;
      assert proof == if addDerivation then p0 + d1 else p0;
    }

    /** The literals of a constraint in the order encode_cardinality_constraint encodes them. */
    method ArrangedLiterals(lits: seq<int>, byScore: int, tab: seq<int>, best: seq<bool>) returns (order: seq<int>)
      requires byScore != 0 ==> |lits| >= 2 && Indexed(lits, best)
      ensures Arranged(order, lits, byScore, best)
    {
      order := OrderLiterals(lits, byScore, tab, best);
      SameLength(order, lits);
    }

    /**
     * The end of encode_cardinality_constraint: raise maxVar to the last fresh variable, move the
     * pending clauses into the formula and retire the constraint (not with `onlyDerivation`),
     * and write the pending derivation lines (with `addDerivation`).
     */
    method Retire(cidx: int, c: CardClause, oldMaxVar: int, next: int, addDerivation: bool, onlyDerivation: bool)
      requires 0 <= cidx < |cards| && oldMaxVar == maxVar
      modifies this
      ensures formula == (if onlyDerivation then old(formula) else old(formula) + old(encodingClauses))
      ensures encodingClauses == (if onlyDerivation then old(encodingClauses) else [])
      ensures cards == (if onlyDerivation then old(cards) else old(cards)[cidx := c.(garbage := true)])
      ensures maxVar == (if !onlyDerivation && next - 1 > oldMaxVar then next - 1 else oldMaxVar)
      ensures proof == (if addDerivation then old(proof) + old(encodingDerivation) else old(proof))
      ensures encodingDerivation == (if addDerivation then [] else old(encodingDerivation))
    {
      if next - 1 > oldMaxVar && !onlyDerivation {
        maxVar := next - 1;
      }
      if !onlyDerivation {
        AddEncodingClauses();
        cards := cards[cidx := c.(garbage := true)];
      }
      if addDerivation {
        AddEncodingDerivation();
      }
    }

    /** split_full_encoding from position `start`: pushes the split encoding and returns the next fresh variable. */
    method SplitFullEncoding(lits: seq<int>, start: int, freshVar: int, addDerivation: bool) returns (next: int)
      requires 0 <= start && |lits| - start >= 3
      modifies this
      ensures encodingClauses == old(encodingClauses) + SplitClauses(lits[start..], freshVar)
      ensures addDerivation ==> encodingDerivation == old(encodingDerivation) + SplitDerivation(lits[start..], freshVar)
      ensures !addDerivation ==> encodingDerivation == old(encodingDerivation)
      ensures next == freshVar + AuxSteps(|lits| - start)
      ensures formula == old(formula) && cards == old(cards) && maxVar == old(maxVar) && proof == old(proof)
      decreases |lits| - start
    {
      ghost var s := lits[start..];
      ghost var c0, d0 := encodingClauses, encodingDerivation;
      var size := |lits| - start;
      var block := SplitBlock(lits, start, freshVar);
      encodingClauses := encodingClauses + block;
      if addDerivation {
        encodingDerivation := encodingDerivation + block;
      }
      if size <= 4 {
        SplitBase(s, freshVar);
        return freshVar;
      }
      if addDerivation {
        encodingDerivation := encodingDerivation + [[-freshVar, -lits[start + 0], -lits[start + 1], -lits[start + 2]]];
      }
      var lits', start', freshVar' := lits[start + 2 := -freshVar], start + 2, freshVar + 1;
      ghost var t := lits'[start'..];
      assert t == [-freshVar] + s[3..];
      next := SplitFullEncoding(lits', start', freshVar', addDerivation);
      SplitStep(s, freshVar, t, freshVar', block);
      Assoc(c0, block, SplitClauses(t, freshVar'));
      if addDerivation {
        Assoc(d0, block + [[-freshVar, -s[0], -s[1], -s[2]]], SplitDerivation(t, freshVar'));
      }
      AuxStepsStep(size);
    }
  }
}

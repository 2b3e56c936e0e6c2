/**
 * knf2cnf (Tools/knf2cnf.c): reads a KNF table of klauses and prints an equivalent CNF,
 * clause by clause. Bound 1 is echoed as a clause, bound 2 becomes the clauses that each
 * leave out one literal, bound = size becomes units, bound = size - 1 becomes the split
 * ("product") at-most-one encoding with fresh variables, and every other bound a
 * sequential counter. Printing a clause is modelled as appending it to the output.
 * The default build is modelled: none of PAIRWISE, CNFPLUS, DERIVATION, KONLY, LINEAR.
 */
module KnfToCnf {
  import opened Lits

  // ---------------------------------------------------------------------------
  // Bound 1, 2 and size: no fresh variables.

  /** `s` without its `i`-th literal. */
  function Omit(s: seq<int>, i: int): seq<int>
    requires 0 <= i < |s|
  {
    s[..i] + s[i + 1..]
  }

  /** atleasttwo's output: one clause per literal, leaving that literal out, last literal first. */
  function TwoClauses(s: seq<int>): seq<seq<int>>
  {
    seq(|s|, t requires 0 <= t < |s| => Omit(s, |s| - 1 - t))
  }

  /** atleastall's output: one unit clause per literal. */
  function UnitClauses(s: seq<int>): seq<seq<int>>
  {
    seq(|s|, t requires 0 <= t < |s| => [s[t]])
  }

  /** Leaving literal i out loses exactly its own count. */
  lemma CountOmit(s: seq<int>, i: int, a: Assignment)
    requires 0 <= i < |s|
    ensures CountTrue(Omit(s, i), a) + (if LitTrue(a, s[i]) then 1 else 0) == CountTrue(s, a)
  {
    assert s == s[..i] + ([s[i]] + s[i + 1..]);
    CountTrueAppend(s[..i], [s[i]] + s[i + 1..], a);
    CountTrueAppend([s[i]], s[i + 1..], a);
    CountTrueAppend(s[..i], s[i + 1..], a);
    assert CountTrue([s[i]], a) == CountTrue([], a) + (if LitTrue(a, s[i]) then 1 else 0);
  }

  /** The clauses of atleasttwo hold exactly when at least two literals are true. */
  lemma TwoMeaning(s: seq<int>, a: Assignment)
    requires |s| >= 1
    ensures Sat(TwoClauses(s), a) <==> AtLeast(s, 2, a)
  {
    var cs := TwoClauses(s);
    if AtLeast(s, 2, a) {
      forall t | 0 <= t < |cs| ensures CountTrue(cs[t], a) >= 1 {
        CountOmit(s, |s| - 1 - t, a);
      }
    } else {
      var i := 0;
      if CountTrue(s, a) >= 1 {
        CountTruePositive(s, a);
        i :| 0 <= i < |s| && LitTrue(a, s[i]);
      }
      CountOmit(s, i, a);
      assert cs[|s| - 1 - i] == Omit(s, i);
    }
  }

  /** The units of atleastall hold exactly when every literal is true. */
  lemma UnitMeaning(s: seq<int>, a: Assignment)
    ensures Sat(UnitClauses(s), a) <==> AtLeast(s, |s|, a)
  {
    var cs := UnitClauses(s);
    CountAll(s, a);
    CountTrueBound(s, a);
    forall t | 0 <= t < |s| ensures CountTrue(cs[t], a) >= 1 <==> LitTrue(a, s[t]) {
      assert cs[t] == [] + [s[t]];
    }
  }

  // ---------------------------------------------------------------------------
  // Bound = size - 1: the split at-most-one encoding.

  /** Every pair of literals, as a two-literal clause: pairs with the last literal come last. */
  function Pairs(s: seq<int>): (r: seq<seq<int>>)
  {
    if s == [] then []
    else Pairs(s[..|s| - 1]) + seq(|s| - 1, p requires 0 <= p < |s| - 1 => [s[p], s[|s| - 1]])
  }

  /** The clauses (g, x) for each x in xs: x holds unless g does. */
  function Guarded(g: int, xs: seq<int>): seq<seq<int>>
  {
    seq(|xs|, t requires 0 <= t < |xs| => [g, xs[t]])
  }

  /**
   * atleastallbutone's output: up to four literals get all pairwise clauses; beyond that
   * the first three get pairwise clauses and a fresh `aux` that is false only if all three
   * hold, and the rest is encoded with -aux in place of the three.
   */
  function AllButOne(s: seq<int>, aux: int): seq<seq<int>>
    decreases |s|
  {
    if |s| <= 4 then Pairs(s)
    else Pairs(s[..3]) + Guarded(aux, s[..3]) + AllButOne(s[3..] + [-aux], aux + 1)
  }

  /** The number of fresh variables atleastallbutone uses for `size` literals. */
  function AuxSteps(size: int): nat
  {
    if size <= 4 then 0 else (size - 3) / 2
  }

  /** The delete lines that derivation prints: one per fresh variable, mirroring the recursion. */
  function Derivations(s: seq<int>, aux: int): seq<seq<int>>
    decreases |s|
  {
    if |s| <= 4 then []
    else [[-aux, -s[0], -s[1], -s[2]]] + Derivations(s[3..] + [-aux], aux + 1)
  }

  /** At most one literal is false. */
  predicate OneFalseAtMost(s: seq<int>, a: Assignment)
  {
    forall p, q :: 0 <= p < q < |s| ==> LitTrue(a, s[p]) || LitTrue(a, s[q])
  }

  lemma OneFalseAt(s: seq<int>, a: Assignment, p: int, q: int)
    requires OneFalseAtMost(s, a) && 0 <= p < q < |s|
    ensures LitTrue(a, s[p]) || LitTrue(a, s[q])
  {
  }

  /** At most one false literal is "all but one are true". */
  lemma {:induction false} OneFalseCount(s: seq<int>, a: Assignment)
    ensures OneFalseAtMost(s, a) <==> AtLeast(s, |s| - 1, a)
  {
    if s != [] {
      var init := s[..|s| - 1];
      var last := s[|s| - 1];
      OneFalseCount(init, a);
      CountAll(init, a);
      CountTrueBound(init, a);
      assert forall p :: 0 <= p < |init| ==> s[p] == init[p];
      if OneFalseAtMost(s, a) {
        assert OneFalseAtMost(init, a) by {
          forall p, q | 0 <= p < q < |init| ensures LitTrue(a, init[p]) || LitTrue(a, init[q]) {
            assert LitTrue(a, s[p]) || LitTrue(a, s[q]);
          }
        }
        if !LitTrue(a, last) {
          forall p | 0 <= p < |init| ensures LitTrue(a, init[p]) {
            OneFalseAt(s, a, p, |s| - 1);
          }
        }
      }
      if AtLeast(s, |s| - 1, a) {
        forall p, q | 0 <= p < q < |s| ensures LitTrue(a, s[p]) || LitTrue(a, s[q]) {
          if q < |s| - 1 {
            assert LitTrue(a, init[p]) || LitTrue(a, init[q]);
          } else if !LitTrue(a, last) {
            assert LitTrue(a, init[p]);
          }
        }
      }
    }
  }

  /** The pairwise clauses hold exactly when at most one literal is false. */
  lemma {:induction false} PairsMeaning(s: seq<int>, a: Assignment)
    ensures Sat(Pairs(s), a) <==> OneFalseAtMost(s, a)
  {
    if s != [] {
      var init := s[..|s| - 1];
      var last := s[|s| - 1];
      var row := seq(|s| - 1, p requires 0 <= p < |s| - 1 => [s[p], last]);
      PairsMeaning(init, a);
      SatAppend(Pairs(init), row, a);
      assert forall p :: 0 <= p < |init| ==> s[p] == init[p];
      forall p | 0 <= p < |row| ensures CountTrue(row[p], a) >= 1 <==> LitTrue(a, s[p]) || LitTrue(a, last) {
        CountTwo(s[p], last, a);
      }
      if OneFalseAtMost(s, a) {
        assert OneFalseAtMost(init, a) by {
          forall p, q | 0 <= p < q < |init| ensures LitTrue(a, init[p]) || LitTrue(a, init[q]) {
            assert LitTrue(a, s[p]) || LitTrue(a, s[q]);
          }
        }
        forall p | 0 <= p < |row| ensures CountTrue(row[p], a) >= 1 {
          OneFalseAt(s, a, p, |s| - 1);
        }
      }
      if Sat(Pairs(s), a) {
        forall p, q | 0 <= p < q < |s| ensures LitTrue(a, s[p]) || LitTrue(a, s[q]) {
          if q < |s| - 1 {
            assert LitTrue(a, init[p]) || LitTrue(a, init[q]);
          } else {
            assert CountTrue(row[p], a) >= 1;
          }
        }
      }
    }
  }

  /** The guarded clauses hold iff the guard does or every literal does. */
  lemma GuardedMeaning(g: int, xs: seq<int>, a: Assignment)
    ensures Sat(Guarded(g, xs), a) <==> LitTrue(a, g) || forall t :: 0 <= t < |xs| ==> LitTrue(a, xs[t])
  {
    var cs := Guarded(g, xs);
    forall t | 0 <= t < |xs| ensures CountTrue(cs[t], a) >= 1 <==> LitTrue(a, g) || LitTrue(a, xs[t]) {
      CountTwo(g, xs[t], a);
    }
  }

  /** The split encoding is sound: if its clauses hold, all literals but at most one do. */
  lemma {:induction false} AllButOneSound(s: seq<int>, aux: int, a: Assignment)
    requires aux > 0
    requires Sat(AllButOne(s, aux), a)
    ensures AtLeast(s, |s| - 1, a)
    decreases |s|
  {
    OneFalseCount(s, a);
    if |s| <= 4 {
      PairsMeaning(s, a);
    } else {
      var head := s[..3];
      var t := s[3..] + [-aux];
      SatAppend(Pairs(head) + Guarded(aux, head), AllButOne(t, aux + 1), a);
      SatAppend(Pairs(head), Guarded(aux, head), a);
      PairsMeaning(head, a);
      GuardedMeaning(aux, head, a);
      AllButOneSound(t, aux + 1, a);
      OneFalseCount(t, a);
      forall p, q | 0 <= p < q < |s| ensures LitTrue(a, s[p]) || LitTrue(a, s[q]) {
        if q < 3 {
          assert LitTrue(a, head[p]) || LitTrue(a, head[q]);
        } else if p < 3 {
          if !LitTrue(a, s[p]) {
            assert !LitTrue(a, head[p]);
            assert LitTrue(a, aux);
            OneFalseAt(t, a, q - 3, |t| - 1);
          }
        } else {
          assert LitTrue(a, t[p - 3]) || LitTrue(a, t[q - 3]);
        }
      }
    }
  }

  /**
   * The values the fresh variables take in a model of the split encoding: each `aux` is
   * false exactly when the three literals it stands for are all true.
   */
  function Extend(s: seq<int>, aux: int, a: Assignment): Assignment
    decreases |s|
  {
    if |s| <= 4 then a
    else
      var a' := if LitTrue(a, s[0]) && LitTrue(a, s[1]) && LitTrue(a, s[2]) then a - {aux} else a + {aux};
      Extend(s[3..] + [-aux], aux + 1, a')
  }

  /** Extend changes only fresh variables, from `aux` on. */
  lemma {:induction false} ExtendAgrees(s: seq<int>, aux: int, a: Assignment)
    ensures Agree(a, Extend(s, aux, a), aux)
    decreases |s|
  {
    if |s| > 4 {
      var a' := if LitTrue(a, s[0]) && LitTrue(a, s[1]) && LitTrue(a, s[2]) then a - {aux} else a + {aux};
      ExtendAgrees(s[3..] + [-aux], aux + 1, a');
    }
  }

  /** Extend keeps the value it gave `aux` itself. */
  lemma ExtendKeeps(s: seq<int>, aux: int, a: Assignment)
    requires |s| > 4 && aux > 0
    ensures var a' := if LitTrue(a, s[0]) && LitTrue(a, s[1]) && LitTrue(a, s[2]) then a - {aux} else a + {aux};
      aux in Extend(s, aux, a) <==> aux in a'
  {
    var a' := if LitTrue(a, s[0]) && LitTrue(a, s[1]) && LitTrue(a, s[2]) then a - {aux} else a + {aux};
    ExtendAgrees(s[3..] + [-aux], aux + 1, a');
  }

  /**
   * The split encoding is complete: when all literals but at most one hold, the fresh
   * variables can be set so that every clause holds, without touching the literals' variables.
   */
  lemma {:induction false} AllButOneComplete(s: seq<int>, aux: int, a: Assignment)
    requires Below(s, aux)
    requires AtLeast(s, |s| - 1, a)
    ensures Sat(AllButOne(s, aux), Extend(s, aux, a))
    ensures Agree(a, Extend(s, aux, a), aux)
    decreases |s|
  {
    var b := Extend(s, aux, a);
    ExtendAgrees(s, aux, a);
    AgreeLits(s, a, b, aux);
    OneFalseCount(s, a);
    if |s| <= 4 {
      PairsMeaning(s, b);
    } else {
      var head := s[..3];
      var t := s[3..] + [-aux];
      var a' := if LitTrue(a, s[0]) && LitTrue(a, s[1]) && LitTrue(a, s[2]) then a - {aux} else a + {aux};
      assert b == Extend(t, aux + 1, a');
      assert Below(t, aux + 1) by {
        forall i | 0 <= i < |t| ensures 0 < Abs(t[i]) < aux + 1 {
          if i < |t| - 1 { assert t[i] == s[i + 3]; }
        }
      }
      assert Agree(a, a', aux);
      AgreeLits(s, a, a', aux);
      assert OneFalseAtMost(t, a') by {
        forall p, q | 0 <= p < q < |t| ensures LitTrue(a', t[p]) || LitTrue(a', t[q]) {
          if q < |t| - 1 {
            assert t[p] == s[p + 3] && t[q] == s[q + 3];
            assert LitTrue(a, s[p + 3]) || LitTrue(a, s[q + 3]);
          } else {
            assert t[p] == s[p + 3];
            if !LitTrue(a', t[q]) {
              assert aux in a';
              assert !LitTrue(a, s[0]) || !LitTrue(a, s[1]) || !LitTrue(a, s[2]);
              assert LitTrue(a, s[p + 3]) by {
                if !LitTrue(a, s[0]) { assert LitTrue(a, s[0]) || LitTrue(a, s[p + 3]); }
                else if !LitTrue(a, s[1]) { assert LitTrue(a, s[1]) || LitTrue(a, s[p + 3]); }
                else { assert LitTrue(a, s[2]) || LitTrue(a, s[p + 3]); }
              }
            }
          }
        }
      }
      OneFalseCount(t, a');
      AllButOneComplete(t, aux + 1, a');
      assert 0 < Abs(s[0]) < aux;
      ExtendKeeps(s, aux, a);
      assert OneFalseAtMost(head, b) by {
        forall p, q | 0 <= p < q < 3 ensures LitTrue(b, head[p]) || LitTrue(b, head[q]) {
          assert LitTrue(b, s[p]) || LitTrue(b, s[q]);
        }
      }
      PairsMeaning(head, b);
      GuardedMeaning(aux, head, b);
      assert LitTrue(b, aux) || forall i :: 0 <= i < 3 ==> LitTrue(b, head[i]);
      SatAppend(Pairs(head), Guarded(aux, head), b);
      SatAppend(Pairs(head) + Guarded(aux, head), AllButOne(t, aux + 1), b);
    }
  }

  /** The delete lines of derivation hold under the completing assignment as well. */
  lemma {:induction false} DerivationsHold(s: seq<int>, aux: int, a: Assignment)
    requires Below(s, aux)
    ensures Sat(Derivations(s, aux), Extend(s, aux, a))
    decreases |s|
  {
    if |s| > 4 {
      var t := s[3..] + [-aux];
      var a' := if LitTrue(a, s[0]) && LitTrue(a, s[1]) && LitTrue(a, s[2]) then a - {aux} else a + {aux};
      var b := Extend(s, aux, a);
      assert Below(t, aux + 1) by {
        forall i | 0 <= i < |t| ensures 0 < Abs(t[i]) < aux + 1 {
          if i < |t| - 1 { assert t[i] == s[i + 3]; }
        }
      }
      DerivationsHold(t, aux + 1, a');
      ExtendAgrees(s, aux, a);
      AgreeLits(s, a, b, aux);
      assert 0 < Abs(s[0]) < aux;
      ExtendKeeps(s, aux, a);
      var line := [-aux, -s[0], -s[1], -s[2]];
      assert LitTrue(b, line[0]) || LitTrue(b, line[1]) || LitTrue(b, line[2]) || LitTrue(b, line[3]);
      CountTruePositive(line, b);
      SatAppend([line], Derivations(t, aux + 1), b);
    }
  }

  /** The split encoding over s (three or more literals) has 3(|s| - 2) clauses. */
  lemma {:induction false} AllButOneSize(s: seq<int>, aux: int)
    requires |s| >= 3
    ensures |AllButOne(s, aux)| == 3 * (|s| - 2)
    decreases |s|
  {
    if |s| <= 4 {
      PairsSize(s);
    } else {
      PairsSize(s[..3]);
      AllButOneSize(s[3..] + [-aux], aux + 1);
    }
  }

  lemma {:induction false} PairsSize(s: seq<int>)
    ensures 2 * |Pairs(s)| == |s| * (|s| - 1)
  {
    if s != [] {
      PairsSize(s[..|s| - 1]);
    }
  }

  /** derivation prints one line per fresh variable of the split encoding. */
  lemma {:induction false} DerivationsSize(s: seq<int>, aux: int)
    ensures |Derivations(s, aux)| == AuxSteps(|s|)
    decreases |s|
  {
    if |s| > 4 {
      DerivationsSize(s[3..] + [-aux], aux + 1);
    }
  }

  // ---------------------------------------------------------------------------
  // The printing procedures.

  /** atleastone: the clause itself. */
  method AtLeastOne(a: array<int>, size: int) returns (out: seq<seq<int>>)
    requires 0 <= size <= a.Length
    ensures out == [a[..size]]
  {
    var line := [];
    var i := 0;
    while i < size
      invariant 0 <= i <= size
      invariant line == a[..i]
    {
      line := line + [a[i]];
      i := i + 1;
    }
    out := [line];
  }

  /** atleasttwo: for i from the last literal down, the clause without literal i. */
  method AtLeastTwo(a: array<int>, size: int) returns (out: seq<seq<int>>)
    requires 0 <= size <= a.Length
    ensures out == TwoClauses(a[..size])
  {
    ghost var s := a[..size];
    out := [];
    var i := size - 1;
    while i >= 0
      invariant -1 <= i < size
      invariant |out| == size - 1 - i
      invariant forall t :: 0 <= t < |out| ==> out[t] == Omit(s, size - 1 - t)
    {
      var line := [];
      var j := 0;
      while j < size
        invariant 0 <= j <= size
        invariant j <= i ==> line == s[..j]
        invariant j > i ==> line == s[..i] + s[i + 1..j]
      {
        if j != i {
          line := line + [a[j]];
          if j > i {
            assert s[i + 1..j + 1] == s[i + 1..j] + [s[j]];
          }
        } else {
          assert s[i + 1..j + 1] == [];
        }
        j := j + 1;
      }
      out := out + [line];
      i := i - 1;
    }
  }

  /** atleastall: a unit clause per literal. */
  method AtLeastAll(a: array<int>, size: int) returns (out: seq<seq<int>>)
    requires 0 <= size <= a.Length
    ensures out == UnitClauses(a[..size])
  {
    out := [];
    var i := 0;
    while i < size
      invariant 0 <= i <= size
      invariant |out| == i && forall t :: 0 <= t < i ==> out[t] == [a[t]]
    {
      out := out + [[a[i]]];
      i := i + 1;
    }
  }

  /** The in-place rewrite of the array: the literals after the first three, then -aux. */
  method ShiftOut(a: array<int>, size: int, aux: int)
    requires 5 <= size <= a.Length
    modifies a
    ensures a[..size - 2] == old(a[3..size]) + [-aux]
  {
    ghost var s := a[..size];
    var i := 0;
    while i < size - 3
      invariant 0 <= i <= size - 3
      invariant forall t :: 0 <= t < i ==> a[t] == s[t + 3]
      invariant forall t :: i <= t < size ==> a[t] == s[t]
    {
      a[i] := a[i + 3];
      i := i + 1;
    }
    a[size - 3] := -aux;
  }

  /** atleastallbutone (default build): the split encoding, threading the next fresh variable. */
  method AtLeastAllButOne(a: array<int>, size: int, aux: int) returns (out: seq<seq<int>>, next: int)
    requires 0 <= size <= a.Length
    modifies a
    ensures out == AllButOne(old(a[..size]), aux)
    ensures next == aux + AuxSteps(size)
    decreases size
  {
    ghost var s := a[..size];
    out := [];
    if size > 1 {
      out := out + [[a[0], a[1]]];
    }
    if size > 2 {
      out := out + [[a[0], a[2]], [a[1], a[2]]];
    }
    if size <= 3 {
      if size <= 1 { PairsSmall(s); }
      else if size == 2 { PairsTwo(s); }
      else { PairsThree(s); }
      return out, aux;
    }
    if size == 4 {
      out := out + [[a[0], a[3]], [a[1], a[3]], [a[2], a[3]]];
      PairsFour(s);
      return out, aux;
    }
    out := out + [[aux, a[0]], [aux, a[1]], [aux, a[2]]];
    PairsThree(s[..3]);
    assert out == Pairs(s[..3]) + Guarded(aux, s[..3]);
    ShiftOut(a, size, aux);
    var rest;
    rest, next := AtLeastAllButOne(a, size - 2, aux + 1);
    out := out + rest;
  }

  /** The pairwise clauses of up to four literals, written out in the order atleastallbutone prints them. */
  lemma PairsSmall(s: seq<int>)
    requires |s| <= 1
    ensures Pairs(s) == []
  {
    if |s| == 1 {
      assert Pairs(s) == Pairs([]) + [];
    }
  }

  lemma PairsFour(s: seq<int>)
    requires |s| == 4
    ensures Pairs(s) == [[s[0], s[1]], [s[0], s[2]], [s[1], s[2]], [s[0], s[3]], [s[1], s[3]], [s[2], s[3]]]
  {
    PairsThree(s[..3]);
    var row := seq(3, p requires 0 <= p < 3 => [s[p], s[3]]);
    assert row == [[s[0], s[3]], [s[1], s[3]], [s[2], s[3]]];
    assert Pairs(s) == Pairs(s[..3]) + row;
  }

  lemma PairsTwo(s: seq<int>)
    requires |s| == 2
    ensures Pairs(s) == [[s[0], s[1]]]
  {
    assert Pairs(s[..1]) == Pairs([]) + [];
    var row := seq(1, p requires 0 <= p < 1 => [s[p], s[1]]);
    assert row == [[s[0], s[1]]];
    assert Pairs(s) == Pairs(s[..1]) + row;
  }

  lemma PairsThree(s: seq<int>)
    requires |s| == 3
    ensures Pairs(s) == [[s[0], s[1]], [s[0], s[2]], [s[1], s[2]]]
  {
    PairsTwo(s[..2]);
    var row := seq(2, p requires 0 <= p < 2 => [s[p], s[2]]);
    assert row == [[s[0], s[2]], [s[1], s[2]]];
    assert Pairs(s) == Pairs(s[..2]) + row;
  }

  /** derivation: one delete line per step of the split encoding's recursion. */
  method Derivation(a: array<int>, size: int, aux: int) returns (out: seq<seq<int>>, next: int)
    requires 0 <= size <= a.Length
    modifies a
    ensures out == Derivations(old(a[..size]), aux)
    ensures next == aux + AuxSteps(size)
    decreases size
  {
    if size <= 4 {
      return [], aux;
    }
    out := [[-aux, -a[0], -a[1], -a[2]]];
    ShiftOut(a, size, aux);
    var rest;
    rest, next := Derivation(a, size - 2, aux + 1);
    out := out + rest;
  }

  // ---------------------------------------------------------------------------
  // Every other bound: the sequential counter of atleastk.

  /** The counter variable in row i, column j of atleastk's grid, where w = size - bound. */
  function Cell(w: int, start: int, i: int, j: int): int
  {
    start + (w - 1) * i + j
  }

  /** A row of the grid has w + 1 columns (none when the bound exceeds the size). */
  function RowLength(w: int): nat
  {
    if w >= 0 then w + 1 else 0
  }

  /** The clause atleastk prints for row i, column j: literal j, unless the counter moved in from the left, or not up to here. */
  function RowClause(s: seq<int>, bound: int, start: int, i: int, j: int): seq<int>
    requires 0 <= j < |s|
  {
    var w := |s| - bound;
    [s[j]] + (if j > i then [Cell(w, start, i, j - 1)] else []) + (if j + 1 <= w + i then [-Cell(w, start, i, j)] else [])
  }

  /** Row i of the horizontal and increment implications: columns i .. i + w. */
  function Row(s: seq<int>, bound: int, start: int, i: int): seq<seq<int>>
    requires 0 <= i < bound
  {
    var w := |s| - bound;
    seq(RowLength(w), t requires 0 <= t < RowLength(w) => RowClause(s, bound, start, i, i + t))
  }

  function Rows(s: seq<int>, bound: int, start: int, m: int): seq<seq<int>>
    requires 0 <= m <= (if bound > 0 then bound else 0)
  {
    if m == 0 then [] else Rows(s, bound, start, m - 1) + Row(s, bound, start, m - 1)
  }

  /** The diagonal implication from row i + 1 to row i. */
  function DiagClause(w: int, start: int, i: int, j: int): seq<int>
  {
    [Cell(w, start, i, j), -Cell(w, start, i + 1, j + 1)]
  }

  function Diag(w: int, start: int, i: int): seq<seq<int>>
  {
    var n := if w >= 0 then w else 0;
    seq(n, t requires 0 <= t < n => DiagClause(w, start, i, i + t))
  }

  function Diags(w: int, start: int, m: nat): seq<seq<int>>
  {
    if m == 0 then [] else Diags(w, start, m - 1) + Diag(w, start, m - 1)
  }

  /** atleastk's output: the rows of the grid, then the diagonals between consecutive rows. */
  function CounterClauses(s: seq<int>, bound: int, start: int): seq<seq<int>>
  {
    Rows(s, bound, start, if bound > 0 then bound else 0)
      + Diags(|s| - bound, start, if bound > 1 then bound - 1 else 0)
  }

  /** atleastk: the sequential counter over the first `size` literals, fresh variables from `start`. */
  method AtLeastK(a: array<int>, size: int, bound: int, start: int) returns (out: seq<seq<int>>, next: int)
    requires 0 <= size <= a.Length
    ensures out == CounterClauses(a[..size], bound, start)
    ensures next == start + (size - bound) * bound
  {
    ghost var s := a[..size];
    ghost var w := size - bound;
    out := [];
    var i := 0;
    while i < bound
      invariant 0 <= i <= (if bound > 0 then bound else 0)
      invariant out == Rows(s, bound, start, i)
    {
      ghost var base := out;
      var j := i;
      while j <= size - bound + i
        invariant i <= j <= i + RowLength(w)
        invariant out == base + Row(s, bound, start, i)[..j - i]
      {
        var line := [a[j]];
        if j > i {
          line := line + [start + (size - bound - 1) * i + j - 1];
        }
        if j + 1 <= size - bound + i {
          line := line + [-(start + (size - bound - 1) * i + j)];
        }
        assert line == RowClause(s, bound, start, i, j);
        assert Row(s, bound, start, i)[..j + 1 - i] == Row(s, bound, start, i)[..j - i] + [line];
        out := out + [line];
        j := j + 1;
      }
      assert Row(s, bound, start, i)[..j - i] == Row(s, bound, start, i);
      i := i + 1;
    }
    ghost var rows := out;
    i := 0;
    while i < bound - 1
      invariant 0 <= i <= (if bound > 1 then bound - 1 else 0)
      invariant out == rows + Diags(w, start, i)
    {
      ghost var base := out;
      var j := i;
      while j < size - bound + i
        invariant i <= j <= i + (if w >= 0 then w else 0)
        invariant out == base + Diag(w, start, i)[..j - i]
      {
        var line := [start + (size - bound - 1) * i + j, -(start + (size - bound - 1) * (i + 1) + j + 1)];
        assert line == DiagClause(w, start, i, j);
        assert Diag(w, start, i)[..j + 1 - i] == Diag(w, start, i)[..j - i] + [line];
        out := out + [line];
        j := j + 1;
      }
      assert Diag(w, start, i)[..j - i] == Diag(w, start, i);
      i := i + 1;
    }
    next := start + (size - bound) * bound;
  }

  lemma {:induction false} RowsSize(s: seq<int>, bound: int, start: int, m: int)
    requires 0 <= m <= bound <= |s|
    ensures |Rows(s, bound, start, m)| == m * (|s| - bound + 1)
  {
    if m > 0 {
      RowsSize(s, bound, start, m - 1);
    }
  }

  lemma {:induction false} DiagsSize(w: int, start: int, m: nat)
    requires w >= 0
    ensures |Diags(w, start, m)| == m * w
  {
    if m > 0 {
      DiagsSize(w, start, m - 1);
    }
  }

  /** atleastk prints bound(size - bound + 1) + (bound - 1)(size - bound) clauses. */
  lemma CounterSize(s: seq<int>, bound: int, start: int)
    requires 1 <= bound <= |s|
    ensures |CounterClauses(s, bound, start)| == (|s| - bound + 1) * bound + (|s| - bound) * (bound - 1)
  {
    RowsSize(s, bound, start, bound);
    DiagsSize(|s| - bound, start, bound - 1);
  }

  // ---------------------------------------------------------------------------
  // What the sequential counter means. With w = size - bound, counter cell (i, j), for
  // i <= j < i + w, stands for "at least i + 1 of the first j + 1 literals are true".

  /** Every row clause of rows 0..m-1 holds. */
  predicate RowsHold(s: seq<int>, bound: int, start: int, m: int, b: Assignment)
  {
    forall i, j :: 0 <= i < m && i <= j <= i + (|s| - bound) && j < |s| ==> CountTrue(RowClause(s, bound, start, i, j), b) >= 1
  }

  /** Every diagonal clause of diagonals 0..m-1 holds. */
  predicate DiagsHold(w: int, start: int, m: int, b: Assignment)
  {
    forall i, j :: 0 <= i < m && i <= j < i + w ==> CountTrue(DiagClause(w, start, i, j), b) >= 1
  }

  lemma {:induction false} RowsSat(s: seq<int>, bound: int, start: int, m: int, b: Assignment)
    requires 0 <= m <= bound <= |s|
    ensures Sat(Rows(s, bound, start, m), b) <==> RowsHold(s, bound, start, m, b)
  {
    if m > 0 {
      RowsSat(s, bound, start, m - 1, b);
      SatAppend(Rows(s, bound, start, m - 1), Row(s, bound, start, m - 1), b);
      RowSat(s, bound, start, m - 1, b);
    }
  }

  lemma RowSat(s: seq<int>, bound: int, start: int, r: int, b: Assignment)
    requires 0 <= r < bound <= |s|
    ensures Sat(Row(s, bound, start, r), b) <==>
      forall j :: r <= j <= r + (|s| - bound) ==> CountTrue(RowClause(s, bound, start, r, j), b) >= 1
  {
    var row, w := Row(s, bound, start, r), |s| - bound;
    if Sat(row, b) {
      forall j | r <= j <= r + w ensures CountTrue(RowClause(s, bound, start, r, j), b) >= 1 {
        assert row[j - r] == RowClause(s, bound, start, r, j);
      }
    }
    if forall j :: r <= j <= r + w ==> CountTrue(RowClause(s, bound, start, r, j), b) >= 1 {
      forall t | 0 <= t < |row| ensures CountTrue(row[t], b) >= 1 {
        assert row[t] == RowClause(s, bound, start, r, r + t);
      }
    }
  }

  lemma {:induction false} DiagsSat(w: int, start: int, m: nat, b: Assignment)
    requires w >= 0
    ensures Sat(Diags(w, start, m), b) <==> DiagsHold(w, start, m, b)
  {
    if m > 0 {
      DiagsSat(w, start, m - 1, b);
      var diag := Diag(w, start, m - 1);
      SatAppend(Diags(w, start, m - 1), diag, b);
      var r := m - 1;
      if Sat(diag, b) {
        forall j | r <= j < r + w ensures CountTrue(DiagClause(w, start, r, j), b) >= 1 {
          assert diag[j - r] == DiagClause(w, start, r, j);
        }
      }
      if DiagsHold(w, start, m, b) {
        forall t | 0 <= t < |diag| ensures CountTrue(diag[t], b) >= 1 {
          assert diag[t] == DiagClause(w, start, m - 1, m - 1 + t);
        }
      }
    }
  }

  /** The counter's clauses are its row clauses and its diagonal clauses. */
  lemma CounterSat(s: seq<int>, bound: int, start: int, b: Assignment)
    requires 1 <= bound <= |s|
    ensures Sat(CounterClauses(s, bound, start), b) <==>
      RowsHold(s, bound, start, bound, b) && DiagsHold(|s| - bound, start, bound - 1, b)
  {
    RowsSat(s, bound, start, bound, b);
    DiagsSat(|s| - bound, start, bound - 1, b);
    SatAppend(Rows(s, bound, start, bound), Diags(|s| - bound, start, bound - 1), b);
  }

  /** Cells lie from start on. */
  lemma CellLow(w: int, start: int, i: int, j: int)
    requires w >= 1 && 0 <= i && i <= j < i + w
    ensures Cell(w, start, i, j) == start + w * i + (j - i) >= start
  {
  }

  /** Distinct cells are distinct variables. */
  lemma CellInjective(w: int, start: int, i: int, j: int, i': int, j': int)
    requires w >= 1 && 0 <= i && i <= j < i + w && 0 <= i' && i' <= j' < i' + w
    requires Cell(w, start, i, j) == Cell(w, start, i', j')
    ensures i == i' && j == j'
  {
    CellLow(w, start, i, j);
    CellLow(w, start, i', j');
    if i < i' {
      ScaleMono(w, i + 1, i');
    } else if i' < i {
      ScaleMono(w, i' + 1, i);
    }
  }

  /** A larger multiplier gives a larger multiple. */
  lemma {:induction false} ScaleMono(w: nat, x: nat, y: nat)
    requires x <= y
    ensures w * x + w * (y - x) == w * y && w * x <= w * y
    decreases y - x
  {
    if x < y {
      ScaleMono(w, x, y - 1);
    }
  }

  /** A row clause: its literal, or the cell to its left, or not its own cell. */
  lemma RowClauseMeaning(s: seq<int>, bound: int, start: int, i: int, j: int, b: Assignment)
    requires 0 <= j < |s| && 0 <= i <= j && start >= 1 && |s| - bound >= 1 && j <= i + (|s| - bound)
    ensures var w := |s| - bound;
      CountTrue(RowClause(s, bound, start, i, j), b) >= 1 <==>
        LitTrue(b, s[j]) || (j > i && Cell(w, start, i, j - 1) in b) || (j + 1 <= w + i && Cell(w, start, i, j) !in b)
  {
    var w := |s| - bound;
    var left := if j > i then [Cell(w, start, i, j - 1)] else [];
    var own := if j + 1 <= w + i then [-Cell(w, start, i, j)] else [];
    if j > i { CellLow(w, start, i, j - 1); CountOne(Cell(w, start, i, j - 1), b); }
    if j + 1 <= w + i { CellLow(w, start, i, j); CountOne(-Cell(w, start, i, j), b); }
    CountTrueAppend([s[j]] + left, own, b);
    CountTrueAppend([s[j]], left, b);
    CountOne(s[j], b);
  }

  /** A diagonal clause: the cell, or not the cell diagonally below it. */
  lemma DiagClauseMeaning(w: int, start: int, i: int, j: int, b: Assignment)
    requires w >= 1 && start >= 1 && 0 <= i && i <= j < i + w
    ensures CountTrue(DiagClause(w, start, i, j), b) >= 1 <==> Cell(w, start, i, j) in b || Cell(w, start, i + 1, j + 1) !in b
  {
    CellLow(w, start, i, j);
    CellLow(w, start, i + 1, j + 1);
    CountTwo(Cell(w, start, i, j), -Cell(w, start, i + 1, j + 1), b);
  }

  /** One more literal counts one more when it is true. */
  lemma CountPrefix(s: seq<int>, j: int, a: Assignment)
    requires 0 <= j < |s|
    ensures CountTrue(s[..j + 1], a) == CountTrue(s[..j], a) + (if LitTrue(a, s[j]) then 1 else 0)
  {
    assert s[..j + 1][..j] == s[..j];
  }

  /** Under the counter's clauses, a true cell (i, j) means at least i + 1 of s[..j + 1] are true. */
  lemma {:induction false} CellSound(s: seq<int>, bound: int, start: int, i: int, j: int, b: Assignment)
    requires 1 <= bound < |s| && start >= 1
    requires RowsHold(s, bound, start, bound, b) && DiagsHold(|s| - bound, start, bound - 1, b)
    requires 0 <= i < bound && i <= j < i + (|s| - bound)
    requires Cell(|s| - bound, start, i, j) in b
    ensures CountTrue(s[..j + 1], b) >= i + 1
    decreases i, j
  {
    var w := |s| - bound;
    RowClauseMeaning(s, bound, start, i, j, b);
    CountPrefix(s, j, b);
    if j > i && Cell(w, start, i, j - 1) in b {
      CellSound(s, bound, start, i, j - 1, b);
    } else if i > 0 {
      DiagClauseMeaning(w, start, i - 1, j - 1, b);
      CellSound(s, bound, start, i - 1, j - 1, b);
    }
  }

  /** Under the counter's clauses, at least i + 1 of the first i + w + 1 literals are true. */
  lemma {:induction false} RowSound(s: seq<int>, bound: int, start: int, i: int, b: Assignment)
    requires 1 <= bound < |s| && start >= 1
    requires RowsHold(s, bound, start, bound, b) && DiagsHold(|s| - bound, start, bound - 1, b)
    requires 0 <= i < bound
    ensures CountTrue(s[..i + (|s| - bound) + 1], b) >= i + 1
    decreases i
  {
    var w := |s| - bound;
    var j := i + w;
    RowClauseMeaning(s, bound, start, i, j, b);
    CountPrefix(s, j, b);
    if Cell(w, start, i, j - 1) in b {
      CellSound(s, bound, start, i, j - 1, b);
    } else if i > 0 {
      RowSound(s, bound, start, i - 1, b);
    }
  }

  /** The sequential counter is sound: where its clauses hold, at least bound literals are true. */
  lemma CounterSound(s: seq<int>, bound: int, start: int, b: Assignment)
    requires 1 <= bound < |s| && start >= 1
    requires Sat(CounterClauses(s, bound, start), b)
    ensures AtLeast(s, bound, b)
  {
    CounterSat(s, bound, start, b);
    RowSound(s, bound, start, bound - 1, b);
    assert s[..|s|] == s;
  }

  /** The values of the counter cells in a model of the klause: cell (i, j) exactly when i + 1 of s[..j + 1] hold. */
  function CounterModel(s: seq<int>, bound: int, start: int, a: Assignment): Assignment
  {
    var w := |s| - bound;
    (set v | v in a && v < start) +
      (set i, j | 0 <= i < bound && i <= j < i + w && j < |s| && CountTrue(s[..j + 1], a) >= i + 1 :: Cell(w, start, i, j))
  }

  /** CounterModel keeps every variable below start, and sets cell (i, j) exactly as it stands for. */
  lemma CounterModelCell(s: seq<int>, bound: int, start: int, a: Assignment, i: int, j: int)
    requires 1 <= bound < |s| && 0 <= i < bound && i <= j < i + (|s| - bound)
    ensures Cell(|s| - bound, start, i, j) in CounterModel(s, bound, start, a) <==> CountTrue(s[..j + 1], a) >= i + 1
  {
    var w := |s| - bound;
    var c := Cell(w, start, i, j);
    CellLow(w, start, i, j);
    if c in CounterModel(s, bound, start, a) && c !in (set v | v in a && v < start) {
      var i', j' :| 0 <= i' < bound && i' <= j' < i' + w && j' < |s| && CountTrue(s[..j' + 1], a) >= i' + 1 && Cell(w, start, i', j') == c;
      CellInjective(w, start, i, j, i', j');
    }
  }

  lemma CounterModelAgrees(s: seq<int>, bound: int, start: int, a: Assignment)
    requires 1 <= bound < |s|
    ensures Agree(a, CounterModel(s, bound, start, a), start)
  {
    var w := |s| - bound;
    forall v | 0 < v < start && v in CounterModel(s, bound, start, a) ensures v in a {
      if v !in (set v | v in a && v < start) {
        var i, j :| 0 <= i < bound && i <= j < i + w && j < |s| && CountTrue(s[..j + 1], a) >= i + 1 && Cell(w, start, i, j) == v;
        CellLow(w, start, i, j);
      }
    }
  }

  /**
   * The sequential counter is complete: when at least bound literals are true, the counter
   * cells can be set so that every clause holds, without touching the literals' variables.
   */
  lemma CounterComplete(s: seq<int>, bound: int, start: int, a: Assignment)
    requires 1 <= bound < |s| && Below(s, start)
    requires AtLeast(s, bound, a)
    ensures Agree(a, CounterModel(s, bound, start, a), start)
    ensures Sat(CounterClauses(s, bound, start), CounterModel(s, bound, start, a))
  {
    var w, b := |s| - bound, CounterModel(s, bound, start, a);
    CounterModelAgrees(s, bound, start, a);
    forall i, j | 0 <= i < bound && i <= j <= i + w && j < |s|
      ensures CountTrue(RowClause(s, bound, start, i, j), b) >= 1
    {
      RowComplete(s, bound, start, a, i, j);
    }
    forall i, j | 0 <= i < bound - 1 && i <= j < i + w
      ensures CountTrue(DiagClause(w, start, i, j), b) >= 1
    {
      DiagComplete(s, bound, start, a, i, j);
    }
    CounterSat(s, bound, start, b);
  }

  /** Row clause (i, j) holds under CounterModel when at least bound literals are true. */
  lemma RowComplete(s: seq<int>, bound: int, start: int, a: Assignment, i: int, j: int)
    requires 1 <= bound < |s| && Below(s, start) && AtLeast(s, bound, a)
    requires 0 <= i < bound && i <= j <= i + (|s| - bound) && j < |s|
    ensures CountTrue(RowClause(s, bound, start, i, j), CounterModel(s, bound, start, a)) >= 1
  {
    var w := |s| - bound;
    var b := CounterModel(s, bound, start, a);
    assert start >= 1 by { assert 0 < Abs(s[0]) < start; }
    CounterModelAgrees(s, bound, start, a);
    AgreeLits(s, a, b, start);
    if j < i + w {
      CounterModelCell(s, bound, start, a, i, j);
    }
    if j > i {
      CounterModelCell(s, bound, start, a, i, j - 1);
    }
    RowCompleteWith(s, bound, start, a, b, i, j);
  }

  /** Row clause (i, j) holds under any b that keeps the literal and sets cells (i, j - 1), (i, j) as counted. */
  lemma RowCompleteWith(s: seq<int>, bound: int, start: int, a: Assignment, b: Assignment, i: int, j: int)
    requires 1 <= bound < |s| && start >= 1 && AtLeast(s, bound, a)
    requires 0 <= i < bound && i <= j <= i + (|s| - bound) && j < |s|
    requires LitTrue(a, s[j]) <==> LitTrue(b, s[j])
    requires j < i + (|s| - bound) ==> (Cell(|s| - bound, start, i, j) in b <==> CountTrue(s[..j + 1], a) >= i + 1)
    requires j > i ==> (Cell(|s| - bound, start, i, j - 1) in b <==> CountTrue(s[..j], a) >= i + 1)
    ensures CountTrue(RowClause(s, bound, start, i, j), b) >= 1
  {
    RowClauseMeaning(s, bound, start, i, j, b);
    CountPrefix(s, j, a);
    if j == i + (|s| - bound) {
      CountTrueAppend(s[..j + 1], s[j + 1..], a);
      assert s[..j + 1] + s[j + 1..] == s;
      CountTrueBound(s[j + 1..], a);
    }
    if j == i {
      CountTrueBound(s[..j], a);
    }
  }

  /** Diagonal clause (i, j) holds under CounterModel. */
  lemma DiagComplete(s: seq<int>, bound: int, start: int, a: Assignment, i: int, j: int)
    requires 1 <= bound < |s| && Below(s, start)
    requires 0 <= i < bound - 1 && i <= j < i + (|s| - bound)
    ensures CountTrue(DiagClause(|s| - bound, start, i, j), CounterModel(s, bound, start, a)) >= 1
  {
    var w := |s| - bound;
    assert start >= 1 by { assert 0 < Abs(s[0]) < start; }
    DiagClauseMeaning(w, start, i, j, CounterModel(s, bound, start, a));
    CounterModelCell(s, bound, start, a, i, j);
    CounterModelCell(s, bound, start, a, i + 1, j + 1);
    CountPrefix(s, j + 1, a);
  }

  /** Every literal is a literal of the klause or a counter variable in [lo, hi). */
  predicate Confined(c: seq<int>, s: seq<int>, lo: int, hi: int)
  {
    forall l :: l in c ==> l in s || lo <= Abs(l) < hi
  }

  /** The counter variable at row r, offset t lies in [start, start + w * bound). */
  lemma CellRange(w: int, start: int, r: int, t: int, bound: int)
    requires 0 <= r < bound && 0 <= t < w
    ensures start <= start + w * r + t < start + w * bound
  {
    MulMono(0, r, w);
    MulMono(r + 1, bound, w);
    assert w * (r + 1) == w * r + w;
  }

  lemma RowConfined(s: seq<int>, bound: int, start: int, i: int)
    requires start >= 1 && 0 <= i < bound <= |s|
    ensures forall t :: 0 <= t < |Row(s, bound, start, i)| ==>
      Confined(Row(s, bound, start, i)[t], s, start, start + (|s| - bound) * bound)
  {
    var w := |s| - bound;
    forall t | 0 <= t < |Row(s, bound, start, i)|
      ensures Confined(Row(s, bound, start, i)[t], s, start, start + w * bound)
    {
      var j := i + t;
      var c := RowClause(s, bound, start, i, j);
      assert c == Row(s, bound, start, i)[t];
      if j > i {
        CellRange(w, start, i, j - 1 - i, bound);
        assert Cell(w, start, i, j - 1) == start + w * i + (j - 1 - i);
      }
      if j + 1 <= w + i {
        CellRange(w, start, i, j - i, bound);
        assert Cell(w, start, i, j) == start + w * i + (j - i);
      }
      forall l | l in c ensures l in s || start <= Abs(l) < start + w * bound {
        assert l == s[j] || (j > i && l == Cell(w, start, i, j - 1)) || (j + 1 <= w + i && l == -Cell(w, start, i, j));
      }
    }
  }

  lemma DiagConfined(s: seq<int>, w: int, bound: int, start: int, i: int)
    requires w == |s| - bound
    requires start >= 1 && 0 <= i && i + 1 < bound <= |s|
    ensures forall t :: 0 <= t < |Diag(w, start, i)| ==> Confined(Diag(w, start, i)[t], s, start, start + w * bound)
  {
    forall t | 0 <= t < |Diag(w, start, i)|
      ensures Confined(Diag(w, start, i)[t], s, start, start + w * bound)
    {
      CellRange(w, start, i, t, bound);
      CellRange(w, start, i + 1, t, bound);
      assert Cell(w, start, i, i + t) == start + w * i + t;
      assert Cell(w, start, i + 1, i + t + 1) == start + w * (i + 1) + t;
      var c := DiagClause(w, start, i, i + t);
      assert c == Diag(w, start, i)[t];
      forall l | l in c ensures start <= Abs(l) < start + w * bound {
        assert l == Cell(w, start, i, i + t) || l == -Cell(w, start, i + 1, i + t + 1);
      }
    }
  }

  lemma {:induction false} RowsConfined(s: seq<int>, bound: int, start: int, m: int)
    requires start >= 1 && 0 <= m <= bound <= |s|
    ensures forall t :: 0 <= t < |Rows(s, bound, start, m)| ==>
      Confined(Rows(s, bound, start, m)[t], s, start, start + (|s| - bound) * bound)
  {
    if m > 0 {
      RowsConfined(s, bound, start, m - 1);
      RowConfined(s, bound, start, m - 1);
      var xs := Rows(s, bound, start, m - 1);
      var ys := Row(s, bound, start, m - 1);
      assert forall t :: |xs| <= t < |xs| + |ys| ==> (xs + ys)[t] == ys[t - |xs|];
    }
  }

  lemma {:induction false} DiagsConfined(s: seq<int>, w: int, bound: int, start: int, m: nat)
    requires w == |s| - bound
    requires start >= 1 && m < bound <= |s|
    ensures forall t :: 0 <= t < |Diags(w, start, m)| ==> Confined(Diags(w, start, m)[t], s, start, start + w * bound)
  {
    if m > 0 {
      DiagsConfined(s, w, bound, start, m - 1);
      DiagConfined(s, w, bound, start, m - 1);
      var xs := Diags(w, start, m - 1);
      var ys := Diag(w, start, m - 1);
      assert forall t :: |xs| <= t < |xs| + |ys| ==> (xs + ys)[t] == ys[t - |xs|];
    }
  }

  /** atleastk uses only the fresh variables start .. start + (size - bound) * bound - 1, the range it returns the end of. */
  lemma CounterConfined(s: seq<int>, bound: int, start: int)
    requires start >= 1 && 1 <= bound <= |s|
    ensures forall t :: 0 <= t < |CounterClauses(s, bound, start)| ==>
      Confined(CounterClauses(s, bound, start)[t], s, start, start + (|s| - bound) * bound)
  {
    RowsConfined(s, bound, start, bound);
    DiagsConfined(s, |s| - bound, bound, start, bound - 1);
    var xs := Rows(s, bound, start, bound);
    var ys := Diags(|s| - bound, start, bound - 1);
    assert forall t :: |xs| <= t < |xs| + |ys| ==> (xs + ys)[t] == ys[t - |xs|];
  }

  // ---------------------------------------------------------------------------
  // main: the dispatch over the klause table and the header arithmetic.

  /** The routing in main: the clauses printed for one klause, and the next fresh variable. */
  function EncodeOne(c: Constraint, aux: int): (seq<seq<int>>, int)
  {
    var k := c.bound;
    var n := |c.lits|;
    if k == 1 then ([c.lits], aux)
    else if k == 2 then (TwoClauses(c.lits), aux)
    else if k == n then (UnitClauses(c.lits), aux)
    else if k + 1 == n then (AllButOne(c.lits, aux), aux + AuxSteps(n))
    else (CounterClauses(c.lits, k, aux), aux + (n - k) * k)
  }

  /** The clauses printed for a table, in table order, with the fresh variables threaded through. */
  function Encode(table: seq<Constraint>, aux: int): (seq<seq<int>>, int)
  {
    if table == [] then ([], aux)
    else
      var (cs, x) := Encode(table[..|table| - 1], aux);
      var (ds, y) := EncodeOne(table[|table| - 1], x);
      (cs + ds, y)
  }

  /** The variables the header reserves for one klause (mVar). */
  function HeaderVars(c: Constraint): int
  {
    var k := c.bound;
    var n := |c.lits|;
    if k == 1 || k == 2 || k == n then 0
    else if k + 1 == n then (n - 1) / 2
    else (n - k) * k
  }

  /** The clauses the header counts for one klause beyond the klause itself (mCls). */
  function HeaderClauses(c: Constraint): int
  {
    var k := c.bound;
    var n := |c.lits|;
    if k == 1 then 0
    else if k == 2 || k == n then n - 1
    else if k + 1 == n then (n - 2) * 3 - 1
    else (n - k + 1) * k + (n - k) * (k - 1) - 1
  }

  function ExtraVars(table: seq<Constraint>): int
  {
    if table == [] then 0 else ExtraVars(table[..|table| - 1]) + HeaderVars(table[|table| - 1])
  }

  function ExtraClauses(table: seq<Constraint>): int
  {
    if table == [] then 0 else ExtraClauses(table[..|table| - 1]) + HeaderClauses(table[|table| - 1])
  }

  /** A klause routed to the split at-most-one encoding. */
  predicate Split(c: Constraint)
  {
    c.bound != 1 && c.bound != 2 && c.bound != |c.lits| && c.bound + 1 == |c.lits|
  }

  /** The number of klauses in the table routed to the split encoding. */
  function SplitCount(table: seq<Constraint>): nat
  {
    if table == [] then 0 else SplitCount(table[..|table| - 1]) + (if Split(table[|table| - 1]) then 1 else 0)
  }

  /** A klause whose bound is between 1 and its size. */
  predicate Proper(c: Constraint) { 1 <= c.bound <= |c.lits| }

  /** A one-clause formula holds iff its clause does. */
  lemma SatOne(c: seq<int>, a: Assignment)
    ensures Sat([c], a) <==> CountTrue(c, a) >= 1
  {
    assert [c][0] == c;
  }

  /** For a proper klause the header's clause count is exact. */
  lemma EncodeOneSize(c: Constraint, aux: int)
    requires Proper(c)
    ensures |EncodeOne(c, aux).0| == 1 + HeaderClauses(c)
  {
    var k := c.bound;
    var n := |c.lits|;
    if k == 1 || k == 2 || k == n {
    } else if k + 1 == n {
      AllButOneSize(c.lits, aux);
    } else {
      CounterSize(c.lits, k, aux);
    }
  }

  /** For a proper klause the header reserves exactly the fresh variables used, plus one for each split klause. */
  lemma EncodeOneAux(c: Constraint, aux: int)
    requires Proper(c)
    ensures EncodeOne(c, aux).1 == aux + HeaderVars(c) - (if Split(c) then 1 else 0)
  {
  }

  lemma {:induction false} EncodeSize(table: seq<Constraint>, aux: int)
    requires forall i :: 0 <= i < |table| ==> Proper(table[i])
    ensures |Encode(table, aux).0| == |table| + ExtraClauses(table)
    ensures Encode(table, aux).1 == aux + ExtraVars(table) - SplitCount(table)
  {
    if table != [] {
      var init := table[..|table| - 1];
      EncodeSize(init, aux);
      EncodeOneSize(table[|table| - 1], Encode(init, aux).1);
      EncodeOneAux(table[|table| - 1], Encode(init, aux).1);
    }
  }

  /**
   * Every klause is translated faithfully, whichever encoder main routes it to: the printed
   * clauses imply the klause, and a model of the klause extends to a model of the clauses on
   * the fresh variables alone.
   */
  lemma EncodeOneMeaning(c: Constraint, aux: int, a: Assignment)
    requires Proper(c) && Below(c.lits, aux)
    ensures Sat(EncodeOne(c, aux).0, a) ==> AtLeast(c.lits, c.bound, a)
    ensures AtLeast(c.lits, c.bound, a) ==> exists b :: Agree(a, b, aux) && Sat(EncodeOne(c, aux).0, b)
  {
    var k := c.bound;
    var n := |c.lits|;
    if k == 1 {
      SatOne(c.lits, a);
      assert Agree(a, a, aux);
    } else if k == 2 {
      TwoMeaning(c.lits, a);
      assert Agree(a, a, aux);
    } else if k == n {
      UnitMeaning(c.lits, a);
      assert Agree(a, a, aux);
    } else if k + 1 == n {
      assert 0 < Abs(c.lits[0]) < aux;
      if Sat(EncodeOne(c, aux).0, a) {
        AllButOneSound(c.lits, aux, a);
      }
      if AtLeast(c.lits, c.bound, a) {
        AllButOneComplete(c.lits, aux, a);
      }
    } else {
      assert 0 < Abs(c.lits[0]) < aux;
      if Sat(EncodeOne(c, aux).0, a) {
        CounterSound(c.lits, k, aux, a);
      }
      if AtLeast(c.lits, c.bound, a) {
        CounterComplete(c.lits, k, aux, a);
        assert Agree(a, CounterModel(c.lits, k, aux, a), aux);
      }
    }
  }

  /** main's first pass over the table: the header's extra variables and clauses. */
  method HeaderCounts(table: seq<Constraint>) returns (mVar: int, mCls: int)
    ensures mVar == ExtraVars(table) && mCls == ExtraClauses(table)
  {
    mVar := 0;
    mCls := 0;
    var i := 0;
    while i < |table|
      invariant 0 <= i <= |table|
      invariant mVar == ExtraVars(table[..i]) && mCls == ExtraClauses(table[..i])
    {
      var k := table[i].bound;
      var size := |table[i].lits|;
      if k == 1 {
      } else if k == 2 {
        mCls := mCls + size - 1;
      } else if k == size {
        mCls := mCls + size - 1;
      } else if k + 1 == size {
        mVar := mVar + (size - 1) / 2;
        mCls := mCls + (size - 2) * 3 - 1;
      } else {
        mVar := mVar + (size - k) * k;
        mCls := mCls + (size - k + 1) * k + (size - k) * (k - 1) - 1;
      }
      assert table[..i + 1][..i] == table[..i];
      i := i + 1;
    }
    assert table[..i] == table;
  }

  /** main's dispatch for one klause, on a fresh copy of its literals. */
  method EmitOne(c: Constraint, aux: int) returns (clauses: seq<seq<int>>, next: int)
    ensures (clauses, next) == EncodeOne(c, aux)
  {
    var k := c.bound;
    var size := |c.lits|;
    var arr := new int[size](j requires 0 <= j < size => c.lits[j]);
    assert arr[..size] == c.lits;
    next := aux;
    if k == 1 {
      clauses := AtLeastOne(arr, size);
    } else if k == 2 {
      clauses := AtLeastTwo(arr, size);
    } else if k == size {
      clauses := AtLeastAll(arr, size);
    } else if k + 1 == size {
      clauses, next := AtLeastAllButOne(arr, size, aux);
    } else {
      clauses, next := AtLeastK(arr, size, k, aux);
    }
  }

  /** main after the table is read: the header counts, then every klause's clauses in order. */
  method Translate(table: seq<Constraint>, nVar: int) returns (vars: int, count: int, out: seq<seq<int>>)
    ensures vars == nVar + ExtraVars(table) && count == |table| + ExtraClauses(table)
    ensures out == Encode(table, nVar + 1).0
  {
    var mVar, mCls := HeaderCounts(table);
    vars := nVar + mVar;
    count := |table| + mCls;
    var aux := nVar + 1;
    out := [];
    var i := 0;
    while i < |table|
      invariant 0 <= i <= |table|
      invariant (out, aux) == Encode(table[..i], nVar + 1)
    {
      var clauses;
      clauses, aux := EmitOne(table[i], aux);
      out := out + clauses;
      assert table[..i + 1][..i] == table[..i];
      i := i + 1;
    }
    assert table[..i] == table;
  }

  /** With proper klauses the header's clause count is the number of clauses printed. */
  lemma HeaderExact(table: seq<Constraint>, nVar: int)
    requires forall i :: 0 <= i < |table| ==> Proper(table[i])
    ensures |Encode(table, nVar + 1).0| == |table| + ExtraClauses(table)
    ensures Encode(table, nVar + 1).1 - 1 == nVar + ExtraVars(table) - SplitCount(table)
  {
    EncodeSize(table, nVar + 1);
  }

  // ---------------------------------------------------------------------------
  // Reading the klause table.

  /** A word of the KNF body after the header: the letter k or an integer (comment lines are not modelled). */
  datatype Word = K | Num(n: int)

  /** The bound at the head of a klause: `k b` gives b, anything else 1; a `k` without a number is consumed. */
  function HeadBound(w: seq<Word>): (r: (int, seq<Word>))
    ensures |r.1| <= |w|
  {
    if |w| >= 2 && w[0] == K && w[1].Num? then (w[1].n, w[2..])
    else if |w| >= 1 && w[0] == K then (1, w[1..])
    else (1, w)
  }

  /** The literals up to the terminating 0 and the words after it; None when a non-integer or the end comes first. */
  function Body(w: seq<Word>): (r: Option<(seq<int>, seq<Word>)>)
    ensures r.Some? ==> |r.value.1| < |w|
    decreases |w|
  {
    if w == [] || !w[0].Num? then None
    else if w[0].n == 0 then Some(([], w[1..]))
    else
      match Body(w[1..])
      case None => None
      case Some(b) => Some(([w[0].n] + b.0, b.1))
  }

  /** Reading `count` klauses: None when the input ends early (knf2cnf then prints nothing) or a literal is malformed. */
  function ParseTable(w: seq<Word>, count: int): Option<seq<Constraint>>
    decreases |w|
  {
    if count <= 0 then Some([])
    else if w == [] then None
    else
      var h := HeadBound(w);
      match Body(h.1)
      case None => None
      case Some(b) =>
        match ParseTable(b.1, count - 1)
        case None => None
        case Some(cs) => Some([Constraint(b.0, h.0)] + cs)
  }

  /** `done` followed by the rest, when there is one. */
  function Then(done: seq<Constraint>, rest: Option<seq<Constraint>>): Option<seq<Constraint>>
  {
    match rest
    case None => None
    case Some(cs) => Some(done + cs)
  }

  /** The rest of a klause whose bound and first literals are read already. */
  function Continue(bound: int, lits: seq<int>, w: seq<Word>, count: int): Option<seq<Constraint>>
  {
    match Body(w)
    case None => None
    case Some(b) => Then([Constraint(lits + b.0, bound)], ParseTable(b.1, count - 1))
  }

  lemma ThenAssoc(x: seq<Constraint>, y: seq<Constraint>, r: Option<seq<Constraint>>)
    ensures Then(x, Then(y, r)) == Then(x + y, r)
  {
    if r.Some? {
      assert x + (y + r.value) == (x + y) + r.value;
    }
  }

  lemma ThenEmpty(r: Option<seq<Constraint>>)
    ensures Then([], r) == r
  {
    if r.Some? {
      assert [] + r.value == r.value;
    }
  }

  /** A klause starts with its bound, then its literals follow. */
  lemma ParseStart(w: seq<Word>, count: int)
    requires count > 0 && w != []
    ensures ParseTable(w, count) == Continue(HeadBound(w).0, [], HeadBound(w).1, count)
  {
    var h := HeadBound(w);
    var b := Body(h.1);
    if b.Some? {
      assert [] + b.value.0 == b.value.0;
      var r := ParseTable(b.value.1, count - 1);
      if r.Some? {
        assert [Constraint(b.value.0, h.0)] + r.value == [Constraint([] + b.value.0, h.0)] + r.value;
      }
    }
  }

  /** A non-zero literal joins the klause being read. */
  lemma ContinueLit(bound: int, lits: seq<int>, w: seq<Word>, count: int)
    requires w != [] && w[0].Num? && w[0].n != 0
    ensures Continue(bound, lits, w, count) == Continue(bound, lits + [w[0].n], w[1..], count)
  {
    var b := Body(w[1..]);
    if b.Some? {
      assert lits + ([w[0].n] + b.value.0) == (lits + [w[0].n]) + b.value.0;
    }
  }

  /** The 0 closes the klause being read. */
  lemma ContinueEnd(bound: int, lits: seq<int>, w: seq<Word>, count: int)
    requires w != [] && w[0] == Num(0)
    ensures Continue(bound, lits, w, count) == Then([Constraint(lits, bound)], ParseTable(w[1..], count - 1))
  {
    assert lits + [] == lits;
  }

  /** main's table loop, word by word: a klause's bound when a klause starts, its literals up to 0 otherwise. */
  method ReadTable(words: seq<Word>, count: int) returns (r: Option<seq<Constraint>>)
    ensures r == ParseTable(words, count)
  {
    var table := [];
    var parsed := 0;
    var first := true;
    var pos := 0;
    var bound := 1;
    var lits := [];
    ThenEmpty(ParseTable(words, count));
    while parsed < count
      invariant 0 <= pos <= |words|
      invariant first ==> ParseTable(words, count) == Then(table, ParseTable(words[pos..], count - parsed))
      invariant !first ==> parsed < count
      invariant !first ==> ParseTable(words, count) == Then(table, Continue(bound, lits, words[pos..], count - parsed))
      decreases (|words| - pos) * 2 + (if first then 1 else 0)
    {
      if first {
        if pos == |words| {
          return None;
        }
        var h := HeadBound(words[pos..]);
        ParseStart(words[pos..], count - parsed);
        if pos + 1 < |words| && words[pos] == K && words[pos + 1].Num? {
          bound := words[pos + 1].n;
          pos := pos + 2;
        } else if words[pos] == K {
          bound := 1;
          pos := pos + 1;
        } else {
          bound := 1;
        }
        assert h == (bound, words[pos..]);
        lits := [];
        first := false;
      } else {
        if pos == |words| || !words[pos].Num? {
          return None;
        }
        var lit := words[pos].n;
        assert words[pos..][1..] == words[pos + 1..];
        if lit == 0 {
          ContinueEnd(bound, lits, words[pos..], count - parsed);
          ThenAssoc(table, [Constraint(lits, bound)], ParseTable(words[pos + 1..], count - parsed - 1));
          table := table + [Constraint(lits, bound)];
          parsed := parsed + 1;
          first := true;
        } else {
          ContinueLit(bound, lits, words[pos..], count - parsed);
          lits := lits + [lit];
        }
        pos := pos + 1;
      }
    }
    assert ParseTable(words[pos..], count - parsed) == Some([]);
    assert table + [] == table;
    return Some(table);
  }

  /** The words that spell a klause: `k b` unless the bound is 1, the literals, then 0. */
  function KlauseWords(c: Constraint): seq<Word>
  {
    (if c.bound == 1 then [] else [K, Num(c.bound)]) + Nums(c.lits) + [Num(0)]
  }

  function Nums(lits: seq<int>): seq<Word>
  {
    seq(|lits|, i requires 0 <= i < |lits| => Num(lits[i]))
  }

  function TableWords(table: seq<Constraint>): seq<Word>
  {
    if table == [] then [] else KlauseWords(table[0]) + TableWords(table[1..])
  }

  lemma {:induction false} BodyNums(lits: seq<int>, rest: seq<Word>)
    requires NonZero(lits)
    ensures Body(Nums(lits) + [Num(0)] + rest) == Some((lits, rest))
    decreases |lits|
  {
    var w := Nums(lits) + [Num(0)] + rest;
    if lits == [] {
      assert w == [Num(0)] + rest;
      assert w[1..] == rest;
    } else {
      assert Nums(lits)[1..] == Nums(lits[1..]);
      assert w[1..] == Nums(lits[1..]) + [Num(0)] + rest;
      BodyNums(lits[1..], rest);
      assert [lits[0]] + lits[1..] == lits;
    }
  }

  /** Reading back the words of a table (literals non-zero) gives the table. */
  lemma {:induction false} ReadWritten(table: seq<Constraint>)
    requires forall i :: 0 <= i < |table| ==> NonZero(table[i].lits)
    ensures ParseTable(TableWords(table), |table|) == Some(table)
  {
    if table != [] {
      var c := table[0];
      var rest := TableWords(table[1..]);
      var w := TableWords(table);
      assert w == KlauseWords(c) + rest;
      var tail := Nums(c.lits) + [Num(0)] + rest;
      if c.bound == 1 {
        assert w == tail;
        if c.lits != [] {
          assert w[0] == Num(c.lits[0]);
        } else {
          assert w[0] == Num(0);
        }
        assert HeadBound(w) == (1, w);
      } else {
        assert w == [K, Num(c.bound)] + tail;
        assert w[2..] == tail;
      }
      assert HeadBound(w) == (c.bound, tail);
      BodyNums(c.lits, rest);
      ReadWritten(table[1..]);
      assert [c] + table[1..] == table;
    }
  }
}

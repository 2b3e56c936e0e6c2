/** Literals, assignments and the "at least k of these literals" meaning that every tool shares. */
module Lits {

  /** A truth assignment, given as the set of variables that are true. */
  type Assignment = set<int>

  datatype Option<T> = None | Some(value: T)

  function Abs(x: int): nat { if x < 0 then -x else x }

  /** A positive literal holds when its variable is true, a negative one when it is false. */
  predicate LitTrue(a: Assignment, lit: int) { if lit > 0 then lit in a else -lit !in a }

  predicate NonZero(lits: seq<int>) { forall i :: 0 <= i < |lits| ==> lits[i] != 0 }

  /** The negation of a non-zero literal is true exactly when the literal is false. */
  lemma NegTrue(x: int, a: Assignment)
    requires x != 0
    ensures LitTrue(a, -x) <==> !LitTrue(a, x)
  {
  }

  /** Number of true literals, counted from the front. */
  function CountTrue(lits: seq<int>, a: Assignment): nat
  {
    if lits == [] then 0
    else CountTrue(lits[..|lits| - 1], a) + (if LitTrue(a, lits[|lits| - 1]) then 1 else 0)
  }

  /** Literal for literal at least as true under b as under a: at least as many true literals. */
  lemma {:induction false} CountTrueMono(xs: seq<int>, ys: seq<int>, a: Assignment, b: Assignment)
    requires |xs| == |ys|
    requires forall i :: 0 <= i < |xs| && LitTrue(a, xs[i]) ==> LitTrue(b, ys[i])
    ensures CountTrue(xs, a) <= CountTrue(ys, b)
    decreases |xs|
  {
    if xs != [] {
      CountTrueMono(xs[..|xs| - 1], ys[..|ys| - 1], a, b);
    }
  }

  /** The meaning of a klause: at least `bound` of its literals are true. */
  predicate AtLeast(lits: seq<int>, bound: int, a: Assignment) { CountTrue(lits, a) >= bound }

  function Negate(lits: seq<int>): (r: seq<int>)
    ensures |r| == |lits| && forall i :: 0 <= i < |lits| ==> r[i] == -lits[i]
  {
    seq(|lits|, i requires 0 <= i < |lits| => -lits[i])
  }

  lemma {:induction false} CountTrueBound(lits: seq<int>, a: Assignment)
    ensures CountTrue(lits, a) <= |lits|
  {
    if lits != [] { CountTrueBound(lits[..|lits| - 1], a); }
  }

  lemma {:induction false} CountTrueAppend(xs: seq<int>, ys: seq<int>, a: Assignment)
    ensures CountTrue(xs + ys, a) == CountTrue(xs, a) + CountTrue(ys, a)
    decreases |ys|
  {
    if ys != [] {
      var zs := xs + ys;
      assert zs[..|zs| - 1] == xs + ys[..|ys| - 1];
      assert zs[|zs| - 1] == ys[|ys| - 1];
      CountTrueAppend(xs, ys[..|ys| - 1], a);
    } else {
      assert xs + ys == xs;
    }
  }

  /** Some literal is true exactly when at least one is counted. */
  lemma {:induction false} CountTruePositive(lits: seq<int>, a: Assignment)
    ensures CountTrue(lits, a) >= 1 <==> exists i :: 0 <= i < |lits| && LitTrue(a, lits[i])
  {
    if lits != [] {
      var init := lits[..|lits| - 1];
      CountTruePositive(init, a);
      if exists i :: 0 <= i < |init| && LitTrue(a, init[i]) {
        var i :| 0 <= i < |init| && LitTrue(a, init[i]);
        assert LitTrue(a, lits[i]);
      }
      if exists i :: 0 <= i < |lits| && LitTrue(a, lits[i]) {
        var i :| 0 <= i < |lits| && LitTrue(a, lits[i]);
        if i < |init| { assert LitTrue(a, init[i]); }
      }
    }
  }

  /** Negating every (non-zero) literal turns "k true" into "|lits| - k true". */
  lemma {:induction false} CountNegate(lits: seq<int>, a: Assignment)
    requires NonZero(lits)
    ensures CountTrue(Negate(lits), a) == |lits| - CountTrue(lits, a)
  {
    if lits != [] {
      var init := lits[..|lits| - 1];
      assert Negate(lits)[..|lits| - 1] == Negate(init);
      CountNegate(init, a);
      CountTrueBound(init, a);
    }
  }

  /** All variables of `s` lie strictly between 0 and `bound`. */
  predicate Below(s: seq<int>, bound: int)
  {
    forall i :: 0 <= i < |s| ==> 0 < Abs(s[i]) < bound
  }

  /** The two assignments agree on the variables 1..bound-1. */
  predicate Agree(a: Assignment, b: Assignment, bound: int)
  {
    forall v :: 0 < v < bound ==> (v in a <==> v in b)
  }

  lemma AgreeLits(s: seq<int>, a: Assignment, b: Assignment, bound: int)
    requires Below(s, bound) && Agree(a, b, bound)
    ensures forall i :: 0 <= i < |s| ==> (LitTrue(a, s[i]) <==> LitTrue(b, s[i]))
  {
    forall i | 0 <= i < |s| ensures LitTrue(a, s[i]) <==> LitTrue(b, s[i]) {
      assert 0 < Abs(s[i]) < bound;
    }
  }

  lemma {:induction false} CountAgree(s: seq<int>, a: Assignment, b: Assignment, bound: int)
    requires Below(s, bound) && Agree(a, b, bound)
    ensures CountTrue(s, a) == CountTrue(s, b)
    decreases |s|
  {
    if s != [] {
      assert 0 < Abs(s[|s| - 1]) < bound;
      CountAgree(s[..|s| - 1], a, b, bound);
    }
  }

  /** A cardinality constraint as the KNF tools read and write it: at least `bound` of `lits`. */
  datatype Constraint = Constraint(lits: seq<int>, bound: int)

  /** A CNF formula holds when every clause has a true literal. */
  predicate Sat(cs: seq<seq<int>>, a: Assignment)
  {
    forall i :: 0 <= i < |cs| ==> CountTrue(cs[i], a) >= 1
  }

  /** A two-literal clause holds iff one of its literals does. */
  lemma CountTwo(x: int, y: int, a: Assignment)
    ensures CountTrue([x, y], a) >= 1 <==> LitTrue(a, x) || LitTrue(a, y)
  {
    assert [x, y][..1] == [x];
    assert [x][..0] == [];
    assert CountTrue([x], a) == (if LitTrue(a, x) then 1 else 0);
    assert CountTrue([x, y], a) == CountTrue([x], a) + (if LitTrue(a, y) then 1 else 0);
  }

  /** A unit clause holds iff its literal does. */
  lemma CountOne(x: int, a: Assignment)
    ensures CountTrue([x], a) >= 1 <==> LitTrue(a, x)
  {
    assert [x][..0] == [];
  }

  /** A three-literal clause holds iff one of its literals does. */
  lemma CountThree(x: int, y: int, z: int, a: Assignment)
    ensures CountTrue([x, y, z], a) >= 1 <==> LitTrue(a, x) || LitTrue(a, y) || LitTrue(a, z)
  {
    assert [x, y, z][..2] == [x, y];
    CountTwo(x, y, a);
    CountTrueBound([x, y], a);
  }

  lemma SatAppend(xs: seq<seq<int>>, ys: seq<seq<int>>, a: Assignment)
    ensures Sat(xs + ys, a) <==> Sat(xs, a) && Sat(ys, a)
  {
    var zs := xs + ys;
    if Sat(xs, a) && Sat(ys, a) {
      forall i | 0 <= i < |zs| ensures CountTrue(zs[i], a) >= 1 {
        if i >= |xs| { assert zs[i] == ys[i - |xs|]; }
      }
    }
    if Sat(zs, a) {
      forall i | 0 <= i < |ys| ensures CountTrue(ys[i], a) >= 1 {
        assert zs[|xs| + i] == ys[i];
      }
      forall i | 0 <= i < |xs| ensures CountTrue(xs[i], a) >= 1 {
        assert zs[i] == xs[i];
      }
    }
  }

  /** All literals are counted exactly when every one of them is true. */
  lemma {:induction false} CountAll(lits: seq<int>, a: Assignment)
    ensures CountTrue(lits, a) == |lits| <==> forall i :: 0 <= i < |lits| ==> LitTrue(a, lits[i])
  {
    if lits != [] {
      var init := lits[..|lits| - 1];
      CountAll(init, a);
      CountTrueBound(init, a);
      if forall i :: 0 <= i < |lits| ==> LitTrue(a, lits[i]) {
        forall i | 0 <= i < |init| ensures LitTrue(a, init[i]) { assert init[i] == lits[i]; }
      }
      if CountTrue(lits, a) == |lits| {
        forall i | 0 <= i < |lits| ensures LitTrue(a, lits[i]) {
          if i < |init| { assert lits[i] == init[i]; }
        }
      }
    }
  }

  /** Each literal is over a variable of its own. */
  predicate DistinctVars(lits: seq<int>) { forall i, j :: 0 <= i < j < |lits| ==> Abs(lits[i]) != Abs(lits[j]) }

  /** The assignment that makes the first m literals true and the others false. */
  ghost function PrefixTrue(lits: seq<int>, m: int): Assignment
  {
    set i | 0 <= i < |lits| && ((i < m) == (lits[i] > 0)) :: Abs(lits[i])
  }

  /**
   * Over literals on distinct variables, every count from 0 to their number is reached: the
   * assignment that makes the first m literals true counts exactly m.
   */
  lemma PrefixTrueCount(lits: seq<int>, m: nat)
    requires NonZero(lits) && DistinctVars(lits) && m <= |lits|
    ensures CountTrue(lits, PrefixTrue(lits, m)) == m
  {
    var a := PrefixTrue(lits, m);
    forall i | 0 <= i < |lits| ensures LitTrue(a, lits[i]) <==> i < m {
      if Abs(lits[i]) in a {
        var i' :| 0 <= i' < |lits| && ((i' < m) == (lits[i'] > 0)) && Abs(lits[i']) == Abs(lits[i]);
        assert i' == i;
      }
      if (i < m) == (lits[i] > 0) {
        assert Abs(lits[i]) in a;
      }
    }
    CountFirst(lits, a, m);
  }

  /** When exactly the first m literals are true, m of them are counted (all, if there are fewer). */
  lemma {:induction false} CountFirst(lits: seq<int>, a: Assignment, m: nat)
    requires forall i :: 0 <= i < |lits| ==> (LitTrue(a, lits[i]) <==> i < m)
    ensures CountTrue(lits, a) == if m <= |lits| then m else |lits|
  {
    if lits != [] {
      var init := lits[..|lits| - 1];
      forall i | 0 <= i < |init| ensures LitTrue(a, init[i]) <==> i < m {
        assert init[i] == lits[i];
      }
      CountFirst(init, a, m);
    }
  }

  /** No value occurs twice. */
  predicate Distinct(s: seq<int>) { forall i, j :: 0 <= i < j < |s| ==> s[i] != s[j] }

  /** In a duplicate-free sequence, equal elements sit at the same place. */
  lemma DistinctAt(s: seq<int>, i: int, j: int)
    requires Distinct(s) && 0 <= i < |s| && 0 <= j < |s| && s[i] == s[j]
    ensures i == j
  {
  }

  /** Appending a value not yet present keeps a sequence duplicate-free. */
  lemma DistinctPush(s: seq<int>, x: int)
    requires Distinct(s) && x !in s
    ensures Distinct(s + [x])
  {
    var s' := s + [x];
    forall p, q | 0 <= p < q < |s'| ensures s'[p] != s'[q] {
      assert s'[p] == s[p] && s[p] in s;
    }
  }

  lemma NonEmpty(s: set<int>)
    requires s != {}
    ensures exists x :: x in s
  {
    if forall x :: x !in s {
      assert false;
    }
  }

  /** The elements of an unordered set, in some order, each once: a range-for over a hash set. */
  method Elements(s: set<int>) returns (r: seq<int>)
    ensures Distinct(r)
    ensures forall x :: x in r <==> x in s
  {
    var rest := s;
    r := [];
    while rest != {}
      invariant Distinct(r)
      invariant rest <= s
      invariant forall x :: x in r <==> x in s && x !in rest
      decreases |rest|
    {
      NonEmpty(rest);
      var v :| v in rest;
      r := r + [v];
      rest := rest - {v};
    }
  }

  /** A non-empty set of integers has a least element. */
  lemma {:induction false} LeastExists(s: set<int>)
    requires s != {}
    ensures exists m :: m in s && forall y :: y in s ==> m <= y
    decreases |s|
  {
    NonEmpty(s);
    var x :| x in s;
    if s != {x} {
      LeastExists(s - {x});
      var m :| m in s - {x} && forall y :: y in s - {x} ==> m <= y;
      var least := if x < m then x else m;
      forall y | y in s ensures least <= y {
        if y != x {
          assert y in s - {x};
        }
      }
      assert least in s;
    } else {
      assert forall y :: y in s ==> x <= y;
    }
  }

  /** The least element of a non-empty set: what begin() of an ordered set points at. */
  ghost function Least(s: set<int>): (m: int)
    requires s != {}
    ensures m in s && forall y :: y in s ==> m <= y
  {
    LeastExists(s);
    var m :| m in s && forall y :: y in s ==> m <= y; m
  }

  /** The elements of a set in ascending order, as a range over an ordered set visits them. */
  ghost function Sorted(s: set<int>): (r: seq<int>)
    ensures forall x :: x in r <==> x in s
    decreases |s|
  {
    if s == {} then [] else [Least(s)] + Sorted(s - {Least(s)})
  }

  /** The ascending listing is strictly increasing, so it holds each element once. */
  lemma {:induction false} SortedAscending(s: set<int>)
    ensures forall i, j :: 0 <= i < j < |Sorted(s)| ==> Sorted(s)[i] < Sorted(s)[j]
    decreases |s|
  {
    if s != {} {
      var m := Least(s);
      SortedAscending(s - {m});
      var r, rest := Sorted(s), Sorted(s - {m});
      assert r == [m] + rest;
      forall i, j | 0 <= i < j < |r| ensures r[i] < r[j] {
        if i == 0 {
          assert r[j] == rest[j - 1] && rest[j - 1] in rest;
        } else {
          assert r[i] == rest[i - 1] && r[j] == rest[j - 1];
        }
      }
    }
  }

  lemma SortedFirst(s: set<int>, m: int)
    requires m in s && forall y :: y in s ==> m <= y
    ensures Sorted(s) == [m] + Sorted(s - {m})
  {
    assert m == Least(s);
  }

  /** Copying an ordered set into a vector: the least remaining element each time. */
  method SortedElements(s: set<int>) returns (r: seq<int>)
    ensures r == Sorted(s)
  {
    var rest := s;
    r := [];
    while rest != {}
      invariant r + Sorted(rest) == Sorted(s)
      decreases |rest|
    {
      LeastExists(rest);
      var m :| m in rest && forall y :: y in rest ==> m <= y;
      SortedStep(r, rest, m, s);
      r := r + [m];
      rest := rest - {m};
    }
  }

  /** Moving the least remaining element to the end of the listing keeps the whole listing. */
  lemma SortedStep(r: seq<int>, rest: set<int>, m: int, s: set<int>)
    requires r + Sorted(rest) == Sorted(s)
    requires m in rest && forall y :: y in rest ==> m <= y
    ensures (r + [m]) + Sorted(rest - {m}) == Sorted(s)
  {
    SortedFirst(rest, m);
    assert (r + [m]) + Sorted(rest - {m}) == r + ([m] + Sorted(rest - {m}));
  }

  /** The n integers lo, lo + 1, ..., in ascending order. */
  function Ascending(lo: int, n: nat): (r: seq<int>)
    ensures |r| == n && forall i | 0 <= i < n :: r[i] == lo + i
    ensures Distinct(r) && forall x :: x in r <==> lo <= x < lo + n
  {
    if n == 0 then [] else Ascending(lo, n - 1) + [lo + n - 1]
  }

  /** The integers lo..hi-1. */
  function Interval(lo: int, hi: int): (r: set<int>)
    ensures forall x :: x in r <==> lo <= x < hi
    ensures lo <= hi ==> |r| == hi - lo
    decreases hi - lo
  {
    if hi <= lo then {} else Interval(lo, hi - 1) + {hi - 1}
  }

  lemma {:induction false} DistinctSize(s: seq<int>)
    requires Distinct(s)
    ensures |set x | x in s| == |s|
  {
    if s != [] {
      var init := s[..|s| - 1];
      DistinctSize(init);
      assert (set x | x in s) == (set x | x in init) + {s[|s| - 1]};
    }
  }

  /** Distinct values in lo..hi-1 that miss one value of that range are fewer than hi - lo. */
  lemma DistinctMissing(s: seq<int>, lo: int, hi: int, x: int)
    requires Distinct(s) && forall i | 0 <= i < |s| :: lo <= s[i] < hi
    requires lo <= x < hi && x !in s
    ensures |s| < hi - lo
  {
    var elems := set y | y in s;
    DistinctSize(s);
    assert elems <= Interval(lo, hi) - {x};
    assert |Interval(lo, hi) - {x}| == hi - lo - 1;
    SubsetSize(elems, Interval(lo, hi) - {x});
  }

  lemma {:induction false} SubsetSize(a: set<int>, b: set<int>)
    requires a <= b
    ensures |a| <= |b|
    decreases |b|
  {
    if a != {} {
      NonEmpty(a);
      var y :| y in a;
      SubsetSize(a - {y}, b - {y});
    }
  }

  /** Multiplying by a non-negative factor keeps the order. */
  lemma {:induction false} MulMono(x: int, y: int, n: int)
    requires x <= y && 0 <= n
    ensures x * n <= y * n
    decreases y - x
  {
    if x < y {
      MulMono(x, y - 1, n);
      assert y * n == (y - 1) * n + n;
    }
  }
}

/**
 * The variable-ordering heuristic that runs before bucket elimination: the clauses of a
 * candidate constraint become a weighted graph over its encoding variables, Dijkstra's
 * algorithm finds a far-away "corner" of that graph, and the ordering lists the encoding
 * variables by distance from it, each followed by the data variables it shares a clause with.
 *
 * Edge weights 1.0 and 0.75 are kept in quarter units (4 and 3), so every distance is an
 * exact integer and the source's float comparisons become integer comparisons. The distances
 * shortest_paths hands back go through a vector<int>, so they are truncated to whole units;
 * the distance sum it returns is a float and stays exact.
 */
module Ordering {
  import opened Lits
  import opened Paths

  const RandMax := 0x7fff_ffff

  /** Quarter distances pushed into a vector<int>: each is cut to whole units (they are never negative). */
  function Whole(qs: seq<int>): (r: seq<int>)
    ensures |r| == |qs|
  {
    seq(|qs|, k requires 0 <= k < |qs| => qs[k] / Unit)
  }
  const StartCount := 6
  const MaxHop := 3
  const NodeThreshold := 5

  /** RAND_MAX converted to float: 2^31. */
  const RandMaxF := 0x8000_0000

  /**
   * The starting node of one try as order_encoded computes it from a draw x of random():
   * r = (float) x / RAND_MAX in single precision, then ndata + 1 + (int) (nencode * r). In
   * float RAND_MAX is 2^31, so dividing by it is exact, and the product is rounded once more.
   */
  function StartAsWritten(x: nat, ndata: int, nencode: nat): (s: int)
    ensures s > ndata
  {
    ndata + 1 + FloatProduct(RoundF(nencode), RoundF(x)) / RandMaxF
  }

  /** The single-precision product of two floats: their exact product, rounded once. */
  function FloatProduct(a: nat, b: nat): nat
  {
    RoundF(a * b)
  }

  /**
   * The 64 largest draws, RAND_MAX among them, round to 2^31 in float: r is 1.0 and the start
   * is one past the last encoding variable.
   */
  lemma StartAsWrittenEscapes(x: nat, ndata: int, nencode: nat)
    requires 0 < nencode < Significand && RandMax - 63 <= x <= RandMax
    ensures StartAsWritten(x, ndata, nencode) == ndata + nencode + 1
  {
    RoundSmall(nencode);
    RoundTop(x);
    RoundScaled(nencode);
    DivUnique(nencode * RandMaxF, RandMaxF, nencode, 0);
  }

  /** Every smaller draw gives an encoding variable. */
  lemma StartAsWrittenInRange(x: nat, ndata: int, nencode: nat)
    requires 0 < nencode < Significand && x < RandMax - 63
    ensures ndata < StartAsWritten(x, ndata, nencode) <= ndata + nencode
  {
    RoundSmall(nencode);
    var r := RoundF(x);
    RoundBelowTop(x);
    MulMono(r, RandMaxF - 128, nencode);
    var p := RoundF(nencode * r);
    RoundProduct(nencode * r, nencode);
    DivBelow(p, RandMaxF, nencode);
  }

  lemma DivBelow(a: int, b: int, c: int)
    requires 0 <= a && 0 < b && a < b * c
    ensures 0 <= a / b < c
  {
    if a / b >= c {
      MulMono(c, a / b, b);
    }
  }

  /** Division with remainder has one answer. */
  lemma DivUnique(n: int, u: int, q: int, m: int)
    requires u >= 1 && 0 <= m < u && n == q * u + m
    ensures n / u == q && n % u == m
  {
    var q', m' := n / u, n % u;
    if q' > q {
      MulMono(q + 1, q', u);
    } else if q' < q {
      MulMono(q' + 1, q, u);
    }
  }

  /** A float's significand holds 24 bits. */
  const Significand := 0x100_0000

  function Pow2(e: nat): (r: nat)
    ensures r >= 1
  {
    if e == 0 then 1 else 2 * Pow2(e - 1)
  }

  /** The exponent of the float spacing around n: 0 below 2^24, one more for every further bit of n. */
  function UlpExp(n: nat): (e: nat)
    ensures n < Significand * Pow2(e)
    ensures e == 0 || Significand * Pow2(e) <= 2 * n
  {
    if n < Significand then 0 else 1 + UlpExp(n / 2)
  }

  /** n rounded to the nearest multiple of u, a tie going to the even multiple. */
  function RoundTo(n: nat, u: nat): nat
    requires u >= 1
  {
    var q, m := n / u, n % u;
    if 2 * m < u || (2 * m == u && q % 2 == 0) then q * u else (q + 1) * u
  }

  /** The single-precision float nearest to the natural number n (round to nearest, ties to even). */
  function RoundF(n: nat): nat
  {
    RoundTo(n, Pow2(UlpExp(n)))
  }

  lemma Pow2Values()
    ensures Pow2(6) == 64 && Pow2(7) == 128 && Pow2(8) == 256 && Pow2(31) == RandMaxF && Pow2(32) == 2 * RandMaxF
  {
    assert Pow2(7) == 128;
    assert Pow2(14) == 0x4000;
    assert Pow2(21) == 0x20_0000;
    assert Pow2(28) == 0x1000_0000;
  }

  lemma {:induction false} Pow2Mono(d: nat, e: nat)
    requires d <= e
    ensures Pow2(d) <= Pow2(e)
    decreases e
  {
    if d < e {
      Pow2Mono(d, e - 1);
    }
  }

  lemma {:induction false} Pow2Add(d: nat, e: nat)
    ensures Pow2(d + e) == Pow2(d) * Pow2(e)
    decreases d
  {
    if d > 0 {
      Pow2Add(d - 1, e);
    }
  }

  /** A number below 2^24 is a float. */
  lemma RoundSmall(n: nat)
    requires n < Significand
    ensures RoundF(n) == n
  {
  }

  /** Rounding to a multiple of u moves n by at most half of u. */
  lemma RoundToNear(n: nat, u: nat)
    requires u >= 1
    ensures RoundTo(n, u) <= n + u / 2
  {
    var q, m := n / u, n % u;
    assert (q + 1) * u == q * u + u;
  }

  /** Rounding a multiple of u to a multiple of u leaves it alone. */
  lemma RoundToExact(k: nat, u: nat)
    requires u >= 1
    ensures RoundTo(k * u, u) == k * u
  {
    DivUnique(k * u, u, k, 0);
  }

  /** The float spacing between 2^30 and 2^31 is 128. */
  lemma UlpTop(x: nat)
    requires 0x4000_0000 <= x < RandMaxF
    ensures UlpExp(x) == 7
  {
    Pow2Values();
    var e := UlpExp(x);
    if e < 7 {
      Pow2Mono(e, 6);
    } else if e > 7 {
      Pow2Mono(8, e);
    }
  }

  /** From 2^31 - 64 up, a natural number rounds to 2^31. */
  lemma RoundTop(x: nat)
    requires RandMax - 63 <= x <= RandMax
    ensures RoundF(x) == RandMaxF
  {
    UlpTop(x);
    Pow2Values();
    DivUnique(x, 128, Significand - 1, x - (RandMaxF - 128));
  }

  /** Below 2^31 - 64 a natural number rounds to at most 2^31 - 128. */
  lemma RoundBelowTop(x: nat)
    requires x < RandMax - 63
    ensures RoundF(x) <= RandMaxF - 128
  {
    Pow2Values();
    if x < 0x4000_0000 {
      RoundBelowHalf(x);
    } else {
      UlpTop(x);
      var q := x / 128;
      assert q <= Significand - 1;
      if q == Significand - 1 {
        DivUnique(x, 128, q, x - (RandMaxF - 128));
      }
    }
  }

  /** Below 2^30 the spacing is at most 64, and a number rounds to at most 2^30. */
  lemma RoundBelowHalf(x: nat)
    requires x < 0x4000_0000
    ensures RoundF(x) <= 0x4000_0000
  {
    var e := UlpExp(x);
    var u := Pow2(e);
    Pow2Values();
    Pow2Below(e);
    RoundToNear(x, u);
    RoundToBelow(x, u);
  }

  /** A power of two below 128 is at most 64. */
  lemma Pow2Below(e: nat)
    requires Pow2(e) < 128
    ensures Pow2(e) <= 64
  {
    Pow2Values();
    if e >= 7 {
      Pow2Mono(7, e);
    } else {
      Pow2Mono(e, 6);
    }
  }

  /** Rounding to a multiple of u at most 64 keeps a number below 2^30 at most 2^30. */
  lemma RoundToBelow(x: nat, u: nat)
    requires 1 <= u <= 64 && x < 0x4000_0000 && x < Significand * u
    ensures RoundTo(x, u) <= 0x4000_0000
  {
    var q := x / u;
    DivBelow(x, u, Significand);
    MulMono(q + 1, Significand, u);
    MulMono(u, 64, Significand);
  }

  /** n times 2^31 is a float when n is: the spacing there divides 2^31. */
  lemma RoundScaled(n: nat)
    requires n < Significand
    ensures RoundF(n * RandMaxF) == n * RandMaxF
  {
    var p := n * RandMaxF;
    var e := UlpExp(p);
    UlpScaled(n);
    SpacingDivides(e);
    ScaledMultiple(n, Pow2(e), Pow2(31 - e));
    ExactIsFloat(p, n, Pow2(31 - e));
  }

  /** A spacing of at most 2^31 divides 2^31. */
  lemma SpacingDivides(e: nat)
    requires e <= 31
    ensures Pow2(e) * Pow2(31 - e) == RandMaxF
  {
    Pow2Add(e, 31 - e);
    Pow2Values();
  }

  /** A multiple of the spacing around p is its own float. */
  lemma ExactIsFloat(p: nat, n: nat, w: nat)
    requires p == (n * w) * Pow2(UlpExp(p))
    ensures RoundF(p) == p
  {
    var c: nat := n * w;
    RoundToExact(c, Pow2(UlpExp(p)));
  }

  /** The spacing around n * 2^31 is at most 2^31. */
  lemma UlpScaled(n: nat)
    requires n < Significand
    ensures UlpExp(n * RandMaxF) <= 31
  {
    var e := UlpExp(n * RandMaxF);
    Pow2Values();
    MulMono(n, Significand - 1, RandMaxF);
    if e > 31 {
      Pow2Mono(32, e);
    }
  }

  lemma ScaledMultiple(n: nat, u: nat, w: nat)
    requires u * w == RandMaxF
    ensures n * RandMaxF == (n * w) * u
  {
    assert n * (u * w) == (n * w) * u;
  }

  /**
   * A product n * r with r at most 2^31 - 128 rounds to below n * 2^31: the rounding moves
   * it by at most half the spacing, which is less than 128 * n.
   */
  lemma RoundProduct(p: nat, n: nat)
    requires 0 < n && p <= n * (RandMaxF - 128)
    ensures RoundF(p) < RandMaxF * n
  {
    RoundToNear(p, Pow2(UlpExp(p)));
  }

  /** The starting node of one try: as written, with the escaping draws kept on the last encoding variable. */
  function Start(x: nat, ndata: int, nencode: nat): (v: int)
    requires 0 < nencode
    ensures ndata < v <= ndata + nencode
    ensures nencode < Significand && x < RandMax - 63 ==> v == StartAsWritten(x, ndata, nencode)
  {
    if nencode < Significand && x < RandMax - 63 then
      StartAsWrittenInRange(x, ndata, nencode);
      StartAsWritten(x, ndata, nencode)
    else if StartAsWritten(x, ndata, nencode) > ndata + nencode then ndata + nencode
    else StartAsWritten(x, ndata, nencode)
  }

  /** The encoding variables of an order, in the order they appear. */
  function EncodingPart(s: seq<int>, ndata: int): seq<int>
  {
    if s == [] then [] else EncodingPart(s[..|s| - 1], ndata) + (if s[|s| - 1] > ndata then [s[|s| - 1]] else [])
  }

  /** In an order, the data neighbours of every encoding variable come before the next encoding variable. */
  ghost predicate NeighboursFirst(s: seq<int>, dataNeighbor: seq<set<int>>, ndata: int)
  {
    forall p, q | 0 <= p < q < |s| && ndata < s[p] && s[p] - ndata - 1 < |dataNeighbor| && ndata < s[q] ::
      forall d | d in dataNeighbor[s[p] - ndata - 1] :: d in s[..q]
  }

  /** Placing an encoding variable once the data neighbours of those before it are placed. */
  lemma PlaceEncoding(s: seq<int>, ev: int, added: set<int>, dataNeighbor: seq<set<int>>, ndata: int)
    requires NeighboursFirst(s, dataNeighbor, ndata) && ndata < ev
    requires forall v | v in added :: v in s
    requires forall p | 0 <= p < |s| && ndata < s[p] && s[p] - ndata - 1 < |dataNeighbor| ::
               dataNeighbor[s[p] - ndata - 1] <= added
    ensures NeighboursFirst(s + [ev], dataNeighbor, ndata)
    ensures EncodingPart(s + [ev], ndata) == EncodingPart(s, ndata) + [ev]
  {
    var s' := s + [ev];
    assert s'[..|s|] == s;
    forall p, q | 0 <= p < q < |s'| && ndata < s'[p] && s'[p] - ndata - 1 < |dataNeighbor| && ndata < s'[q]
      ensures forall d | d in dataNeighbor[s'[p] - ndata - 1] :: d in s'[..q]
    {
      assert s'[p] == s[p];
      if q < |s| {
        assert s'[..q] == s[..q] && s'[q] == s[q];
      }
    }
  }

  /** Placing a data variable keeps the encoding part and the data neighbours ahead of later encoding variables. */
  lemma PlaceData(s: seq<int>, dv: int, dataNeighbor: seq<set<int>>, ndata: int)
    requires NeighboursFirst(s, dataNeighbor, ndata) && dv <= ndata
    ensures NeighboursFirst(s + [dv], dataNeighbor, ndata)
    ensures EncodingPart(s + [dv], ndata) == EncodingPart(s, ndata)
  {
    var s' := s + [dv];
    assert s'[..|s|] == s;
    forall p, q | 0 <= p < q < |s'| && ndata < s'[p] && s'[p] - ndata - 1 < |dataNeighbor| && ndata < s'[q]
      ensures forall d | d in dataNeighbor[s'[p] - ndata - 1] :: d in s'[..q]
    {
      assert q < |s| && s'[..q] == s[..q] && s'[q] == s[q] && s'[p] == s[p];
    }
  }

  /** Placing a new data variable dv and recording it as added. */
  lemma AddData(s: seq<int>, dv: int, dataNeighbor: seq<set<int>>, ndata: int, added: set<int>, skip: int)
    requires Distinct(s) && dv !in s && dv <= ndata
    requires Covered(s, dataNeighbor, ndata, added, skip)
    ensures Distinct(s + [dv])
    ensures Covered(s + [dv], dataNeighbor, ndata, added + {dv}, skip)
  {
    var s' := s + [dv];
    DistinctPush(s, dv);
    forall p | 0 <= p < |s'| && ndata < s'[p] && s'[p] - ndata - 1 < |dataNeighbor| && p != skip
      ensures dataNeighbor[s'[p] - ndata - 1] <= added + {dv}
    {
      assert p < |s| && s'[p] == s[p];
    }
  }

  /** Distinct variables that are exactly 1..nvar number nvar. */
  lemma AllVariables(s: seq<int>, nvar: int)
    requires 0 <= nvar && Distinct(s) && forall v :: v in s <==> 1 <= v <= nvar
    ensures |s| == nvar
  {
    DistinctSize(s);
    assert (set x | x in s) == Interval(1, nvar + 1);
  }

  /**
   * Each encoding variable of evar followed by those of its data neighbours not yet placed,
   * then the remaining data variables in ascending order.
   */
  method Interleave(evar: seq<int>, dataNeighbor: seq<set<int>>, ndata: int, nvar: int) returns (result: seq<int>)
    requires 0 <= ndata <= nvar && |dataNeighbor| == nvar - ndata && DataOk(dataNeighbor, ndata)
    requires Distinct(evar) && forall v :: v in evar <==> ndata < v <= nvar
    ensures Distinct(result) && forall v :: v in result <==> 1 <= v <= nvar
    ensures |result| == nvar
    ensures NeighboursFirst(result, dataNeighbor, ndata)
    ensures EncodingPart(result, ndata) == evar
    ensures 0 < |evar| ==> 0 < |result| && result[0] == evar[0]
  {
    result := [];
    var added: set<int> := {};
    for i := 0 to |evar|
      invariant Distinct(result) && EncodingPart(result, ndata) == evar[..i]
      invariant i > 0 ==> 0 < |result| && result[0] == evar[0]
      invariant i == 0 ==> result == []
      invariant forall v | v in added :: 1 <= v <= ndata
      invariant forall v :: v in result <==> v in evar[..i] || v in added
      invariant NeighboursFirst(result, dataNeighbor, ndata)
      invariant Covered(result, dataNeighbor, ndata, added, |result|)
    {
      result, added := PlaceBlock(evar, i, dataNeighbor, ndata, nvar, result, added);
    }
    assert evar[..|evar|] == evar;
    forall v | v in result && v <= ndata ensures v in added {
      assert v !in evar;
    }
    var placed := result;
    result := PlaceRest(placed, added, dataNeighbor, ndata);
    if 0 < |evar| {
      assert result[..|placed|][0] == placed[0];
    }
    forall v ensures v in result <==> 1 <= v <= nvar {
      assert v in result <==> v in evar || v in added || 1 <= v <= ndata;
    }
    AllVariables(result, nvar);
  }

  /** Appends the data variables 1..ndata that are not in added, in ascending order. */
  method PlaceRest(placed: seq<int>, added: set<int>, dataNeighbor: seq<set<int>>, ndata: int) returns (result: seq<int>)
    requires 0 <= ndata && Distinct(placed) && NeighboursFirst(placed, dataNeighbor, ndata)
    requires forall v | v in placed && v <= ndata :: v in added
    requires forall v | v in added :: v in placed
    ensures Distinct(result) && EncodingPart(result, ndata) == EncodingPart(placed, ndata)
    ensures |placed| <= |result| && result[..|placed|] == placed
    ensures forall v :: v in result <==> v in placed || 1 <= v <= ndata
    ensures NeighboursFirst(result, dataNeighbor, ndata)
  {
    result := placed;
    for dv := 1 to ndata + 1
      invariant Distinct(result) && EncodingPart(result, ndata) == EncodingPart(placed, ndata)
      invariant |placed| <= |result| && result[..|placed|] == placed
      invariant forall v :: v in result <==> v in placed || 1 <= v < dv
      invariant NeighboursFirst(result, dataNeighbor, ndata)
    {
      ghost var r0 := result;
      if dv !in added {
        assert dv !in result;
        DistinctPush(result, dv);
        PlaceData(result, dv, dataNeighbor, ndata);
        assert (result + [dv])[..|placed|] == result[..|placed|];
        result := result + [dv];
      }
      forall v ensures v in result <==> v in placed || 1 <= v < dv + 1 {
        assert v in result <==> v in r0 || (dv !in added && v == dv);
      }
    }
  }

  /** The data neighbours of every encoding variable of s, except the one at position skip, are in added. */
  ghost predicate Covered(s: seq<int>, dataNeighbor: seq<set<int>>, ndata: int, added: set<int>, skip: int)
  {
    forall p | 0 <= p < |s| && ndata < s[p] && s[p] - ndata - 1 < |dataNeighbor| && p != skip ::
      dataNeighbor[s[p] - ndata - 1] <= added
  }

  /** Places evar[i], then each of its data neighbours not placed yet. */
  method PlaceBlock(evar: seq<int>, i: int, dataNeighbor: seq<set<int>>, ndata: int, nvar: int,
                    result: seq<int>, added: set<int>) returns (result': seq<int>, added': set<int>)
    requires 0 <= ndata <= nvar && |dataNeighbor| == nvar - ndata && DataOk(dataNeighbor, ndata)
    requires Distinct(evar) && forall v :: v in evar <==> ndata < v <= nvar
    requires 0 <= i < |evar|
    requires Distinct(result) && EncodingPart(result, ndata) == evar[..i]
    requires i > 0 ==> 0 < |result| && result[0] == evar[0]
    requires i == 0 ==> result == []
    requires forall v | v in added :: 1 <= v <= ndata
    requires forall v :: v in result <==> v in evar[..i] || v in added
    requires NeighboursFirst(result, dataNeighbor, ndata)
    requires Covered(result, dataNeighbor, ndata, added, |result|)
    ensures Distinct(result') && EncodingPart(result', ndata) == evar[..i + 1]
    ensures 0 < |result'| && result'[0] == evar[0]
    ensures forall v | v in added' :: 1 <= v <= ndata
    ensures forall v :: v in result' <==> v in evar[..i + 1] || v in added'
    ensures NeighboursFirst(result', dataNeighbor, ndata)
    ensures Covered(result', dataNeighbor, ndata, added', |result'|)
  {
    var ev := evar[i];
    assert evar[..i + 1] == evar[..i] + [ev];
    assert ev !in evar[..i];
    assert ev in evar;
    PlaceEncoding(result, ev, added, dataNeighbor, ndata);
    CoveredExtend(result, ev, dataNeighbor, ndata, added);
    var at := |result|;
    var slot := ev - ndata - 1;
    var dvs := Elements(dataNeighbor[slot]);
    NeighbourRange(dataNeighbor, ndata, slot, dvs);
    var s0 := result + [ev];
    DistinctPush(result, ev);
    forall v | v in evar[..i] ensures ndata < v {
      assert v in evar;
    }
    forall v | v in s0 && v <= ndata ensures v in added {
      assert v in result;
    }
    result', added' := PlaceNeighbours(s0, added, dvs, dataNeighbor, ndata, at);
    assert EncodingPart(result', ndata) == EncodingPart(s0, ndata) == evar[..i + 1];
    KeptPrefix(result', s0, at);
    KeptPrefix(result', s0, 0);
    forall d | d in dataNeighbor[slot] ensures d in added' {
      assert d in dvs;
    }
    CoveredAt(result', dataNeighbor, ndata, added', at, slot);
  }

  /** A sequence that starts with s0 agrees with it at every place of s0. */
  lemma KeptPrefix(s: seq<int>, s0: seq<int>, p: int)
    requires |s0| <= |s| && s[..|s0|] == s0 && 0 <= p < |s0|
    ensures s[p] == s0[p]
  {
    assert s[..|s0|][p] == s[p];
  }

  /** A listing of the data neighbours of one encoding variable holds data variables only. */
  lemma NeighbourRange(dataNeighbor: seq<set<int>>, ndata: int, k: int, dvs: seq<int>)
    requires DataOk(dataNeighbor, ndata) && 0 <= k < |dataNeighbor|
    requires forall x :: x in dvs <==> x in dataNeighbor[k]
    ensures forall t | 0 <= t < |dvs| :: 1 <= dvs[t] <= ndata
  {
    forall t | 0 <= t < |dvs| ensures 1 <= dvs[t] <= ndata {
      assert dvs[t] in dvs;
    }
  }

  /** Appends the variables of dvs that are not placed yet, in order, recording them as added. */
  method PlaceNeighbours(s0: seq<int>, added0: set<int>, dvs: seq<int>, dataNeighbor: seq<set<int>>, ndata: int, at: int)
    returns (s: seq<int>, added: set<int>)
    requires Distinct(s0) && 0 <= at < |s0|
    requires forall v | v in added0 :: v in s0
    requires forall v | v in s0 && v <= ndata :: v in added0
    requires forall t | 0 <= t < |dvs| :: 1 <= dvs[t] <= ndata
    requires NeighboursFirst(s0, dataNeighbor, ndata)
    requires Covered(s0, dataNeighbor, ndata, added0, at)
    ensures Distinct(s) && EncodingPart(s, ndata) == EncodingPart(s0, ndata)
    ensures |s0| <= |s| && s[..|s0|] == s0
    ensures forall v :: v in s <==> v in s0 || v in dvs
    ensures forall v :: v in added <==> v in added0 || v in dvs
    ensures NeighboursFirst(s, dataNeighbor, ndata)
    ensures Covered(s, dataNeighbor, ndata, added, at)
  {
    s, added := s0, added0;
    for j := 0 to |dvs|
      invariant Distinct(s) && EncodingPart(s, ndata) == EncodingPart(s0, ndata)
      invariant |s0| <= |s| && s[..|s0|] == s0
      invariant forall v :: v in s <==> v in s0 || v in dvs[..j]
      invariant forall v :: v in added <==> v in added0 || v in dvs[..j]
      invariant NeighboursFirst(s, dataNeighbor, ndata)
      invariant Covered(s, dataNeighbor, ndata, added, at)
    {
      var dv := dvs[j];
      assert dvs[..j + 1] == dvs[..j] + [dv];
      if dv !in added {
        assert dv !in s;
        PlaceData(s, dv, dataNeighbor, ndata);
        AddData(s, dv, dataNeighbor, ndata, added, at);
        assert (s + [dv])[..|s0|] == s[..|s0|];
        s := s + [dv];
        added := added + {dv};
      } else {
        assert dv in s;
      }
    }
    assert dvs[..|dvs|] == dvs;
  }

  /** Appending an encoding variable whose data neighbours are not placed yet keeps the others covered. */
  lemma CoveredExtend(s: seq<int>, ev: int, dataNeighbor: seq<set<int>>, ndata: int, added: set<int>)
    requires Covered(s, dataNeighbor, ndata, added, |s|)
    ensures Covered(s + [ev], dataNeighbor, ndata, added, |s|)
  {
    var s' := s + [ev];
    forall p | 0 <= p < |s'| && ndata < s'[p] && s'[p] - ndata - 1 < |dataNeighbor| && p != |s|
      ensures dataNeighbor[s'[p] - ndata - 1] <= added
    {
      assert s'[p] == s[p];
    }
  }

  /** Once the data neighbours of the variable at position at are added too, every encoding variable is covered. */
  lemma CoveredAt(s: seq<int>, dataNeighbor: seq<set<int>>, ndata: int, added: set<int>, at: int, slot: int)
    requires Covered(s, dataNeighbor, ndata, added, at)
    requires 0 <= at < |s| && ndata < s[at] && slot == s[at] - ndata - 1 && slot < |dataNeighbor|
    requires dataNeighbor[slot] <= added
    ensures Covered(s, dataNeighbor, ndata, added, |s|)
  {
  }

  /** The map key of the edge (vlow, vhigh): row vlow, column vhigh of an nencode-wide table. */
  function Key(vlow: int, vhigh: int, ndata: int, nencode: int): int
  {
    (vlow - ndata - 1) * nencode + (vhigh - ndata - 1)
  }

  lemma KeyInjective(a1: int, b1: int, a2: int, b2: int, n: int)
    requires 0 <= a1 && 0 <= a2 && 0 <= b1 < n && 0 <= b2 < n
    requires a1 * n + b1 == a2 * n + b2
    ensures a1 == a2 && b1 == b2
  {
    if a1 < a2 {
      MulMono(a1 + 1, a2, n);
      assert false;
    } else if a2 < a1 {
      MulMono(a2 + 1, a1, n);
      assert false;
    }
  }

  /** Two encoding variables have the same key exactly when they are the same pair. */
  lemma KeyIdentifiesPair(v1: int, w1: int, v2: int, w2: int, ndata: int, nvar: int)
    requires ndata < v1 <= nvar && ndata < w1 <= nvar && ndata < v2 <= nvar && ndata < w2 <= nvar
    ensures Key(v1, w1, ndata, nvar - ndata) == Key(v2, w2, ndata, nvar - ndata) <==> v1 == v2 && w1 == w2
  {
    if Key(v1, w1, ndata, nvar - ndata) == Key(v2, w2, ndata, nvar - ndata) {
      KeyInjective(v1 - ndata - 1, w1 - ndata - 1, v2 - ndata - 1, w2 - ndata - 1, nvar - ndata);
    }
  }

  function Pairs(edges: seq<Edge>): set<(int, int)>
  {
    set e | e in edges :: (e.node1, e.node2)
  }

  function Sorted(p: (int, int)): (int, int)
  {
    if p.0 <= p.1 then p else (p.1, p.0)
  }

  predicate Before(p: int, q: int, i: int, j: int) { p < i || (p == i && q < j) }

  /** The variable pairs of the clause at positions p < q, for the positions before (i, j). */
  function CoPairs(ldata: seq<int>, i: int, j: int): set<(int, int)>
  {
    set p, q | 0 <= p < q < |ldata| && Before(p, q, i, j) :: (Abs(ldata[p]), Abs(ldata[q]))
  }

  /** The variables in lo..hi that occur in a pair with v. */
  function Partners(co: set<(int, int)>, v: int, lo: int, hi: int): set<int>
  {
    (set pr | pr in co && pr.0 == v && lo <= pr.1 <= hi :: pr.1)
      + (set pr | pr in co && pr.1 == v && lo <= pr.0 <= hi :: pr.0)
  }

  /** The pairs made only of encoding variables, smaller variable first. */
  function EncLinks(co: set<(int, int)>, ndata: int): set<(int, int)>
  {
    set pr | pr in co && pr.0 > ndata && pr.1 > ndata :: Sorted(pr)
  }

  predicate DataOk(dataNeighbor: seq<set<int>>, ndata: int)
  {
    forall k, d | 0 <= k < |dataNeighbor| && d in dataNeighbor[k] :: 1 <= d <= ndata
  }

  /** d is a data neighbour of encoding variable v exactly when v is an encoding neighbour of d. */
  predicate Mirrored(dataNeighbor: seq<set<int>>, encodingNeighbor: seq<set<int>>, ndata: int, nvar: int)
  {
    (forall d, v | 0 <= d < |encodingNeighbor| && v in encodingNeighbor[d] :: ndata < v <= nvar)
    && (forall k, d | 0 <= k < |dataNeighbor| && 0 <= d < |encodingNeighbor| ::
          d + 1 in dataNeighbor[k] <==> ndata + 1 + k in encodingNeighbor[d])
  }

  /** The key map sends the key of each edge to that edge, and nothing else. */
  predicate KeysOk(edges: seq<Edge>, unique: map<int, int>, ndata: int, nvar: int)
  {
    (forall key | key in unique ::
       0 <= unique[key] < |edges|
       && Key(edges[unique[key]].node1, edges[unique[key]].node2, ndata, nvar - ndata) == key)
    && (forall id | 0 <= id < |edges| ::
          Key(edges[id].node1, edges[id].node2, ndata, nvar - ndata) in unique
          && unique[Key(edges[id].node1, edges[id].node2, ndata, nvar - ndata)] == id)
  }

  /**
   * While the key map is complete, no pair of variables has two edges, and a pair of
   * encoding variables has an edge exactly when its key is in the map.
   */
  lemma KeyedPairs(edges: seq<Edge>, unique: map<int, int>, ndata: int, nvar: int, v: int, w: int)
    requires EdgesOk(edges, ndata, nvar) && KeysOk(edges, unique, ndata, nvar)
    requires ndata < v <= w <= nvar
    ensures forall i, j | 0 <= i < j < |edges| :: (edges[i].node1, edges[i].node2) != (edges[j].node1, edges[j].node2)
    ensures (v, w) in Pairs(edges) <==> Key(v, w, ndata, nvar - ndata) in unique
  {
    var key := Key(v, w, ndata, nvar - ndata);
    if key in unique {
      var e := edges[unique[key]];
      assert e in edges;
      KeyIdentifiesPair(e.node1, e.node2, v, w, ndata, nvar);
    }
    if (v, w) in Pairs(edges) {
      var e :| e in edges && (e.node1, e.node2) == (v, w);
      var id :| 0 <= id < |edges| && edges[id] == e;
      assert Key(edges[id].node1, edges[id].node2, ndata, nvar - ndata) in unique;
    }
  }

  lemma PartnersOne(x: int, y: int, v: int, lo: int, hi: int)
    ensures Partners({(x, y)}, v, lo, hi)
            == (if x == v && lo <= y <= hi then {y} else {}) + (if y == v && lo <= x <= hi then {x} else {})
  {
    var first := set pr | pr in {(x, y)} && pr.0 == v && lo <= pr.1 <= hi :: pr.1;
    var second := set pr | pr in {(x, y)} && pr.1 == v && lo <= pr.0 <= hi :: pr.0;
    assert first == (if x == v && lo <= y <= hi then {y} else {});
    assert second == (if y == v && lo <= x <= hi then {x} else {});
  }

  lemma EncLinksOne(x: int, y: int, ndata: int)
    ensures EncLinks({(x, y)}, ndata) == if x > ndata && y > ndata then {Sorted((x, y))} else {}
  {
    if x > ndata && y > ndata {
      assert Sorted((x, y)) in EncLinks({(x, y)}, ndata);
    }
  }

  lemma PartnersUnion(a: set<(int, int)>, b: set<(int, int)>, v: int, lo: int, hi: int)
    ensures Partners(a + b, v, lo, hi) == Partners(a, v, lo, hi) + Partners(b, v, lo, hi)
  {
  }

  lemma EncLinksUnion(a: set<(int, int)>, b: set<(int, int)>, ndata: int)
    ensures EncLinks(a + b, ndata) == EncLinks(a, ndata) + EncLinks(b, ndata)
  {
  }

  /** Moving past position j in row i adds exactly the pair at (i, j). */
  lemma CoPairsStep(ldata: seq<int>, i: int, j: int)
    requires 0 <= i < j < |ldata|
    ensures CoPairs(ldata, i, j + 1) == CoPairs(ldata, i, j) + {(Abs(ldata[i]), Abs(ldata[j]))}
  {
    assert (Abs(ldata[i]), Abs(ldata[j])) in CoPairs(ldata, i, j + 1);
  }

  /** Row i starts with nothing of its own, and a finished row is the start of the next. */
  lemma CoPairsRow(ldata: seq<int>, i: int)
    requires 0 <= i < |ldata|
    ensures CoPairs(ldata, i, i + 1) == CoPairs(ldata, i, 0)
    ensures CoPairs(ldata, i, |ldata|) == CoPairs(ldata, i + 1, 0)
  {
  }

  /** Before the first row nothing is paired. */
  lemma CoPairsNone(ldata: seq<int>)
    ensures CoPairs(ldata, 0, 0) == {}
  {
  }

  /** Every pair of positions p < q of the clause, as variables. */
  function ClausePairs(ldata: seq<int>): set<(int, int)>
  {
    CoPairs(ldata, |ldata|, 0)
  }

  /** The data-neighbour table after adding the pairs co: each encoding variable gains its data partners. */
  function GrowData(dn: seq<set<int>>, co: set<(int, int)>, ndata: int): (r: seq<set<int>>)
    ensures |r| == |dn|
  {
    seq(|dn|, k requires 0 <= k < |dn| => dn[k] + Partners(co, ndata + 1 + k, 1, ndata))
  }

  /** The encoding-neighbour table after adding the pairs co: each data variable gains its encoding partners. */
  function GrowEnc(en: seq<set<int>>, co: set<(int, int)>, ndata: int, nvar: int): (r: seq<set<int>>)
    ensures |r| == |en|
  {
    seq(|en|, d requires 0 <= d < |en| => en[d] + Partners(co, d + 1, ndata + 1, nvar))
  }

  lemma GrowUnion(dn: seq<set<int>>, en: seq<set<int>>, a: set<(int, int)>, b: set<(int, int)>, ndata: int, nvar: int)
    ensures GrowData(GrowData(dn, a, ndata), b, ndata) == GrowData(dn, a + b, ndata)
    ensures GrowEnc(GrowEnc(en, a, ndata, nvar), b, ndata, nvar) == GrowEnc(en, a + b, ndata, nvar)
  {
    forall k | 0 <= k < |dn| ensures GrowData(GrowData(dn, a, ndata), b, ndata)[k] == GrowData(dn, a + b, ndata)[k] {
      PartnersUnion(a, b, ndata + 1 + k, 1, ndata);
    }
    forall d | 0 <= d < |en| ensures GrowEnc(GrowEnc(en, a, ndata, nvar), b, ndata, nvar)[d] == GrowEnc(en, a + b, ndata, nvar)[d] {
      PartnersUnion(a, b, d + 1, ndata + 1, nvar);
    }
  }

  /** A data variable dv and an encoding variable ev: each table gains one entry. */
  lemma GrowOne(dn: seq<set<int>>, en: seq<set<int>>, dv: int, ev: int, ndata: int, nvar: int)
    requires 1 <= dv <= ndata < ev <= nvar && |dn| == nvar - ndata && |en| == ndata
    ensures GrowData(dn, {(dv, ev)}, ndata) == dn[ev - ndata - 1 := dn[ev - ndata - 1] + {dv}]
    ensures GrowData(dn, {(ev, dv)}, ndata) == dn[ev - ndata - 1 := dn[ev - ndata - 1] + {dv}]
    ensures GrowEnc(en, {(dv, ev)}, ndata, nvar) == en[dv - 1 := en[dv - 1] + {ev}]
    ensures GrowEnc(en, {(ev, dv)}, ndata, nvar) == en[dv - 1 := en[dv - 1] + {ev}]
  {
    GrowOneData(dn, dv, ev, ndata, nvar);
    GrowOneEnc(en, dv, ev, ndata, nvar);
  }

  lemma GrowOneData(dn: seq<set<int>>, dv: int, ev: int, ndata: int, nvar: int)
    requires 1 <= dv <= ndata < ev <= nvar && |dn| == nvar - ndata
    ensures GrowData(dn, {(dv, ev)}, ndata) == dn[ev - ndata - 1 := dn[ev - ndata - 1] + {dv}]
    ensures GrowData(dn, {(ev, dv)}, ndata) == dn[ev - ndata - 1 := dn[ev - ndata - 1] + {dv}]
  {
    var dn' := dn[ev - ndata - 1 := dn[ev - ndata - 1] + {dv}];
    forall k | 0 <= k < |dn|
      ensures GrowData(dn, {(dv, ev)}, ndata)[k] == dn'[k] && GrowData(dn, {(ev, dv)}, ndata)[k] == dn'[k]
    {
      DataPartnersOne(dv, ev, ndata, k);
    }
  }

  lemma GrowOneEnc(en: seq<set<int>>, dv: int, ev: int, ndata: int, nvar: int)
    requires 1 <= dv <= ndata < ev <= nvar && |en| == ndata
    ensures GrowEnc(en, {(dv, ev)}, ndata, nvar) == en[dv - 1 := en[dv - 1] + {ev}]
    ensures GrowEnc(en, {(ev, dv)}, ndata, nvar) == en[dv - 1 := en[dv - 1] + {ev}]
  {
    var en' := en[dv - 1 := en[dv - 1] + {ev}];
    forall d | 0 <= d < |en|
      ensures GrowEnc(en, {(dv, ev)}, ndata, nvar)[d] == en'[d] && GrowEnc(en, {(ev, dv)}, ndata, nvar)[d] == en'[d]
    {
      EncPartnersOne(dv, ev, ndata, nvar, d);
    }
  }

  /** The data partners that encoding variable ndata + 1 + k gains from the pair of dv and ev. */
  lemma DataPartnersOne(dv: int, ev: int, ndata: int, k: int)
    requires 1 <= dv <= ndata < ev && 0 <= k
    ensures Partners({(dv, ev)}, ndata + 1 + k, 1, ndata) == if k == ev - ndata - 1 then {dv} else {}
    ensures Partners({(ev, dv)}, ndata + 1 + k, 1, ndata) == if k == ev - ndata - 1 then {dv} else {}
  {
    PartnersOne(dv, ev, ndata + 1 + k, 1, ndata);
    PartnersOne(ev, dv, ndata + 1 + k, 1, ndata);
  }

  /** The encoding partners that data variable d + 1 gains from the pair of dv and ev. */
  lemma EncPartnersOne(dv: int, ev: int, ndata: int, nvar: int, d: int)
    requires 1 <= dv <= ndata < ev <= nvar && 0 <= d < ndata
    ensures Partners({(dv, ev)}, d + 1, ndata + 1, nvar) == if d == dv - 1 then {ev} else {}
    ensures Partners({(ev, dv)}, d + 1, ndata + 1, nvar) == if d == dv - 1 then {ev} else {}
  {
    PartnersOne(dv, ev, d + 1, ndata + 1, nvar);
    PartnersOne(ev, dv, d + 1, ndata + 1, nvar);
  }

  /** Two data variables, or two encoding variables, leave both tables as they are. */
  lemma GrowNone(dn: seq<set<int>>, en: seq<set<int>>, v1: int, v2: int, ndata: int, nvar: int)
    requires 1 <= v1 <= nvar && 1 <= v2 <= nvar && (v1 <= ndata <==> v2 <= ndata) && |en| == ndata
    ensures GrowData(dn, {(v1, v2)}, ndata) == dn
    ensures GrowEnc(en, {(v1, v2)}, ndata, nvar) == en
  {
    forall k | 0 <= k < |dn| ensures GrowData(dn, {(v1, v2)}, ndata)[k] == dn[k] {
      PartnersOne(v1, v2, ndata + 1 + k, 1, ndata);
    }
    forall d | 0 <= d < |en| ensures GrowEnc(en, {(v1, v2)}, ndata, nvar)[d] == en[d] {
      PartnersOne(v1, v2, d + 1, ndata + 1, nvar);
    }
  }

  lemma GrowEmpty(dn: seq<set<int>>, en: seq<set<int>>, ndata: int, nvar: int)
    ensures GrowData(dn, {}, ndata) == dn && GrowEnc(en, {}, ndata, nvar) == en
    ensures EncLinks({}, ndata) == {}
  {
    forall k | 0 <= k < |dn| ensures GrowData(dn, {}, ndata)[k] == dn[k] {
      assert Partners({}, ndata + 1 + k, 1, ndata) == {};
    }
    forall d | 0 <= d < |en| ensures GrowEnc(en, {}, ndata, nvar)[d] == en[d] {
      assert Partners({}, d + 1, ndata + 1, nvar) == {};
    }
  }

  /** The ordered pairs a < b of encoding variables that share the data neighbour whose set is s. */
  function SharedOf(s: set<int>): set<(int, int)>
  {
    set a, b | a in s && b in s && a < b :: (a, b)
  }

  /** The pairs that share one of the first n data variables. */
  function SharedLinks(en: seq<set<int>>, n: nat): set<(int, int)>
    requires n <= |en|
  {
    if n == 0 then {} else SharedLinks(en, n - 1) + SharedOf(en[n - 1])
  }

  /** The pairs es[p] < es[q] for the positions (p, q) before (x, y), row by row. */
  function Grid(es: seq<int>, x: int, y: int): set<(int, int)>
  {
    set p, q | 0 <= p < |es| && 0 <= q < |es| && Before(p, q, x, y) && es[p] < es[q] :: (es[p], es[q])
  }

  lemma GridStep(es: seq<int>, x: int, y: int)
    requires 0 <= x < |es| && 0 <= y < |es|
    ensures Grid(es, x, y + 1) == Grid(es, x, y) + (if es[x] < es[y] then {(es[x], es[y])} else {})
  {
    if es[x] < es[y] {
      assert (es[x], es[y]) in Grid(es, x, y + 1);
    }
  }

  lemma GridRow(es: seq<int>, x: int)
    requires 0 <= x < |es|
    ensures Grid(es, x, |es|) == Grid(es, x + 1, 0)
  {
  }

  /** Walking the whole grid of a set's elements gives every ordered pair of the set. */
  lemma GridAll(es: seq<int>, s: set<int>)
    requires forall v :: v in es <==> v in s
    ensures Grid(es, |es|, 0) == SharedOf(s)
  {
    forall pr | pr in SharedOf(s) ensures pr in Grid(es, |es|, 0) {
      var a, b :| a in s && b in s && a < b && pr == (a, b);
      var p :| 0 <= p < |es| && es[p] == a;
      var q :| 0 <= q < |es| && es[q] == b;
      assert (es[p], es[q]) in Grid(es, |es|, 0);
    }
  }

  /** e extends e0, and every edge appended after e0 has weight w. */
  ghost predicate Extends(e0: seq<Edge>, e: seq<Edge>, w: int)
  {
    |e0| <= |e| && e[..|e0|] == e0 && forall id | |e0| <= id < |e| :: e[id].weight == w
  }

  lemma ExtendsTrans(e0: seq<Edge>, e1: seq<Edge>, e2: seq<Edge>, w: int)
    requires Extends(e0, e1, w) && Extends(e1, e2, w)
    ensures Extends(e0, e2, w)
  {
    assert e2[..|e0|] == e2[..|e1|][..|e0|];
    forall id | |e0| <= id < |e2| ensures e2[id].weight == w {
      if id < |e1| {
        assert e2[id] == e2[..|e1|][id];
      }
    }
  }

  /** Appending a new edge whose key is unused keeps the edge table, the filing and the key map consistent. */
  lemma AppendKeeps(edges: seq<Edge>, unique: map<int, int>, encoded: seq<set<int>>, ndata: int, nvar: int,
                    vlow: int, vhigh: int, w: int)
    requires EdgesOk(edges, ndata, nvar) && Filed(edges, encoded, ndata) && KeysOk(edges, unique, ndata, nvar)
    requires |encoded| == nvar - ndata && ndata < vlow <= vhigh <= nvar && (w == Unit || w == Shared)
    requires Key(vlow, vhigh, ndata, nvar - ndata) !in unique
    ensures var eidx := |edges|;
            var edges' := edges + [Edge(vlow, vhigh, w)];
            var encoded' := encoded[vlow - ndata - 1 := encoded[vlow - ndata - 1] + {eidx}];
            var encoded'' := encoded'[vhigh - ndata - 1 := encoded'[vhigh - ndata - 1] + {eidx}];
            EdgesOk(edges', ndata, nvar) && Filed(edges', encoded'', ndata)
            && KeysOk(edges', unique[Key(vlow, vhigh, ndata, nvar - ndata) := eidx], ndata, nvar)
  {
    var eidx := |edges|;
    var edges' := edges + [Edge(vlow, vhigh, w)];
    var encoded' := encoded[vlow - ndata - 1 := encoded[vlow - ndata - 1] + {eidx}];
    var encoded'' := encoded'[vhigh - ndata - 1 := encoded'[vhigh - ndata - 1] + {eidx}];
    var unique' := unique[Key(vlow, vhigh, ndata, nvar - ndata) := eidx];
    assert forall id | 0 <= id < |edges| :: edges'[id] == edges[id];
    forall k | 0 <= k < |encoded''|
      ensures encoded''[k] == Incident(edges', ndata + 1 + k)
    {
      if k == vlow - ndata - 1 || k == vhigh - ndata - 1 {
        assert encoded''[k] == encoded[k] + {eidx};
      } else {
        assert encoded''[k] == encoded[k];
      }
    }
    assert KeysOk(edges', unique', ndata, nvar);
  }

  class Ordering {
    var nvar: int
    var ndata: int
    var verblevel: int
    var edgeList: seq<Edge>
    /** Key(vlow, vhigh) to the index of that edge in edgeList. */
    var uniqueEdge: map<int, int>
    /** For encoding variable v, at v - ndata - 1: the indices of its edges. */
    var encodedEdge: seq<set<int>>
    /** For encoding variable v, at v - ndata - 1: the data variables it shares a clause with. */
    var dataNeighbor: seq<set<int>>
    /** For data variable d, at d - 1: the encoding variables it shares a clause with. */
    var encodingNeighbor: seq<set<int>>

    /** The graph over the encoding variables: edges join encoding variables and are filed at both ends. */
    predicate Valid()
      reads this
    {
      0 <= ndata <= nvar && |encodedEdge| == nvar - ndata && |dataNeighbor| == nvar - ndata
      && EdgesOk(edgeList, ndata, nvar) && Filed(edgeList, encodedEdge, ndata)
      && DataOk(dataNeighbor, ndata)
    }

    /** While clauses are still being added: the key map indexes every edge and the neighbour tables mirror each other. */
    predicate Indexed()
      reads this
    {
      Valid() && |encodingNeighbor| == ndata
      && Mirrored(dataNeighbor, encodingNeighbor, ndata, nvar)
      && KeysOk(edgeList, uniqueEdge, ndata, nvar)
    }

    constructor (nv: int, nd: int, vlevel: int)
      requires 0 <= nd <= nv
      ensures Indexed() && nvar == nv && ndata == nd && verblevel == vlevel
      ensures edgeList == [] && uniqueEdge == map[]
      ensures forall k | 0 <= k < |dataNeighbor| :: encodedEdge[k] == {} && dataNeighbor[k] == {}
      ensures forall d | 0 <= d < |encodingNeighbor| :: encodingNeighbor[d] == {}
    {
      nvar := nv;
      ndata := nd;
      verblevel := vlevel;
      edgeList := [];
      uniqueEdge := map[];
      encodedEdge := seq(nv - nd, _ => {});
      dataNeighbor := seq(nv - nd, _ => {});
      encodingNeighbor := seq(nd, _ => {});
    }

    /** The edge (vlow, vhigh) with weight w, unless the pair already has one. */
    method AddEdge(vlow: int, vhigh: int, w: int)
      requires Indexed() && ndata < vlow <= vhigh <= nvar && (w == Unit || w == Shared)
      modifies this`edgeList, this`uniqueEdge, this`encodedEdge
      ensures Indexed()
      ensures Pairs(edgeList) == old(Pairs(edgeList)) + {(vlow, vhigh)}
      ensures Extends(old(edgeList), edgeList, w)
    {
      var uidx := Key(vlow, vhigh, ndata, nvar - ndata);
      if uidx !in uniqueEdge {
        var eidx := |edgeList|;
        AppendKeeps(edgeList, uniqueEdge, encodedEdge, ndata, nvar, vlow, vhigh, w);
        edgeList := edgeList + [Edge(vlow, vhigh, w)];
        uniqueEdge := uniqueEdge[uidx := eidx];
        encodedEdge := encodedEdge[vlow - ndata - 1 := encodedEdge[vlow - ndata - 1] + {eidx}];
        encodedEdge := encodedEdge[vhigh - ndata - 1 := encodedEdge[vhigh - ndata - 1] + {eidx}];
        assert Pairs(edgeList) == old(Pairs(edgeList)) + {(vlow, vhigh)} by {
          assert edgeList[eidx] == Edge(vlow, vhigh, w);
        }
      } else {
        var id := uniqueEdge[uidx];
        var e := edgeList[id];
        assert e in edgeList;
        KeyIdentifiesPair(e.node1, e.node2, vlow, vhigh, ndata, nvar);
        assert (vlow, vhigh) in Pairs(edgeList);
      }
    }

    /** Records that data variable dv and encoding variable ev share a clause, in both tables. */
    method AddNeighbors(dv: int, ev: int)
      requires Indexed() && 1 <= dv <= ndata < ev <= nvar
      modifies this`dataNeighbor, this`encodingNeighbor
      ensures Indexed()
      ensures dataNeighbor == old(dataNeighbor)[ev - ndata - 1 := old(dataNeighbor)[ev - ndata - 1] + {dv}]
      ensures encodingNeighbor == old(encodingNeighbor)[dv - 1 := old(encodingNeighbor)[dv - 1] + {ev}]
    {
      dataNeighbor := dataNeighbor[ev - ndata - 1 := dataNeighbor[ev - ndata - 1] + {dv}];
      encodingNeighbor := encodingNeighbor[dv - 1 := encodingNeighbor[dv - 1] + {ev}];
    }

    /**
     * One pair (v1, v2) of a clause's variables: a data variable and an encoding variable
     * become neighbours, two encoding variables get an edge of weight 1.0.
     */
    method LinkPair(v1: int, v2: int)
      requires Indexed() && 1 <= v1 <= nvar && 1 <= v2 <= nvar
      modifies this`edgeList, this`uniqueEdge, this`encodedEdge, this`dataNeighbor, this`encodingNeighbor
      ensures Indexed()
      ensures Pairs(edgeList) == old(Pairs(edgeList)) + EncLinks({(v1, v2)}, ndata)
      ensures Extends(old(edgeList), edgeList, Unit)
      ensures dataNeighbor == GrowData(old(dataNeighbor), {(v1, v2)}, ndata)
      ensures encodingNeighbor == GrowEnc(old(encodingNeighbor), {(v1, v2)}, ndata, nvar)
    {
      EncLinksOne(v1, v2, ndata);
      if v1 <= ndata && v2 > ndata {
        LinkData(v1, v2, true);
      } else if v1 > ndata && v2 <= ndata {
        LinkData(v2, v1, false);
      } else {
        GrowNone(dataNeighbor, encodingNeighbor, v1, v2, ndata, nvar);
        if v1 > ndata {
          AddEdge(if v1 <= v2 then v1 else v2, if v1 <= v2 then v2 else v1, Unit);
        }
      }
    }

    /** LinkPair for a data variable dv and an encoding variable ev, given in that order when dataFirst. */
    method LinkData(dv: int, ev: int, ghost dataFirst: bool)
      requires Indexed() && 1 <= dv <= ndata < ev <= nvar
      modifies this`dataNeighbor, this`encodingNeighbor
      ensures Indexed()
      ensures dataNeighbor == GrowData(old(dataNeighbor), {if dataFirst then (dv, ev) else (ev, dv)}, ndata)
      ensures encodingNeighbor == GrowEnc(old(encodingNeighbor), {if dataFirst then (dv, ev) else (ev, dv)}, ndata, nvar)
    {
      GrowOne(dataNeighbor, encodingNeighbor, dv, ev, ndata, nvar);
      AddNeighbors(dv, ev);
    }

    /**
     * Every pair of the clause's variables is linked: the graph gains an edge of weight 1.0
     * for each pair of encoding variables, and the neighbour tables gain each pair of a data
     * and an encoding variable.
     */
    method AddClause(ldata: seq<int>)
      requires Indexed() && forall i | 0 <= i < |ldata| :: 1 <= Abs(ldata[i]) <= nvar
      modifies this`edgeList, this`uniqueEdge, this`encodedEdge, this`dataNeighbor, this`encodingNeighbor
      ensures Indexed()
      ensures Pairs(edgeList) == old(Pairs(edgeList)) + EncLinks(ClausePairs(ldata), ndata)
      ensures Extends(old(edgeList), edgeList, Unit)
      ensures dataNeighbor == GrowData(old(dataNeighbor), ClausePairs(ldata), ndata)
      ensures encodingNeighbor == GrowEnc(old(encodingNeighbor), ClausePairs(ldata), ndata, nvar)
    {
      ghost var e0 := edgeList;
      ghost var dn0 := dataNeighbor;
      ghost var en0 := encodingNeighbor;
      GrowEmpty(dn0, en0, ndata, nvar);
      CoPairsNone(ldata);
      assert e0[..|e0|] == e0;
      assert LinkedSince(e0, dn0, en0, CoPairs(ldata, 0, 0));
      for i := 0 to |ldata|
        invariant LinkedSince(e0, dn0, en0, CoPairs(ldata, i, 0))
      {
        LinkRow(ldata, i, e0, dn0, en0);
      }
    }

    /** Since the graph and tables were e0, dn0 and en0, exactly the pairs co have been linked. */
    ghost predicate LinkedSince(e0: seq<Edge>, dn0: seq<set<int>>, en0: seq<set<int>>, co: set<(int, int)>)
      reads this
    {
      Indexed() &&
      Pairs(edgeList) == Pairs(e0) + EncLinks(co, ndata) &&
      Extends(e0, edgeList, Unit) &&
      dataNeighbor == GrowData(dn0, co, ndata) &&
      encodingNeighbor == GrowEnc(en0, co, ndata, nvar)
    }

    /** The pairs (i, j) for j > i, under the invariant of AddClause's outer loop. */
    method LinkRow(ldata: seq<int>, i: int, ghost e0: seq<Edge>, ghost dn0: seq<set<int>>, ghost en0: seq<set<int>>)
      requires Indexed() && forall p | 0 <= p < |ldata| :: 1 <= Abs(ldata[p]) <= nvar
      requires 0 <= i < |ldata|
      requires LinkedSince(e0, dn0, en0, CoPairs(ldata, i, 0))
      modifies this`edgeList, this`uniqueEdge, this`encodedEdge, this`dataNeighbor, this`encodingNeighbor
      ensures LinkedSince(e0, dn0, en0, CoPairs(ldata, i + 1, 0))
    {
      CoPairsRow(ldata, i);
      var v1 := Abs(ldata[i]);
      for j := i + 1 to |ldata|
        invariant LinkedSince(e0, dn0, en0, CoPairs(ldata, i, j))
      {
        var v2 := Abs(ldata[j]);
        ghost var co := CoPairs(ldata, i, j);
        CoPairsStep(ldata, i, j);
        EncLinksUnion(co, {(v1, v2)}, ndata);
        GrowUnion(dn0, en0, co, {(v1, v2)}, ndata, nvar);
        ghost var e1 := edgeList;
        LinkPair(v1, v2);
        ExtendsTrans(e0, e1, edgeList, Unit);
      }
    }

    /** Every ordered pair of the given encoding variables gets an edge of weight 0.75 unless it has one. */
    method LinkAll(es: seq<int>)
      requires Indexed() && forall p | 0 <= p < |es| :: ndata < es[p] <= nvar
      modifies this`edgeList, this`uniqueEdge, this`encodedEdge
      ensures Indexed()
      ensures Pairs(edgeList) == old(Pairs(edgeList)) + Grid(es, |es|, 0)
      ensures Extends(old(edgeList), edgeList, Shared)
    {
      ghost var e0 := edgeList;
      assert Grid(es, 0, 0) == {};
      for x := 0 to |es|
        invariant Indexed()
        invariant Pairs(edgeList) == Pairs(e0) + Grid(es, x, 0)
        invariant Extends(e0, edgeList, Shared)
      {
        LinkFrom(es, x, e0);
      }
    }

    /** The pairs (x, y) for every y, under the invariant of LinkAll's outer loop. */
    method LinkFrom(es: seq<int>, x: int, ghost e0: seq<Edge>)
      requires Indexed() && forall p | 0 <= p < |es| :: ndata < es[p] <= nvar
      requires 0 <= x < |es|
      requires Pairs(edgeList) == Pairs(e0) + Grid(es, x, 0)
      requires Extends(e0, edgeList, Shared)
      modifies this`edgeList, this`uniqueEdge, this`encodedEdge
      ensures Indexed()
      ensures Pairs(edgeList) == Pairs(e0) + Grid(es, x + 1, 0)
      ensures Extends(e0, edgeList, Shared)
    {
      for y := 0 to |es|
        invariant Indexed()
        invariant Pairs(edgeList) == Pairs(e0) + Grid(es, x, y)
        invariant Extends(e0, edgeList, Shared)
      {
        LinkCell(es, x, y, e0);
      }
      GridRow(es, x);
    }

    /** One turn of LinkFrom's loop: the pair (es[x], es[y]) gets its edge when es[x] < es[y]. */
    method LinkCell(es: seq<int>, x: int, y: int, ghost e0: seq<Edge>)
      requires Indexed() && forall p | 0 <= p < |es| :: ndata < es[p] <= nvar
      requires 0 <= x < |es| && 0 <= y < |es|
      requires Pairs(edgeList) == Pairs(e0) + Grid(es, x, y)
      requires Extends(e0, edgeList, Shared)
      modifies this`edgeList, this`uniqueEdge, this`encodedEdge
      ensures Indexed()
      ensures Pairs(edgeList) == Pairs(e0) + Grid(es, x, y + 1)
      ensures Extends(e0, edgeList, Shared)
    {
      GridStep(es, x, y);
      if es[x] < es[y] {
        ghost var e1 := edgeList;
        AddEdge(es[x], es[y], Shared);
        ExtendsTrans(e0, e1, edgeList, Shared);
      }
    }

    /**
     * Encoding variables that share a data neighbour get an edge of weight 0.75 unless they
     * already have one; the key map and the encoding-neighbour table are then dropped.
     */
    method AddWeights()
      requires Indexed()
      modifies this`edgeList, this`uniqueEdge, this`encodedEdge, this`encodingNeighbor
      ensures Valid()
      ensures Pairs(edgeList) == old(Pairs(edgeList)) + SharedLinks(old(encodingNeighbor), ndata)
      ensures Extends(old(edgeList), edgeList, Shared)
      ensures uniqueEdge == map[] && encodingNeighbor == []
    {
      ghost var e0 := edgeList;
      assert e0[..|e0|] == e0;
      for dv := 1 to ndata + 1
        invariant SharedSince(e0, dv - 1) && encodingNeighbor == old(encodingNeighbor)
      {
        LinkShared(e0, dv);
      }
      uniqueEdge := map[];
      encodingNeighbor := [];
    }

    /** Since the graph was e0, the shared-neighbour edges of the first upto data variables have been added. */
    ghost predicate SharedSince(e0: seq<Edge>, upto: int)
      reads this
    {
      Indexed() && 0 <= upto <= ndata &&
      Pairs(edgeList) == Pairs(e0) + SharedLinks(encodingNeighbor, upto) &&
      Extends(e0, edgeList, Shared)
    }

    /** One turn of AddWeights' loop: the encoding neighbours of data variable dv are linked pairwise. */
    method LinkShared(ghost e0: seq<Edge>, dv: int)
      requires 1 <= dv <= ndata && SharedSince(e0, dv - 1)
      modifies this`edgeList, this`uniqueEdge, this`encodedEdge
      ensures SharedSince(e0, dv)
    {
      var es := Elements(encodingNeighbor[dv - 1]);
      forall p | 0 <= p < |es| ensures ndata < es[p] <= nvar {
        assert es[p] in es;
        assert es[p] in encodingNeighbor[dv - 1];
      }
      ghost var e1 := edgeList;
      LinkAll(es);
      ExtendsTrans(e0, e1, edgeList, Shared);
      GridAll(es, encodingNeighbor[dv - 1]);
    }

    /**
     * Dijkstra's algorithm from encoding variable vsource over the graph: the nodes in the
     * order they are settled, their exact distances (in quarters; inf stands for nvar - ndata
     * edges of weight 1.0), and the sum of those distances. The distances handed back in
     * length are the exact ones truncated to whole units, as the vector<int> stores them. With
     * allNodes, the nodes never reached follow, at distance inf, when some are missing.
     */
    method ShortestPaths(vsource: int, allNodes: bool) returns (visited: seq<int>, length: seq<int>, dsum: int, ghost exact: seq<int>)
      requires Valid() && ndata < vsource <= nvar
      ensures ShortestOrder(edgeList, visited, exact, ndata, nvar, vsource)
      ensures length == Whole(exact)
      ensures dsum == SumBelow(exact, Unit * (nvar - ndata))
      ensures !allNodes ==> forall k | 0 <= k < |exact| :: exact[k] < Unit * (nvar - ndata)
      ensures allNodes ==> forall v :: v in visited <==> ndata < v <= nvar
    {
      var nencode := nvar - ndata;
      var sofar, quarters;
      visited, quarters, dsum, sofar := Search(edgeList, encodedEdge, ndata, nvar, vsource);
      if allNodes && |visited| < nencode {
        visited, quarters := AppendUnreached(edgeList, sofar, visited, quarters, ndata, nvar, vsource);
      } else if allNodes {
        AllSettled(visited, ndata, nvar);
      }
      exact := quarters;
      length := Whole(quarters);
    }

    /**
     * An order of the encoding variables: ascending when there are fewer than NodeThreshold,
     * otherwise by distance from a corner of the graph. Each of min(nencode, StartCount) tries
     * starts at a node picked by a draw of random() (draws[t] for try t) and hops up to MaxHop
     * times to the farthest node, while the farthest distance in whole units (then the exact
     * distance sum) grows; the best corner found is the source of the final search.
     */
    method OrderEncoded(draws: seq<int>) returns (evar: seq<int>)
      requires Indexed()
      requires |draws| >= StartCount && forall t | 0 <= t < |draws| :: 0 <= draws[t] <= RandMax
      modifies this`edgeList, this`uniqueEdge, this`encodedEdge, this`encodingNeighbor
      ensures Valid() && dataNeighbor == old(dataNeighbor)
      ensures Distinct(evar) && forall v :: v in evar <==> ndata < v <= nvar
      ensures nvar - ndata < NodeThreshold ==> evar == Ascending(ndata + 1, nvar - ndata)
      ensures nvar - ndata >= NodeThreshold ==>
                Pairs(edgeList) == old(Pairs(edgeList)) + SharedLinks(old(encodingNeighbor), ndata)
                && 0 < |evar| && exists length :: ShortestOrder(edgeList, evar, length, ndata, nvar, evar[0])
    {
      var nencode := nvar - ndata;
      if nencode < NodeThreshold {
        evar := [];
        for ev := ndata + 1 to nvar + 1
          invariant evar == Ascending(ndata + 1, ev - ndata - 1)
        {
          evar := evar + [ev];
        }
        return;
      }
      AddWeights();
      var bestSource := ndata + 1;
      var bestDistance, bestSum := 0, 0;
      var tries := if nencode < StartCount then nencode else StartCount;
      for t := 0 to tries
        invariant ndata < bestSource <= nvar
        modifies {}
      {
        var vsource := Start(draws[t], ndata, nencode);
        var hdistance, hsum := 0, 0;
        var hop := 0;
        while hop < MaxHop
          invariant ndata < vsource <= nvar
          modifies {}
        {
          var length, dsum;
          ghost var exact;
          evar, length, dsum, exact := ShortestPaths(vsource, false);
          var dist := length[|length| - 1];
          if dist > hdistance || (dist == hdistance && dsum > hsum) {
            vsource := evar[|evar| - 1];
            hdistance, hsum := dist, dsum;
          } else {
            break;
          }
          hop := hop + 1;
        }
        if hdistance > bestDistance || (hdistance == bestDistance && hsum > bestSum) {
          bestSource, bestDistance, bestSum := vsource, hdistance, hsum;
        }
      }
      var length, dsum;
      ghost var exact;
      evar, length, dsum, exact := ShortestPaths(bestSource, true);
    }

    /**
     * The variable order for bucket elimination: each encoding variable in the order of
     * OrderEncoded, followed by those of its data neighbours not yet placed, then the data
     * variables that neighbour no encoding variable, in ascending order. draws stands for the
     * values random() returns after srandom(seed).
     */
    method GenerateOrdering(draws: seq<int>) returns (result: seq<int>)
      requires Indexed()
      requires |draws| >= StartCount && forall t | 0 <= t < |draws| :: 0 <= draws[t] <= RandMax
      modifies this`edgeList, this`uniqueEdge, this`encodedEdge, this`encodingNeighbor
      ensures Valid() && dataNeighbor == old(dataNeighbor)
      ensures Distinct(result) && forall v :: v in result <==> 1 <= v <= nvar
      ensures |result| == nvar
      ensures NeighboursFirst(result, dataNeighbor, ndata)
      ensures nvar - ndata >= NodeThreshold ==>
                0 < |result| && exists length :: ShortestOrder(edgeList, EncodingPart(result, ndata), length, ndata, nvar, result[0])
    {
      var evar := OrderEncoded(draws);
      result := Interleave(evar, dataNeighbor, ndata, nvar);
    }
  }
}
/**
 * The (order, repetition) pairs the Zernike feature set computes, in the
 * order its nested loops visit them, and the two feature names of each pair.
 */
module FeatureNames {
  import opened Numerics
  import opened Decimal

  datatype Pair = Pair(order: nat, repetition: nat)

  /** A pair the loops keep: order in [lo, hi], 0 <= repetition <= order, of equal parity. */
  predicate IsLegal(lo: int, hi: int, p: Pair)
  {
    lo <= p.order <= hi && p.repetition <= p.order && Abs(p.order - p.repetition) % 2 == 0
  }

  /** The pairs the inner loop keeps for one order, repetitions 0 .. upto - 1. */
  function RowPairs(order: int, upto: nat): seq<Pair>
    requires upto == 0 || upto <= order + 1
  {
    if upto == 0 then []
    else RowPairs(order, upto - 1) + (if Abs(order - (upto - 1)) % 2 == 0 then [Pair(order, upto - 1)] else [])
  }

  /** The pairs both loops keep for orders lo .. hi, in visiting order. */
  function LegalPairs(lo: int, hi: int): seq<Pair>
    decreases hi - lo
  {
    if hi < lo then []
    else LegalPairs(lo, hi - 1) + (if hi >= 0 then RowPairs(hi, hi + 1) else [])
  }

  /** Some pair is kept exactly when the range of orders holds a non-negative order. */
  lemma LegalPairsNonEmpty(lo: int, hi: int)
    ensures LegalPairs(lo, hi) != [] <==> lo <= hi && 0 <= hi
  {
    if lo <= hi && 0 <= hi {
      LegalPairsMembership(lo, hi, Pair(hi, hi % 2));
    } else if LegalPairs(lo, hi) != [] {
      var p := LegalPairs(lo, hi)[0];
      LegalPairsMembership(lo, hi, p);
    }
  }

  lemma {:induction false} RowPairsMembership(order: int, upto: nat, p: Pair)
    requires upto == 0 || upto <= order + 1
    ensures p in RowPairs(order, upto) <==>
      p.order == order && p.repetition < upto && Abs(order - p.repetition) % 2 == 0
  {
    if upto > 0 {
      RowPairsMembership(order, upto - 1, p);
    }
  }

  /** A pair is produced exactly when it is legal. */
  lemma {:induction false} LegalPairsMembership(lo: int, hi: int, p: Pair)
    ensures p in LegalPairs(lo, hi) <==> IsLegal(lo, hi, p)
    decreases hi - lo
  {
    if hi >= lo {
      LegalPairsMembership(lo, hi - 1, p);
      if hi >= 0 {
        RowPairsMembership(hi, hi + 1, p);
      }
    }
  }

  /** Lexicographic order on (order, repetition). */
  predicate Before(p: Pair, q: Pair)
  {
    p.order < q.order || (p.order == q.order && p.repetition < q.repetition)
  }

  predicate Ascending(ps: seq<Pair>)
  {
    forall i, j :: 0 <= i < j < |ps| ==> Before(ps[i], ps[j])
  }

  lemma {:induction false} RowPairsAscending(order: int, upto: nat)
    requires upto == 0 || upto <= order + 1
    ensures Ascending(RowPairs(order, upto))
  {
    if upto > 0 {
      RowPairsAscending(order, upto - 1);
      var init := RowPairs(order, upto - 1);
      forall i | 0 <= i < |init|
        ensures Before(init[i], Pair(order, upto - 1))
      {
        RowPairsMembership(order, upto - 1, init[i]);
      }
    }
  }

  /** The pairs come out strictly ascending, so none is visited twice. */
  lemma {:induction false} LegalPairsAscending(lo: int, hi: int)
    ensures Ascending(LegalPairs(lo, hi))
    decreases hi - lo
  {
    if hi >= lo {
      LegalPairsAscending(lo, hi - 1);
      if hi >= 0 {
        var a, b := LegalPairs(lo, hi - 1), RowPairs(hi, hi + 1);
        RowPairsAscending(hi, hi + 1);
        forall i, j | 0 <= i < |a| && 0 <= j < |b|
          ensures Before(a[i], b[j])
        {
          LegalPairsMembership(lo, hi - 1, a[i]);
          RowPairsMembership(hi, hi + 1, b[j]);
        }
        assert forall i, j :: 0 <= i < j < |a + b| ==> Before((a + b)[i], (a + b)[j]);
      }
    }
  }

  lemma {:induction false} RowPairsCount(order: int, upto: nat)
    requires upto == 0 || upto <= order + 1
    ensures |RowPairs(order, upto)| == (upto + 1 - order % 2) / 2
  {
    if upto > 0 {
      RowPairsCount(order, upto - 1);
    }
  }

  /** floor(k^2 / 4): the number of legal pairs of all orders below k - 1. */
  function Quarter(k: int): int
  {
    k * k / 4
  }

  /** Order h adds floor(h / 2) + 1 pairs. */
  lemma QuarterStep(h: nat)
    ensures Quarter(h + 2) - Quarter(h + 1) == h / 2 + 1
  {
    var j := h / 2;
    var a := j + 1;
    if h % 2 == 0 {
      assert h + 2 == 2 * a && h + 1 == 2 * j + 1;
      Square(2, a);
      SquareOdd(j);
      QuarterOf(4 * (a * a), a * a, 0);
      QuarterOf(4 * (j * j + j) + 1, j * j + j, 1);
    } else {
      assert h + 2 == 2 * a + 1 && h + 1 == 2 * a;
      SquareOdd(a);
      Square(2, a);
      QuarterOf(4 * (a * a + a) + 1, a * a + a, 1);
      QuarterOf(4 * (a * a), a * a, 0);
    }
  }

  lemma Square(k: int, a: int)
    ensures (k * a) * (k * a) == (k * k) * (a * a)
  {
  }

  lemma SquareOdd(j: int)
    ensures (2 * j + 1) * (2 * j + 1) == 4 * (j * j + j) + 1
  {
  }

  lemma QuarterOf(x: int, q: int, r: int)
    requires x == 4 * q + r && 0 <= r < 4
    ensures x / 4 == q
  {
  }

  /**
   * The number of pairs for orders lo .. hi: sum of floor(n / 2) + 1 over the
   * non-negative orders, in closed form; none when lo > hi.
   */
  lemma {:induction false} LegalPairsCount(lo: int, hi: int)
    ensures |LegalPairs(lo, hi)| ==
      if hi < lo || hi < 0 then 0 else Quarter(hi + 2) - Quarter(if lo < 0 then 1 else lo + 1)
    decreases hi - lo
  {
    if hi >= lo {
      LegalPairsCount(lo, hi - 1);
      if hi >= 0 {
        RowPairsCount(hi, hi + 1);
        QuarterStep(hi);
        assert |RowPairs(hi, hi + 1)| == hi / 2 + 1;
      }
    }
  }

  const MagPrefix := "DNZernikeMag_Order_"
  const PhasePrefix := "DNZernikePhase_Order_"
  const RepInfix := "_Rep_"

  /** The name of one feature of a pair: prefix, order, "_Rep_", repetition. */
  function Name(prefix: string, p: Pair): string
  {
    prefix + NatToString(p.order) + RepInfix + NatToString(p.repetition)
  }

  function MagName(p: Pair): string
  {
    Name(MagPrefix, p)
  }

  function PhaseName(p: Pair): string
  {
    Name(PhasePrefix, p)
  }

  /** The feature names of a sequence of pairs: magnitude then phase, pair by pair. */
  function NamesOf(ps: seq<Pair>): (names: seq<string>)
    ensures |names| == 2 * |ps|
  {
    seq(2 * |ps|, k requires 0 <= k < 2 * |ps| => if k % 2 == 0 then MagName(ps[k / 2]) else PhaseName(ps[k / 2]))
  }

  /** Two digit strings followed by "_Rep_" and anything split the same way. */
  lemma SplitAtInfix(a1: string, b1: string, a2: string, b2: string)
    requires AllDigits(a1) && AllDigits(a2)
    requires a1 + RepInfix + b1 == a2 + RepInfix + b2
    ensures a1 == a2 && b1 == b2
  {
    var t := a1 + RepInfix + b1;
    if |a1| < |a2| {
      InfixAt(a1, b1);
      DigitAt(a2, b2, |a1|);
    } else if |a2| < |a1| {
      InfixAt(a2, b2);
      DigitAt(a1, b1, |a2|);
    } else {
      assert a1 == t[..|a1|] == a2;
      assert b1 == t[|a1| + 5..] == b2;
    }
  }

  lemma InfixAt(a: string, b: string)
    ensures (a + RepInfix + b)[|a|] == '_'
  {
  }

  lemma DigitAt(a: string, b: string, k: nat)
    ensures k < |a| && AllDigits(a) ==> IsDigit((a + RepInfix + b)[k])
  {
  }

  /** A name determines its pair. */
  lemma NameInjective(prefix: string, p: Pair, q: Pair)
    requires Name(prefix, p) == Name(prefix, q)
    ensures p == q
  {
    var a1, b1 := NatToString(p.order), NatToString(p.repetition);
    var a2, b2 := NatToString(q.order), NatToString(q.repetition);
    var n := |prefix|;
    assert prefix + a1 + RepInfix + b1 == prefix + (a1 + RepInfix + b1);
    assert prefix + a2 + RepInfix + b2 == prefix + (a2 + RepInfix + b2);
    assert a1 + RepInfix + b1 == Name(prefix, p)[n..] == a2 + RepInfix + b2;
    SplitAtInfix(a1, b1, a2, b2);
    NatToStringInjective(p.order, q.order);
    NatToStringInjective(p.repetition, q.repetition);
  }

  /** A magnitude name is never a phase name: they differ after "DNZernike". */
  lemma MagNotPhase(p: Pair, q: Pair)
    ensures MagName(p) != PhaseName(q)
  {
    assert MagName(p)[9] == 'M';
    assert PhaseName(q)[9] == 'P';
  }

  /** The magnitude (mag) or phase name of a pair. */
  function FeatureName(mag: bool, p: Pair): string
  {
    if mag then MagName(p) else PhaseName(p)
  }

  /** Names differ unless they are the same kind of name of the same pair. */
  lemma FeatureNameInjective(m1: bool, p1: Pair, m2: bool, p2: Pair)
    requires FeatureName(m1, p1) == FeatureName(m2, p2)
    ensures m1 == m2 && p1 == p2
  {
    if m1 && m2 {
      NameInjective(MagPrefix, p1, p2);
    } else if !m1 && !m2 {
      NameInjective(PhasePrefix, p1, p2);
    } else if m1 {
      MagNotPhase(p1, p2);
    } else {
      MagNotPhase(p2, p1);
    }
  }

  lemma NameAt(ps: seq<Pair>, k: nat)
    requires k < |NamesOf(ps)|
    ensures k / 2 < |ps| && NamesOf(ps)[k] == FeatureName(k % 2 == 0, ps[k / 2])
  {
    if k % 2 == 0 {
      assert k == 2 * (k / 2);
    } else {
      assert k == 2 * (k / 2) + 1;
    }
  }

  /** Distinct pairs give distinct names, so the name list has no repeats. */
  lemma NamesDistinct(ps: seq<Pair>)
    requires Ascending(ps)
    ensures forall i, j :: 0 <= i < j < |NamesOf(ps)| ==> NamesOf(ps)[i] != NamesOf(ps)[j]
  {
    var names := NamesOf(ps);
    forall i, j | 0 <= i < j < |names|
      ensures names[i] != names[j]
    {
      NameAt(ps, i);
      NameAt(ps, j);
      if names[i] == names[j] {
        FeatureNameInjective(i % 2 == 0, ps[i / 2], j % 2 == 0, ps[j / 2]);
      }
    }
  }

  /** A name is in the list exactly when its pair is. */
  lemma NameInNames(ps: seq<Pair>, mag: bool, p: Pair)
    ensures FeatureName(mag, p) in NamesOf(ps) <==> p in ps
  {
    var names := NamesOf(ps);
    if p in ps {
      var i :| 0 <= i < |ps| && ps[i] == p;
      var k := if mag then 2 * i else 2 * i + 1;
      NameAt(ps, k);
    }
    if FeatureName(mag, p) in names {
      var k :| 0 <= k < |names| && names[k] == FeatureName(mag, p);
      NameAt(ps, k);
      FeatureNameInjective(mag, p, k % 2 == 0, ps[k / 2]);
    }
  }

  /** The names a feature set with orders lo .. hi reports: each legal pair's two names, without repeats. */
  lemma FeatureNamesProperties(lo: int, hi: int)
    ensures var names := NamesOf(LegalPairs(lo, hi));
      && (forall p :: MagName(p) in names <==> IsLegal(lo, hi, p))
      && (forall p :: PhaseName(p) in names <==> IsLegal(lo, hi, p))
      && (forall i, j :: 0 <= i < j < |names| ==> names[i] != names[j])
  {
    var ps := LegalPairs(lo, hi);
    LegalPairsAscending(lo, hi);
    NamesDistinct(ps);
    forall p
      ensures MagName(p) in NamesOf(ps) <==> IsLegal(lo, hi, p)
      ensures PhaseName(p) in NamesOf(ps) <==> IsLegal(lo, hi, p)
    {
      LegalPairsMembership(lo, hi, p);
      NameInNames(ps, true, p);
      NameInNames(ps, false, p);
    }
  }

  /** The default orders 2 .. 4 give seven pairs and fourteen names. */
  lemma DefaultPairs()
    ensures LegalPairs(2, 4) == [Pair(2, 0), Pair(2, 2), Pair(3, 1), Pair(3, 3), Pair(4, 0), Pair(4, 2), Pair(4, 4)]
    ensures |NamesOf(LegalPairs(2, 4))| == 14
  {
    RowOfTwo();
    RowOfThree();
    RowOfFour();
    assert LegalPairs(2, 1) == [];
    assert LegalPairs(2, 2) == RowPairs(2, 3);
    assert LegalPairs(2, 3) == RowPairs(2, 3) + RowPairs(3, 4);
  }

  lemma RowOfTwo()
    ensures RowPairs(2, 3) == [Pair(2, 0), Pair(2, 2)]
  {
    assert RowPairs(2, 1) == [Pair(2, 0)];
    assert RowPairs(2, 2) == [Pair(2, 0)];
  }

  lemma RowOfThree()
    ensures RowPairs(3, 4) == [Pair(3, 1), Pair(3, 3)]
  {
    assert RowPairs(3, 1) == [];
    assert RowPairs(3, 2) == [Pair(3, 1)];
    assert RowPairs(3, 3) == [Pair(3, 1)];
  }

  lemma RowOfFour()
    ensures RowPairs(4, 5) == [Pair(4, 0), Pair(4, 2), Pair(4, 4)]
  {
    assert RowPairs(4, 1) == [Pair(4, 0)];
    assert RowPairs(4, 2) == [Pair(4, 0)];
    assert RowPairs(4, 3) == [Pair(4, 0), Pair(4, 2)];
    assert RowPairs(4, 4) == [Pair(4, 0), Pair(4, 2)];
  }

}

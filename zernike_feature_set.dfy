/**
 * The double normalised Zernike feature set: the names of the features it
 * reports for a range of orders, and the map from each name to the magnitude
 * or phase of the corresponding moment.
 */
module ZernikeFeatureSet {
  import opened Numerics
  import opened ComplexValues
  import opened DualCircle
  import opened ZernikeEngine
  import opened FeatureNames

  /** Both circles are set and the inner one has a positive radius. */
  predicate CirclesReady(inner: Option<Circle>, outer: Option<Circle>)
  {
    inner.Some? && outer.Some? && inner.value.radius > 0.0
  }

  /** The moment of one pair over the samples, normalised with the computer's default ratio. */
  function PairMoment(lm: Libm, inner: Circle, outer: Circle, samples: seq<Sample>, p: Pair): ZernikeMoment
    requires Sound(lm) && inner.radius > 0.0
  {
    MomentOf(lm, SetupFor(inner, outer, DefaultRatio), p.order, p.repetition, samples)
  }

  /** The two values calculate stores for one moment. */
  datatype Reading = Reading(magnitude: Double, phase: Double)

  /** The magnitude and phase of one pair's moment. */
  function PairReading(lm: Libm, inner: Circle, outer: Circle, samples: seq<Sample>, p: Pair): Reading
    requires Sound(lm) && inner.radius > 0.0
  {
    var moment := PairMoment(lm, inner, outer, samples, p);
    Reading(Magnitude(lm, moment.zm), Phase(lm, moment.zm))
  }

  /**
   * The reading of every pair over one input. calculate reads a pair only once
   * both circles are set; before that no pair is read and NaN stands in.
   */
  function Reader(lm: Libm, inner: Option<Circle>, outer: Option<Circle>, samples: seq<Sample>): Pair -> Reading
    requires Sound(lm)
  {
    p => if CirclesReady(inner, outer) then PairReading(lm, inner.value, outer.value, samples, p) else Reading(NaN, NaN)
  }

  /**
   * The map built by putting, pair by pair, each reading's magnitude and phase
   * under the pair's two names; a later put replaces an earlier one.
   */
  function FeatureMap(read: Pair -> Reading, ps: seq<Pair>): map<string, Double>
  {
    if |ps| == 0 then map[]
    else
      var p := ps[|ps| - 1];
      FeatureMap(read, ps[..|ps| - 1])[MagName(p) := read(p).magnitude][PhaseName(p) := read(p).phase]
  }

  /** The keys of the map are exactly the names reported for the pairs. */
  lemma {:induction false} FeatureMapKeys(read: Pair -> Reading, ps: seq<Pair>)
    ensures FeatureMap(read, ps).Keys == set k | k in NamesOf(ps)
  {
    if |ps| > 0 {
      var init := ps[..|ps| - 1];
      var p := ps[|ps| - 1];
      FeatureMapKeys(read, init);
      NamesOfSnoc(init, p);
      assert init + [p] == ps;
    } else {
      assert NamesOf(ps) == [];
    }
  }

  /** With no pair repeated, each pair's reading stays under its names: no later put overwrites it. */
  lemma {:induction false} FeatureMapValues(read: Pair -> Reading, ps: seq<Pair>, i: nat)
    requires Ascending(ps) && i < |ps|
    ensures var fm := FeatureMap(read, ps);
      && MagName(ps[i]) in fm && fm[MagName(ps[i])] == read(ps[i]).magnitude
      && PhaseName(ps[i]) in fm && fm[PhaseName(ps[i])] == read(ps[i]).phase
  {
    var last := |ps| - 1;
    if i < last {
      var init := ps[..last];
      assert Ascending(init);
      FeatureMapValues(read, init, i);
      assert Before(ps[i], ps[last]);
      MagNotPhase(ps[i], ps[last]);
      MagNotPhase(ps[last], ps[i]);
      if MagName(ps[i]) == MagName(ps[last]) {
        NameInjective(MagPrefix, ps[i], ps[last]);
      }
      if PhaseName(ps[i]) == PhaseName(ps[last]) {
        NameInjective(PhasePrefix, ps[i], ps[last]);
      }
    }
  }

  /** A sequence without repeats has as many distinct elements as it is long. */
  lemma {:induction false} DistinctCount(names: seq<string>)
    requires forall i, j :: 0 <= i < j < |names| ==> names[i] != names[j]
    ensures |set k | k in names| == |names|
  {
    if |names| > 0 {
      var init := names[..|names| - 1];
      var last := names[|names| - 1];
      DistinctCount(init);
      assert (set k | k in names) == (set k | k in init) + {last};
      assert last !in init;
    } else {
      assert (set k | k in names) == {};
    }
  }

  /**
   * calculate and getFeatures agree: the map has one entry per reported name,
   * 2 (floor(n / 2) + 1) for each order n in range, with the magnitude and
   * phase of the right pair under each pair's names.
   */
  lemma CalculateMatchesFeatures(read: Pair -> Reading, lo: int, hi: int)
    ensures var fm := FeatureMap(read, LegalPairs(lo, hi));
      && fm.Keys == (set k | k in NamesOf(LegalPairs(lo, hi)))
      && |fm| == 2 * |LegalPairs(lo, hi)|
      && forall p :: IsLegal(lo, hi, p) ==>
           && MagName(p) in fm && fm[MagName(p)] == read(p).magnitude
           && PhaseName(p) in fm && fm[PhaseName(p)] == read(p).phase
  {
    var ps := LegalPairs(lo, hi);
    FeatureMapKeys(read, ps);
    FeatureNamesProperties(lo, hi);
    DistinctCount(NamesOf(ps));
    LegalPairsAscending(lo, hi);
    forall p | IsLegal(lo, hi, p)
      ensures var fm := FeatureMap(read, ps);
        && MagName(p) in fm && fm[MagName(p)] == read(p).magnitude
        && PhaseName(p) in fm && fm[PhaseName(p)] == read(p).phase
    {
      LegalPairsMembership(lo, hi, p);
      var i :| 0 <= i < |ps| && ps[i] == p;
      FeatureMapValues(read, ps, i);
    }
  }

  /**
   * The map calculate holds once its two loops have visited every repetition
   * of the orders lo .. order - 1 and the repetitions 0 .. repetition - 1 of order.
   */
  function MapAfter(read: Pair -> Reading, lo: int, order: int, repetition: nat): map<string, Double>
    requires lo <= order && (repetition == 0 || repetition <= order + 1)
    decreases order - lo, repetition
  {
    if repetition == 0 then
      if order == lo then map[] else MapAfter(read, lo, order - 1, if order - 1 >= 0 then order else 0)
    else
      var p := Pair(order, repetition - 1);
      var m := MapAfter(read, lo, order, repetition - 1);
      if Abs(order - (repetition - 1)) % 2 == 0 then m[MagName(p) := read(p).magnitude][PhaseName(p) := read(p).phase]
      else m
  }

  /** One more repetition puts the pair's reading when the pair is kept, and changes nothing otherwise. */
  lemma MapAfterStep(read: Pair -> Reading, lo: int, order: int, repetition: nat)
    requires lo <= order && repetition <= order
    ensures var p := Pair(order, repetition);
      MapAfter(read, lo, order, repetition + 1) ==
        if Abs(order - repetition) % 2 == 0
        then MapAfter(read, lo, order, repetition)[MagName(p) := read(p).magnitude][PhaseName(p) := read(p).phase]
        else MapAfter(read, lo, order, repetition)
  {
  }

  /** The pairs the loops have visited, kept or not, when they reach (order, repetition). */
  function Visited(lo: int, order: int, repetition: nat): seq<Pair>
    requires lo <= order && (repetition == 0 || repetition <= order + 1)
    decreases order - lo, repetition
  {
    if repetition == 0 then
      if order == lo then [] else Visited(lo, order - 1, if order - 1 >= 0 then order else 0)
    else
      var p := Pair(order, repetition - 1);
      if Abs(order - (repetition - 1)) % 2 == 0 then Visited(lo, order, repetition - 1) + [p]
      else Visited(lo, order, repetition - 1)
  }

  /** The loops visit the rows in order: whole rows before order, then the start of row order. */
  lemma {:induction false} VisitedRows(lo: int, order: int, repetition: nat)
    requires lo <= order && (repetition == 0 || repetition <= order + 1)
    ensures Visited(lo, order, repetition) == LegalPairs(lo, order - 1) + RowPairs(order, repetition)
    decreases order - lo, repetition
  {
    if repetition == 0 {
      RowStart(lo, order);
      if order > lo {
        VisitedRows(lo, order - 1, if order - 1 >= 0 then order else 0);
      }
    } else {
      VisitedRows(lo, order, repetition - 1);
      VisitRepetition(lo, order, repetition - 1);
      if Abs(order - (repetition - 1)) % 2 != 0 {
        assert LegalPairs(lo, order - 1) + RowPairs(order, repetition - 1) + [] ==
          LegalPairs(lo, order - 1) + RowPairs(order, repetition - 1);
      }
    }
  }

  /** The loops' map at any point is the map of the pairs visited so far. */
  lemma {:induction false} MapAfterIsFeatureMap(read: Pair -> Reading, lo: int, order: int, repetition: nat)
    requires lo <= order && (repetition == 0 || repetition <= order + 1)
    ensures MapAfter(read, lo, order, repetition) == FeatureMap(read, Visited(lo, order, repetition))
    decreases order - lo, repetition
  {
    if repetition == 0 {
      if order > lo {
        MapAfterIsFeatureMap(read, lo, order - 1, if order - 1 >= 0 then order else 0);
      }
    } else {
      var previous := repetition - 1;
      VisitStep(read, lo, order, previous);
      MapAfterStep(read, lo, order, previous);
      MapAfterIsFeatureMap(read, lo, order, previous);
    }
  }

  /** One more repetition puts the pair's reading when the pair is kept, and changes nothing otherwise. */
  lemma VisitStep(read: Pair -> Reading, lo: int, order: int, repetition: nat)
    requires lo <= order && repetition <= order
    ensures var p := Pair(order, repetition);
      FeatureMap(read, Visited(lo, order, repetition + 1)) ==
        if Abs(order - repetition) % 2 == 0
        then FeatureMap(read, Visited(lo, order, repetition))[MagName(p) := read(p).magnitude][PhaseName(p) := read(p).phase]
        else FeatureMap(read, Visited(lo, order, repetition))
  {
    if Abs(order - repetition) % 2 == 0 {
      FeatureMapSnoc(read, Visited(lo, order, repetition), Pair(order, repetition));
    }
  }

  /** Before a row starts, the pairs visited are those of the rows before it. */
  lemma RowStart(lo: int, order: int)
    requires lo <= order
    ensures LegalPairs(lo, order - 1) + RowPairs(order, 0) ==
      if order == lo then [] else LegalPairs(lo, order - 2) + RowPairs(order - 1, if order - 1 >= 0 then order else 0)
  {
    assert LegalPairs(lo, order - 1) + [] == LegalPairs(lo, order - 1);
    assert LegalPairs(lo, order - 2) + [] == LegalPairs(lo, order - 2);
  }

  /** One more put of a pair's reading. */
  lemma FeatureMapSnoc(read: Pair -> Reading, ps: seq<Pair>, p: Pair)
    ensures FeatureMap(read, ps + [p]) == FeatureMap(read, ps)[MagName(p) := read(p).magnitude][PhaseName(p) := read(p).phase]
  {
    assert (ps + [p])[..|ps|] == ps;
  }

  /** When the loops end, the map is the map of all the legal pairs. */
  lemma MapAfterAll(read: Pair -> Reading, lo: int, hi: int, order: int)
    requires lo <= order && (order == hi + 1 || (order == lo && lo > hi))
    ensures MapAfter(read, lo, order, 0) == FeatureMap(read, LegalPairs(lo, hi))
  {
    MapAfterIsFeatureMap(read, lo, order, 0);
    VisitedRows(lo, order, 0);
    assert LegalPairs(lo, order - 1) + RowPairs(order, 0) == LegalPairs(lo, order - 1);
  }

  lemma NamesOfSnoc(ps: seq<Pair>, p: Pair)
    ensures NamesOf(ps + [p]) == NamesOf(ps) + [MagName(p), PhaseName(p)]
  {
    var a, b := NamesOf(ps + [p]), NamesOf(ps) + [MagName(p), PhaseName(p)];
    forall k | 0 <= k < |a|
      ensures a[k] == b[k]
    {
      if k < 2 * |ps| {
        assert (ps + [p])[k / 2] == ps[k / 2];
      }
    }
  }

  /** Visiting one more repetition of a row appends that pair when it is kept. */
  lemma VisitRepetition(lo: int, order: int, repetition: nat)
    requires repetition <= order
    ensures LegalPairs(lo, order - 1) + RowPairs(order, repetition + 1) ==
      LegalPairs(lo, order - 1) + RowPairs(order, repetition) +
        (if Abs(order - repetition) % 2 == 0 then [Pair(order, repetition)] else [])
  {
  }

  /** After a whole row, the pairs visited are those of orders lo .. order. */
  lemma VisitOrder(lo: int, order: int, repetition: nat)
    requires lo <= order && (repetition == 0 || repetition <= order + 1)
    requires repetition > order
    ensures LegalPairs(lo, order) == LegalPairs(lo, order - 1) + RowPairs(order, repetition)
  {
  }

  /**
   * DoubleNormalizedZernikeFeatureSet: the range of orders, the two circles,
   * an unused intermediate value and the computer it drives.
   */
  class FeatureSet {
    var orderMin: int
    var orderMax: int
    var innerCircle: Option<Circle>
    var outerCircle: Option<Circle>
    var intermediateNormalizedValue: real
    var zernikeComputer: Computer

    /** The computer keeps its default ratio: the feature set never changes it. */
    predicate Valid()
      reads this, zernikeComputer
    {
      zernikeComputer.innerRadiusToOuterRadiusRatio == DefaultRatio
    }

    /** A new feature set with orders 2 .. 4, no circles, and a new computer. */
    constructor ()
      ensures orderMin == 2 && orderMax == 4
      ensures innerCircle == None && outerCircle == None
      ensures intermediateNormalizedValue == 0.5
      ensures fresh(zernikeComputer) && Valid()
    {
      orderMin := 2;
      orderMax := 4;
      innerCircle := None;
      outerCircle := None;
      intermediateNormalizedValue := 0.5;
      zernikeComputer := new Computer();
    }

    /** The names of the features, magnitude then phase for each legal pair in visiting order. */
    method GetFeatures() returns (features: seq<string>)
      ensures features == NamesOf(LegalPairs(orderMin, orderMax))
    {
      features := [];
      ghost var done: seq<Pair> := [];
      var order := orderMin;
      while order <= orderMax
        invariant orderMin <= order && (order <= orderMax + 1 || order == orderMin)
        invariant done == LegalPairs(orderMin, order - 1) && features == NamesOf(done)
        decreases orderMax - order
      {
        var repetition := 0;
        assert done + RowPairs(order, 0) == done;
        while repetition <= order
          invariant repetition == 0 || repetition <= order + 1
          invariant done == LegalPairs(orderMin, order - 1) + RowPairs(order, repetition)
          invariant features == NamesOf(done)
          decreases order - repetition
        {
          if Abs(order - repetition) % 2 == 0 {
            var p := Pair(order, repetition);
            NamesOfSnoc(done, p);
            VisitRepetition(orderMin, order, repetition);
            done := done + [p];
            features := features + [MagName(p), PhaseName(p)];
          } else {
            VisitRepetition(orderMin, order, repetition);
          }
          repetition := repetition + 1;
        }
        VisitOrder(orderMin, order, repetition);
        order := order + 1;
      }
    }

    /**
     * For each legal pair in order: sets the computer's order, repetition and
     * circles, computes the moment, and stores its magnitude and phase under
     * the pair's two names.
     */
    method Calculate(lm: Libm, input: seq<Sample>) returns (result: map<string, Double>)
      requires Sound(lm) && Valid()
      requires orderMin <= orderMax && 0 <= orderMax ==> CirclesReady(innerCircle, outerCircle)
      modifies zernikeComputer
      ensures Valid()
      ensures result == FeatureMap(Reader(lm, innerCircle, outerCircle, input), LegalPairs(orderMin, orderMax))
    {
      ghost var read := Reader(lm, innerCircle, outerCircle, input);
      result := map[];
      var order := orderMin;
      while order <= orderMax
        invariant orderMin <= order && (order <= orderMax + 1 || order == orderMin)
        invariant Valid()
        invariant result == MapAfter(read, orderMin, order, 0)
        decreases orderMax - order
      {
        result := CalculateRow(lm, input, order, result, read);
        order := order + 1;
      }
      MapAfterAll(read, orderMin, orderMax, order);
    }

    /** calculate's inner loop over the repetitions 0 .. order of one order. */
    method CalculateRow(lm: Libm, input: seq<Sample>, order: int, result: map<string, Double>, ghost read: Pair -> Reading)
      returns (result': map<string, Double>)
      requires Sound(lm) && Valid() && orderMin <= order
      requires 0 <= order ==> CirclesReady(innerCircle, outerCircle)
      requires read == Reader(lm, innerCircle, outerCircle, input)
      requires result == MapAfter(read, orderMin, order, 0)
      modifies zernikeComputer
      ensures Valid()
      ensures result' == MapAfter(read, orderMin, order + 1, 0)
    {
      result' := result;
      var repetition := 0;
      while repetition <= order
        invariant repetition == 0 || repetition <= order + 1
        invariant Valid()
        invariant result' == MapAfter(read, orderMin, order, repetition)
        decreases order - repetition
      {
        result' := CalculateRepetition(lm, input, order, repetition, result', read);
        repetition := repetition + 1;
      }
    }

    /** One pass of calculate's inner loop: the pair is computed and stored only when n - |m| is even. */
    method CalculateRepetition(lm: Libm, input: seq<Sample>, order: int, repetition: nat, result: map<string, Double>,
                               ghost read: Pair -> Reading)
      returns (result': map<string, Double>)
      requires Sound(lm) && Valid() && orderMin <= order && repetition <= order
      requires CirclesReady(innerCircle, outerCircle)
      requires read == Reader(lm, innerCircle, outerCircle, input)
      requires result == MapAfter(read, orderMin, order, repetition)
      modifies zernikeComputer
      ensures Valid()
      ensures result' == MapAfter(read, orderMin, order, repetition + 1)
    {
      MapAfterStep(read, orderMin, order, repetition);
      result' := result;
      if Abs(order - repetition) % 2 == 0 {
        var p := Pair(order, repetition);
        var magnitude, phase := CalculatePair(lm, input, p);
        result' := result[MagName(p) := magnitude][PhaseName(p) := phase];
      }
    }

    /** The body of calculate's inner loop for one pair: set up the computer, compute, read the moment. */
    method CalculatePair(lm: Libm, input: seq<Sample>, p: Pair) returns (magnitude: Double, phase: Double)
      requires Sound(lm) && Valid() && CirclesReady(innerCircle, outerCircle)
      modifies zernikeComputer
      ensures Valid()
      ensures Reading(magnitude, phase) == Reader(lm, innerCircle, outerCircle, input)(p)
    {
      zernikeComputer.SetOrder(p.order);
      zernikeComputer.SetRepetition(p.repetition);
      zernikeComputer.SetEnclosingCircles(innerCircle.value, outerCircle.value);
      var results := zernikeComputer.Calculate(lm, input);
      assert results == PairMoment(lm, innerCircle.value, outerCircle.value, input, p);
      magnitude, phase := Magnitude(lm, results.zm), Phase(lm, results.zm);
    }

    /** Stores the two circles; nothing else changes. */
    method SetEnclosingCircles(inner: Circle, outer: Circle)
      modifies this`innerCircle, this`outerCircle
      ensures innerCircle == Some(inner) && outerCircle == Some(outer)
    {
      innerCircle := Some(inner);
      outerCircle := Some(outer);
    }
  }
}

/** The association from objects to probabilities (ProbabilityMap.java),
    and the range check that guards every write to it. */
module Probability {
  import opened Wrappers

  /** A Java double as the range checks see it: NaN, an infinity, or a
      finite value (modelled exactly as a real). */
  datatype Double = NaN | PositiveInfinity | NegativeInfinity | Finite(value: real)

  datatype ProbabilityError = IsNaN | TooSmall | TooLarge

  predicate IsProbability(p: real) {
    0.0 <= p <= 1.0
  }

  /** checkProbability: NaN is refused first, then values below 0, then
      values above 1 (every comparison with NaN is false in Java, hence the
      explicit NaN test). */
  function CheckProbability(p: Double): (o: Outcome<ProbabilityError>)
    ensures o.Pass? <==> p.Finite? && IsProbability(p.value)
    ensures o == Fail(IsNaN) <==> p.NaN?
    ensures o == Fail(TooSmall) <==> p.NegativeInfinity? || (p.Finite? && p.value < 0.0)
  {
    match p
    case NaN => Fail(IsNaN)
    case NegativeInfinity => Fail(TooSmall)
    case PositiveInfinity => Fail(TooLarge)
    case Finite(v) =>
      if v < 0.0 then Fail(TooSmall)
      else if v > 1.0 then Fail(TooLarge)
      else Pass
  }

  class ProbabilityMap<T(==)> {
    var entries: map<T, real>

    /** Every stored value is a probability. */
    ghost predicate Valid()
      reads this
    {
      forall o :: o in entries ==> IsProbability(entries[o])
    }

    constructor ()
      ensures Valid() && entries == map[]
    {
      entries := map[];
    }

    /** Stores `probability` for `key` when it passes the range check;
        otherwise reports why and leaves the map as it was. */
    method Put(key: T, probability: Double) returns (outcome: Outcome<ProbabilityError>)
      requires Valid()
      modifies this
      ensures Valid()
      ensures outcome == CheckProbability(probability)
      ensures outcome.Pass? ==> entries == old(entries)[key := probability.value]
      ensures outcome.Fail? ==> entries == old(entries)
    {
      outcome := CheckProbability(probability);
      if outcome.Pass? {
        entries := entries[key := probability.value];
      }
    }

    /** The stored probability, or None where Java throws because there is
        no mapping. */
    function Get(key: T): (r: Option<real>)
      reads this
      ensures r.Some? <==> Contains(key)
      ensures r.Some? && Valid() ==> IsProbability(r.value)
    {
      if key in entries then Some(entries[key]) else None
    }

    predicate Contains(key: T)
      reads this
    {
      key in entries
    }

    method Remove(key: T)
      requires Valid()
      modifies this
      ensures Valid()
      ensures entries == old(entries) - {key}
    {
      entries := entries - {key};
    }
  }
}

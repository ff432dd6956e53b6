/** The signal-strength tier behind the row icon (`_create_signal_icon`). */
module Signal {

  datatype Tier = Weak | Ok | Good | Excellent

  const ExcellentFrom := 75
  const GoodFrom := 50
  const OkFrom := 25

  /** The icon tier for a strength reported by NetworkManager (0..100);
      defined for every integer, as the source is. */
  function TierOf(strength: int): Tier {
    if strength >= ExcellentFrom then Excellent
    else if strength >= GoodFrom then Good
    else if strength >= OkFrom then Ok
    else Weak
  }

  /** Tiers in increasing order of quality. */
  function Rank(t: Tier): nat {
    match t
    case Weak => 0
    case Ok => 1
    case Good => 2
    case Excellent => 3
  }

  /** Each tier is exactly one band of strengths. */
  lemma TierBands(strength: int)
    ensures TierOf(strength) == Excellent <==> strength >= 75
    ensures TierOf(strength) == Good <==> 50 <= strength < 75
    ensures TierOf(strength) == Ok <==> 25 <= strength < 50
    ensures TierOf(strength) == Weak <==> strength < 25
  {
  }

  /** A stronger signal never shows a lower tier. */
  lemma TierMonotone(a: int, b: int)
    requires a <= b
    ensures Rank(TierOf(a)) <= Rank(TierOf(b))
  {
  }

  /** Examples at and around each threshold. */
  lemma TierBoundaryValues()
    ensures TierOf(100) == Excellent && TierOf(75) == Excellent
    ensures TierOf(74) == Good && TierOf(50) == Good
    ensures TierOf(49) == Ok && TierOf(25) == Ok
    ensures TierOf(24) == Weak && TierOf(0) == Weak
  {
  }
}

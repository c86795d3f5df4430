/** The distance calculator: a great-circle distance turned into a transport
    leg (mode, minutes, yen). The haversine formula itself is a parameter `h`;
    everything downstream of it is modelled exactly, on mathematical reals. */
module Distance {
  import opened Basics

  datatype Mode = Walk | Metro | Bus | Taxi

  /** The result of `calculateDistance`: the reported distance is rounded to
      two decimals, the other three fields come from the unrounded one. */
  datatype Leg = Leg(distance: real, duration: int, mode: Mode, cost: int)

  /** The haversine distance in kilometres, kept abstract. */
  type Haversine = (Coordinate, Coordinate) -> real

  ghost predicate NonNegative(h: Haversine)
  {
    forall a, b :: h(a, b) >= 0.0
  }

  /** What the engine may assume of a great-circle distance. */
  ghost predicate IsHaversine(h: Haversine)
  {
    && NonNegative(h)
    && (forall a :: h(a, a) == 0.0)
    && (forall a, b :: h(a, b) == h(b, a))
  }

  const WalkLimitKm: real := 0.8
  const MetroLimitKm: real := 15.0
  const BusLimitKm: real := 30.0

  /** `Math.ceil` on a real. */
  function Ceil(x: real): (c: int)
    ensures c as real - 1.0 < x <= c as real
  {
    -((-x).Floor)
  }

  lemma {:induction false} CeilMonotone(x: real, y: real)
    requires x <= y
    ensures Ceil(x) <= Ceil(y)
  {
  }

  /** `Math.round`: halves go up, towards positive infinity. */
  function JsRound(x: real): (n: int)
    ensures x - 0.5 < n as real <= x + 0.5
  {
    (x + 0.5).Floor
  }

  /** `Math.round(d * 100) / 100`. */
  function Round2(d: real): (r: real)
    ensures -0.005 < r - d <= 0.005
    ensures r * 100.0 == (r * 100.0).Floor as real
  {
    JsRound(d * 100.0) as real / 100.0
  }

  /** Strict thresholds: a distance equal to a limit belongs to the next mode. */
  function EstimateTransportMode(d: real): (m: Mode)
    ensures m == Walk <==> d < WalkLimitKm
    ensures m == Metro <==> WalkLimitKm <= d < MetroLimitKm
    ensures m == Bus <==> MetroLimitKm <= d < BusLimitKm
    ensures m == Taxi <==> BusLimitKm <= d
  {
    if d < WalkLimitKm then Walk
    else if d < MetroLimitKm then Metro
    else if d < BusLimitKm then Bus
    else Taxi
  }

  /** Minutes for a leg: the ceiling of the mode's formula (5 km/h on foot). */
  function CalculateTravelTime(d: real, m: Mode): (t: int)
    ensures m == Walk ==> t as real - 1.0 < d * 12.0 <= t as real
    ensures m == Metro ==> t as real - 1.0 < d * 3.0 + 10.0 <= t as real
    ensures m == Bus ==> t as real - 1.0 < d * 4.0 + 15.0 <= t as real
    ensures m == Taxi ==> t as real - 1.0 < d * 2.5 <= t as real
    ensures d >= 0.0 ==> t >= 0
    ensures d >= 0.0 && m == Metro ==> t >= 10
    ensures d >= 0.0 && m == Bus ==> t >= 15
  {
    match m
    case Walk => Ceil((d / 5.0) * 60.0)
    case Metro => Ceil(d * 3.0 + 10.0)
    case Bus => Ceil(d * 4.0 + 15.0)
    case Taxi => Ceil(d * 2.5)
  }

  /** Yen for a leg: free on foot, tiered metro fare, per-km bus and taxi. */
  function CalculateTransportCost(d: real, m: Mode): (c: int)
    ensures m == Walk ==> c == 0
    ensures m == Metro ==> c in {170, 200, 240, 280}
    ensures m == Metro ==> (c == 170 <==> d < 3.0) && (c == 280 <==> 12.0 <= d)
    ensures m == Metro && 3.0 <= d < 7.0 ==> c == 200
    ensures m == Metro && 7.0 <= d < 12.0 ==> c == 240
    ensures m == Bus ==> c as real - 1.0 < d * 50.0 <= c as real
    ensures m == Taxi ==> c as real - 1.0 < d * 400.0 <= c as real
    ensures d >= 0.0 ==> c >= 0
  {
    match m
    case Walk => 0
    case Metro =>
      if d < 3.0 then 170
      else if d < 7.0 then 200
      else if d < 12.0 then 240
      else 280
    case Bus => Ceil(d * 50.0)
    case Taxi => Ceil(d * 400.0)
  }

  /** The leg between two coordinates. Mode, minutes and yen are computed from
      the unrounded haversine distance; only the reported distance is rounded. */
  function CalculateDistance(h: Haversine, from: Coordinate, to: Coordinate): (leg: Leg)
    ensures leg.mode == EstimateTransportMode(h(from, to))
    ensures leg.duration == CalculateTravelTime(h(from, to), leg.mode)
    ensures leg.cost == CalculateTransportCost(h(from, to), leg.mode)
    ensures -0.005 < leg.distance - h(from, to) <= 0.005
    ensures leg.distance * 100.0 == (leg.distance * 100.0).Floor as real
    ensures h(from, to) >= 0.0 ==> leg.duration >= 0 && leg.cost >= 0
  {
    var d := h(from, to);
    var mode := EstimateTransportMode(d);
    Leg(Round2(d), CalculateTravelTime(d, mode), mode, CalculateTransportCost(d, mode))
  }

  /** A pure alias of `CalculateDistance`. */
  function CalculateDistanceFromUserLocation(h: Haversine, user: Coordinate, place: Coordinate): (leg: Leg)
    ensures leg == CalculateDistance(h, user, place)
  {
    CalculateDistance(h, user, place)
  }

  /** The cost of a leg as a function of its distance alone. */
  function LegCost(d: real): int
  {
    CalculateTransportCost(d, EstimateTransportMode(d))
  }

  /** The duration of a leg as a function of its distance alone. */
  function LegDuration(d: real): int
  {
    CalculateTravelTime(d, EstimateTransportMode(d))
  }

  /** Modes are ordered by distance: a longer leg never gets a "smaller" mode. */
  function ModeRank(m: Mode): nat
  {
    match m
    case Walk => 0
    case Metro => 1
    case Bus => 2
    case Taxi => 3
  }

  lemma {:induction false} ModeMonotone(d1: real, d2: real)
    requires d1 <= d2
    ensures ModeRank(EstimateTransportMode(d1)) <= ModeRank(EstimateTransportMode(d2))
  {
  }

  /** The exact limits fall into the next mode. */
  lemma {:induction false} ModeBoundaries()
    ensures EstimateTransportMode(0.8) == Metro
    ensures EstimateTransportMode(15.0) == Bus
    ensures EstimateTransportMode(30.0) == Taxi
    ensures EstimateTransportMode(0.79) == Walk
  {
  }

  /** Across all four modes the fare never falls as the distance grows. */
  lemma {:induction false} CostMonotone(d1: real, d2: real)
    requires d1 <= d2
    ensures LegCost(d1) <= LegCost(d2)
  {
    var m1 := EstimateTransportMode(d1);
    var m2 := EstimateTransportMode(d2);
    if m1 == m2 {
      if m1 == Bus {
        CeilMonotone(d1 * 50.0, d2 * 50.0);
      } else if m1 == Taxi {
        CeilMonotone(d1 * 400.0, d2 * 400.0);
      }
    } else if m2 == Bus {
      assert LegCost(d2) >= 750 by {
        CeilMonotone(750.0, d2 * 50.0);
      }
    } else if m2 == Taxi {
      assert LegCost(d2) >= 12000 by {
        CeilMonotone(12000.0, d2 * 400.0);
      }
      if m1 == Bus {
        assert LegCost(d1) <= 1500 by {
          CeilMonotone(d1 * 50.0, 1500.0);
        }
      }
    }
  }

  /** Duration is not monotone: a 30 km taxi ride is quicker than a 29 km bus. */
  lemma {:induction false} DurationNotMonotone()
    ensures LegDuration(30.0) == 75
    ensures LegDuration(29.0) == 131
    ensures LegDuration(30.0) < LegDuration(29.0)
  {
  }

  /** The reported (rounded) distance hides the mode boundary: 0.799 km is
      reported as 0.80 and is still a walk. */
  lemma {:induction false} RoundedDistanceMayHideMode(h: Haversine, a: Coordinate, b: Coordinate)
    requires h(a, b) == 0.799
    ensures CalculateDistance(h, a, b).distance == 0.8
    ensures CalculateDistance(h, a, b).mode == Walk
    ensures CalculateDistance(h, a, b).cost == 0
  {
    assert JsRound(0.799 * 100.0) == 80;
  }

  /** Identical endpoints give a free, instant walk. */
  lemma {:induction false} SameEndpointsLeg(h: Haversine, a: Coordinate)
    requires IsHaversine(h)
    ensures CalculateDistance(h, a, a) == Leg(0.0, 0, Walk, 0)
  {
    assert h(a, a) == 0.0;
    assert JsRound(0.0) == 0;
  }

  /** The leg does not depend on the direction of travel. */
  lemma {:induction false} LegSymmetric(h: Haversine, a: Coordinate, b: Coordinate)
    requires IsHaversine(h)
    ensures CalculateDistance(h, a, b) == CalculateDistance(h, b, a)
  {
    assert h(a, b) == h(b, a);
  }
}

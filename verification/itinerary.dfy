/** `optimizeTour` and `calculateTourEstimates`: group by ward, pack into
    days, route each day, then walk each day on a minute clock that starts at
    09:00, accumulating yen and snapping a mid-day clock that lands strictly
    between 13:00 and 14:00 forward to 14:00. */
module Itinerary {
  import opened Basics
  import opened Distance
  import opened Grouping
  import opened Packing
  import opened Routing

  const DayStartMinutes: int := 540
  const LunchStart: int := 780
  const LunchEnd: int := 840

  /** `plannedTime` before string formatting: `Math.floor(t / 60)` and
      `t % 60`. There is no wrap at 24:00. */
  datatype ClockTime = ClockTime(hours: int, minutes: int)

  datatype TourPlace = TourPlace(
    placeId: string,
    plannedTime: ClockTime,
    visitDuration: int,
    transportMode: Mode,
    transportDuration: int,
    transportCost: int)

  /** `date` is the start day plus the day index; `notes` is the list of
      distinct wards of the day, which the source joins into a string. */
  datatype TourDay = TourDay(
    dayNumber: int,
    date: int,
    places: seq<TourPlace>,
    totalCost: int,
    totalDuration: int,
    notes: seq<string>)

  datatype Estimates = Estimates(totalCost: int, totalHours: int, totalPlaces: int, totalDays: int)

  /** JavaScript's `%`: the remainder of division truncated toward zero, so
      it takes the sign of the dividend and is smaller than the divisor. */
  function JsRem(a: int, b: int): (r: int)
    requires b > 0
    ensures a >= 0 ==> 0 <= r < b
    ensures a < 0 ==> -b < r <= 0
    ensures exists q: int :: a == q * b + r
  {
    var q := if a >= 0 then a / b else -((-a) / b);
    var r := if a >= 0 then a % b else -((-a) % b);
    assert a == q * b + r;
    r
  }

  function PlannedTime(t: int): (c: ClockTime)
    ensures t >= 0 ==> 0 <= c.minutes < 60 && c.hours * 60 + c.minutes == t
  {
    ClockTime(t / 60, JsRem(t, 60))
  }

  function ClockMinutes(c: ClockTime): int
  {
    c.hours * 60 + c.minutes
  }

  // ---------------------------------------------------------------------------
  // The day walk
  // ---------------------------------------------------------------------------

  datatype DayState = DayState(clock: int, cost: int, stops: seq<TourPlace>)

  /** Where the leg to stop `i` starts: `origin` for the first stop,
      otherwise the previous stop. */
  function PrevLocation(routed: seq<Place>, origin: Coordinate, i: nat): Coordinate
    requires i < |routed|
  {
    if i == 0 then origin else routed[i - 1].coordinates
  }

  function StopLeg(h: Haversine, routed: seq<Place>, origin: Coordinate, i: nat): Leg
    requires i < |routed|
  {
    CalculateDistance(h, PrevLocation(routed, origin, i), routed[i].coordinates)
  }

  /** The clock after the visit at stop `i` ends, before the lunch rule. */
  function LunchSnap(routed: seq<Place>, i: nat, t: int): int
    requires i < |routed|
  {
    if i < |routed| - 1 && LunchStart < t < LunchEnd then LunchEnd else t
  }

  /** The `forEach` over the first `k` routed places. */
  function WalkPrefix(h: Haversine, routed: seq<Place>, origin: Coordinate, k: nat): DayState
    requires k <= |routed|
  {
    if k == 0 then DayState(DayStartMinutes, 0, [])
    else
      var s := WalkPrefix(h, routed, origin, k - 1);
      var p := routed[k - 1];
      var leg := StopLeg(h, routed, origin, k - 1);
      var arrival := s.clock + leg.duration;
      DayState(
        LunchSnap(routed, k - 1, arrival + VisitMinutes(p)),
        s.cost + leg.cost + Fee(p),
        s.stops + [TourPlace(p.id, PlannedTime(arrival), VisitMinutes(p), leg.mode, leg.duration, leg.cost)])
  }

  /** The first leg of day 1 starts at the user; the first stop of any later
      day is measured from its own coordinates. */
  function DayOrigin(routed: seq<Place>, dayIndex: nat, user: Coordinate): Coordinate
  {
    if dayIndex == 0 || |routed| == 0 then user else routed[0].coordinates
  }

  function RouteDay(h: Haversine, dayPlaces: seq<Place>, dayIndex: nat, user: Coordinate): seq<Place>
  {
    OptimizeWithinWard(h, dayPlaces, if dayIndex == 0 then Some(user) else None)
  }

  function BuildDay(h: Haversine, dayPlaces: seq<Place>, dayIndex: nat, user: Coordinate, startDay: int): TourDay
  {
    var routed := RouteDay(h, dayPlaces, dayIndex, user);
    var s := WalkPrefix(h, routed, DayOrigin(routed, dayIndex, user), |routed|);
    TourDay(dayIndex + 1, startDay + dayIndex, s.stops, s.cost, s.clock - DayStartMinutes, Distinct(PlaceWards(routed)))
  }

  /** The `map` over the packed days, as a prefix of `n` days. */
  function BuildDays(h: Haversine, days: seq<seq<Place>>, user: Coordinate, startDay: int, n: nat): (r: seq<TourDay>)
    requires n <= |days|
    ensures |r| == n
    ensures forall i :: 0 <= i < n ==> r[i] == BuildDay(h, days[i], i, user, startDay)
  {
    if n == 0 then [] else BuildDays(h, days, user, startDay, n - 1) + [BuildDay(h, days[n - 1], n - 1, user, startDay)]
  }

  function OptimizeTour(h: Haversine, places: seq<Place>, user: Coordinate, startDay: int): seq<TourDay>
  {
    if |places| == 0 then []
    else
      var days := DistributeIntoDays(GroupByWards(places));
      BuildDays(h, days, user, startDay, |days|)
  }

  // ---------------------------------------------------------------------------
  // Sums over days and stops
  // ---------------------------------------------------------------------------

  function SumCost(days: seq<TourDay>): int
  {
    if |days| == 0 then 0 else SumCost(days[..|days| - 1]) + days[|days| - 1].totalCost
  }

  function SumDuration(days: seq<TourDay>): int
  {
    if |days| == 0 then 0 else SumDuration(days[..|days| - 1]) + days[|days| - 1].totalDuration
  }

  function SumPlaces(days: seq<TourDay>): int
  {
    if |days| == 0 then 0 else SumPlaces(days[..|days| - 1]) + |days[|days| - 1].places|
  }

  function StopIds(stops: seq<TourPlace>): (ids: seq<string>)
    ensures |ids| == |stops|
    ensures forall i :: 0 <= i < |stops| ==> ids[i] == stops[i].placeId
  {
    if |stops| == 0 then [] else StopIds(stops[..|stops| - 1]) + [stops[|stops| - 1].placeId]
  }

  function AllStopIds(days: seq<TourDay>): seq<string>
  {
    if |days| == 0 then [] else AllStopIds(days[..|days| - 1]) + StopIds(days[|days| - 1].places)
  }

  /** Visit plus travel minutes of the stops, with no lunch adjustment. */
  function PlainDuration(stops: seq<TourPlace>): int
  {
    if |stops| == 0 then 0
    else PlainDuration(stops[..|stops| - 1]) + stops[|stops| - 1].visitDuration + stops[|stops| - 1].transportDuration
  }

  /** Admission fees of the places plus the recorded transport costs. */
  function FeesAndFares(ps: seq<Place>, stops: seq<TourPlace>): int
    requires |ps| == |stops|
  {
    if |ps| == 0 then 0
    else FeesAndFares(ps[..|ps| - 1], stops[..|stops| - 1]) + Fee(ps[|ps| - 1]) + stops[|stops| - 1].transportCost
  }

  function CalculateTourEstimates(days: seq<TourDay>): (e: Estimates)
    ensures e.totalDays == |days|
    ensures e.totalCost == SumCost(days) && e.totalPlaces == SumPlaces(days)
    ensures e.totalHours == (SumDuration(days) + 30) / 60
    ensures |days| == 0 ==> e == Estimates(0, 0, 0, 0)
  {
    HoursRounding(SumDuration(days));
    Estimates(SumCost(days), JsRound(SumDuration(days) as real / 60.0), SumPlaces(days), |days|)
  }

  /** `Math.round(m / 60)` is integer rounding half up. */
  lemma {:induction false} HoursRounding(m: int)
    ensures JsRound(m as real / 60.0) == (m + 30) / 60
  {
    var n := (m + 30) / 60;
    assert 60 * n <= m + 30 < 60 * n + 60;
    assert (60 * n) as real <= m as real + 30.0 < (60 * n + 60) as real;
    assert n as real <= m as real / 60.0 + 0.5 < n as real + 1.0;
  }

  // ---------------------------------------------------------------------------
  // Facts about one day
  // ---------------------------------------------------------------------------

  /** What stop `i` records: its place, the defaulted visit minutes, the leg
      from the previous location and the arrival time on the clock. */
  function StopAt(h: Haversine, routed: seq<Place>, origin: Coordinate, i: nat): TourPlace
    requires i < |routed|
  {
    var leg := StopLeg(h, routed, origin, i);
    TourPlace(routed[i].id, PlannedTime(WalkPrefix(h, routed, origin, i).clock + leg.duration),
              VisitMinutes(routed[i]), leg.mode, leg.duration, leg.cost)
  }

  /** One step of the walk, in terms of the previous state. */
  lemma {:induction false} WalkPrefixStep(h: Haversine, routed: seq<Place>, origin: Coordinate, k: nat)
    requires 0 < k <= |routed|
    ensures WalkPrefix(h, routed, origin, k).stops == WalkPrefix(h, routed, origin, k - 1).stops + [StopAt(h, routed, origin, k - 1)]
    ensures WalkPrefix(h, routed, origin, k).cost ==
      WalkPrefix(h, routed, origin, k - 1).cost + StopLeg(h, routed, origin, k - 1).cost + Fee(routed[k - 1])
    ensures WalkPrefix(h, routed, origin, k).clock ==
      LunchSnap(routed, k - 1, WalkPrefix(h, routed, origin, k - 1).clock + StopLeg(h, routed, origin, k - 1).duration + VisitMinutes(routed[k - 1]))
  {
  }

  /** With a non-negative distance every leg takes non-negative time. */
  lemma {:induction false} StopLegNonNegative(h: Haversine, routed: seq<Place>, origin: Coordinate, i: nat)
    requires NonNegative(h) && i < |routed|
    ensures StopLeg(h, routed, origin, i).duration >= 0
  {
    assert h(PrevLocation(routed, origin, i), routed[i].coordinates) >= 0.0;
  }

  lemma {:induction false} WalkPrefixShape(h: Haversine, routed: seq<Place>, origin: Coordinate, k: nat)
    requires k <= |routed|
    ensures |WalkPrefix(h, routed, origin, k).stops| == k
    ensures forall i :: 0 <= i < k ==> WalkPrefix(h, routed, origin, k).stops[i] == StopAt(h, routed, origin, i)
  {
    if k > 0 {
      var s, s' := WalkPrefix(h, routed, origin, k - 1), WalkPrefix(h, routed, origin, k);
      WalkPrefixShape(h, routed, origin, k - 1);
      WalkPrefixStep(h, routed, origin, k);
      assert s'.stops == s.stops + [StopAt(h, routed, origin, k - 1)];
      forall i | 0 <= i < k ensures s'.stops[i] == StopAt(h, routed, origin, i) {
        if i < k - 1 {
          assert s'.stops[i] == s.stops[i];
        }
      }
    }
  }

  /** The day's cost is the admission fees plus the recorded fares. */
  lemma {:induction false} WalkPrefixCost(h: Haversine, routed: seq<Place>, origin: Coordinate, k: nat)
    requires k <= |routed|
    ensures |WalkPrefix(h, routed, origin, k).stops| == k
    ensures WalkPrefix(h, routed, origin, k).cost == FeesAndFares(routed[..k], WalkPrefix(h, routed, origin, k).stops)
  {
    if k > 0 {
      WalkPrefixCost(h, routed, origin, k - 1);
      WalkPrefixStep(h, routed, origin, k);
      var s := WalkPrefix(h, routed, origin, k - 1);
      var s' := WalkPrefix(h, routed, origin, k);
      var ps := routed[..k];
      assert s'.stops[..k - 1] == s.stops;
      assert ps[..k - 1] == routed[..k - 1];
      assert ps[k - 1] == routed[k - 1];
      assert s'.stops[k - 1].transportCost == StopLeg(h, routed, origin, k - 1).cost;
      assert FeesAndFares(ps, s'.stops) == FeesAndFares(routed[..k - 1], s.stops) + Fee(routed[k - 1]) + s'.stops[k - 1].transportCost;
    }
  }

  /** Clock invariant (for a non-negative distance): the clock never falls
      below 09:00, the lunch rule adds less than an hour over the plain sum
      of visit and travel minutes, and once it has added anything the clock
      is already at or past 14:00, so it cannot fire again. */
  lemma {:induction false} WalkPrefixClock(h: Haversine, routed: seq<Place>, origin: Coordinate, k: nat)
    requires NonNegative(h)
    requires k <= |routed|
    ensures var s := WalkPrefix(h, routed, origin, k);
      && s.clock >= DayStartMinutes
      && 0 <= s.clock - DayStartMinutes - PlainDuration(s.stops) < 60
      && (s.clock - DayStartMinutes - PlainDuration(s.stops) > 0 ==> s.clock >= LunchEnd)
  {
    if k > 0 {
      WalkPrefixClock(h, routed, origin, k - 1);
      var s := WalkPrefix(h, routed, origin, k - 1);
      var s' := WalkPrefix(h, routed, origin, k);
      var leg := StopLeg(h, routed, origin, k - 1);
      assert leg.duration >= 0 by {
        assert h(PrevLocation(routed, origin, k - 1), routed[k - 1].coordinates) >= 0.0;
      }
      assert s'.stops[..|s'.stops| - 1] == s.stops;
    }
  }

  /** Every arrival is at or after 09:00 and no later than `clock`. */
  ghost predicate ArrivalsWithin(stops: seq<TourPlace>, clock: int)
  {
    forall i :: 0 <= i < |stops| ==> DayStartMinutes <= ClockMinutes(stops[i].plannedTime) <= clock
  }

  lemma {:induction false} ArrivalsSnoc(stops: seq<TourPlace>, clock: int, t: TourPlace, clock': int)
    requires ArrivalsWithin(stops, clock)
    requires DayStartMinutes <= clock <= ClockMinutes(t.plannedTime) <= clock'
    ensures ArrivalsWithin(stops + [t], clock')
  {
    var r := stops + [t];
    forall i | 0 <= i < |r| ensures DayStartMinutes <= ClockMinutes(r[i].plannedTime) <= clock' {
      if i < |stops| {
        assert r[i] == stops[i];
      }
    }
  }

  /** Stop `i` is reached no earlier than the clock it leaves from, and the
      clock after it is no earlier than its arrival. */
  lemma {:induction false} StopArrivesAfterClock(h: Haversine, routed: seq<Place>, origin: Coordinate, i: nat)
    requires NonNegative(h) && i < |routed|
    ensures DayStartMinutes <= WalkPrefix(h, routed, origin, i).clock
    ensures WalkPrefix(h, routed, origin, i).clock <= ClockMinutes(StopAt(h, routed, origin, i).plannedTime)
    ensures ClockMinutes(StopAt(h, routed, origin, i).plannedTime) <= WalkPrefix(h, routed, origin, i + 1).clock
  {
    WalkPrefixClock(h, routed, origin, i);
    StopLegNonNegative(h, routed, origin, i);
    WalkPrefixStep(h, routed, origin, i + 1);
  }

  /** Arrival times never go backwards. */
  ghost predicate Chronological(stops: seq<TourPlace>)
  {
    forall i, j :: 0 <= i < j < |stops| ==> ClockMinutes(stops[i].plannedTime) <= ClockMinutes(stops[j].plannedTime)
  }

  lemma {:induction false} ChronologicalSnoc(stops: seq<TourPlace>, clock: int, t: TourPlace)
    requires Chronological(stops)
    requires ArrivalsWithin(stops, clock)
    requires clock <= ClockMinutes(t.plannedTime)
    ensures Chronological(stops + [t])
  {
    var r := stops + [t];
    forall i, j | 0 <= i < j < |r| ensures ClockMinutes(r[i].plannedTime) <= ClockMinutes(r[j].plannedTime) {
      assert r[i] == stops[i];
      if j < |stops| {
        assert r[j] == stops[j];
      }
    }
  }

  /** The timing invariant of the walk: arrivals in order, each between
      09:00 and the current clock. */
  ghost predicate WellTimed(s: DayState)
  {
    Chronological(s.stops) && ArrivalsWithin(s.stops, s.clock)
  }

  lemma {:induction false} WellTimedSnoc(s: DayState, t: TourPlace, s': DayState)
    requires WellTimed(s)
    requires s'.stops == s.stops + [t]
    requires DayStartMinutes <= s.clock <= ClockMinutes(t.plannedTime) <= s'.clock
    ensures WellTimed(s')
  {
    ChronologicalSnoc(s.stops, s.clock, t);
    ArrivalsSnoc(s.stops, s.clock, t, s'.clock);
  }

  lemma {:induction false} WalkPrefixWellTimed(h: Haversine, routed: seq<Place>, origin: Coordinate, k: nat)
    requires NonNegative(h)
    requires k <= |routed|
    ensures WellTimed(WalkPrefix(h, routed, origin, k))
  {
    if k > 0 {
      var s, t, s' := WalkPrefix(h, routed, origin, k - 1), StopAt(h, routed, origin, k - 1), WalkPrefix(h, routed, origin, k);
      WalkPrefixWellTimed(h, routed, origin, k - 1);
      assert WellTimed(s);
      WalkPrefixStep(h, routed, origin, k);
      assert s'.stops == s.stops + [t];
      StopArrivesAfterClock(h, routed, origin, k - 1);
      WellTimedSnoc(s, t, s');
    }
  }

  /** Every arrival is at or after 09:00 and no later than the clock. */
  lemma {:induction false} WalkPrefixArrivalsBounded(h: Haversine, routed: seq<Place>, origin: Coordinate, k: nat)
    requires NonNegative(h)
    requires k <= |routed|
    ensures forall i :: 0 <= i < |WalkPrefix(h, routed, origin, k).stops| ==>
      DayStartMinutes <= ClockMinutes(WalkPrefix(h, routed, origin, k).stops[i].plannedTime) <= WalkPrefix(h, routed, origin, k).clock
  {
    WalkPrefixWellTimed(h, routed, origin, k);
  }

  /** Arrival times are chronological. */
  lemma {:induction false} WalkPrefixChronological(h: Haversine, routed: seq<Place>, origin: Coordinate, k: nat)
    requires NonNegative(h)
    requires k <= |routed|
    ensures forall i, j :: 0 <= i < j < |WalkPrefix(h, routed, origin, k).stops| ==>
      ClockMinutes(WalkPrefix(h, routed, origin, k).stops[i].plannedTime) <= ClockMinutes(WalkPrefix(h, routed, origin, k).stops[j].plannedTime)
  {
    WalkPrefixWellTimed(h, routed, origin, k);
  }

  /** A built day: numbered from 1, dated from the start day, one stop per
      routed place, cost = fees + fares, duration = final clock - 09:00, and
      (for a non-negative distance) that duration is the plain sum of visit
      and travel minutes plus less than one hour of lunch wait. */
  lemma {:induction false} BuildDaySpec(h: Haversine, dayPlaces: seq<Place>, dayIndex: nat, user: Coordinate, startDay: int)
    ensures var d := BuildDay(h, dayPlaces, dayIndex, user, startDay);
      var routed := RouteDay(h, dayPlaces, dayIndex, user);
      && d.dayNumber == dayIndex + 1
      && d.date == startDay + dayIndex
      && StopIds(d.places) == IdSeq(routed)
      && d.totalCost == FeesAndFares(routed, d.places)
      && d.notes == Distinct(PlaceWards(routed))
      && (NonNegative(h) ==> PlainDuration(d.places) <= d.totalDuration < PlainDuration(d.places) + 60)
  {
    var routed := RouteDay(h, dayPlaces, dayIndex, user);
    var origin := DayOrigin(routed, dayIndex, user);
    WalkPrefixShape(h, routed, origin, |routed|);
    WalkPrefixCost(h, routed, origin, |routed|);
    assert routed[..|routed|] == routed;
    if NonNegative(h) {
      WalkPrefixClock(h, routed, origin, |routed|);
    }
  }

  /** A walk whose origin is its own first place opens with a free,
      zero-minute walk at 09:00. */
  lemma {:induction false} FirstStopAtOrigin(h: Haversine, routed: seq<Place>, origin: Coordinate)
    requires IsHaversine(h)
    requires |routed| >= 1 && origin == routed[0].coordinates
    ensures StopAt(h, routed, origin, 0) == TourPlace(routed[0].id, ClockTime(9, 0), VisitMinutes(routed[0]), Walk, 0, 0)
  {
    SameEndpointsLeg(h, routed[0].coordinates);
    assert StopLeg(h, routed, origin, 0) == Leg(0.0, 0, Walk, 0);
    assert WalkPrefix(h, routed, origin, 0).clock == 540;
    assert JsRem(540, 60) == 0;
  }

  /** On day 2 onwards the first stop is reached by a zero-length walk. */
  lemma {:induction false} LaterDayStartsWithZeroLeg(h: Haversine, dayPlaces: seq<Place>, dayIndex: nat, user: Coordinate, startDay: int)
    requires IsHaversine(h)
    requires dayIndex >= 1 && |dayPlaces| >= 1
    ensures var d := BuildDay(h, dayPlaces, dayIndex, user, startDay);
      && |d.places| >= 1
      && d.places[0].transportMode == Walk
      && d.places[0].transportDuration == 0
      && d.places[0].transportCost == 0
      && d.places[0].plannedTime == ClockTime(9, 0)
  {
    var routed := RouteDay(h, dayPlaces, dayIndex, user);
    assert |routed| >= 1 by {
      OptimizeWithinWardSpec(h, dayPlaces, None);
    }
    var origin := DayOrigin(routed, dayIndex, user);
    var d := BuildDay(h, dayPlaces, dayIndex, user, startDay);
    assert d.places == WalkPrefix(h, routed, origin, |routed|).stops;
    WalkPrefixShape(h, routed, origin, |routed|);
    FirstStopAtOrigin(h, routed, origin);
  }

  /** On day 1 the first leg starts at the user's location and goes to the
      place closest to it (with one place, that place). */
  lemma {:induction false} FirstDayStartsAtUser(h: Haversine, dayPlaces: seq<Place>, user: Coordinate, startDay: int)
    requires |dayPlaces| >= 1
    ensures var d := BuildDay(h, dayPlaces, 0, user, startDay);
      var first := dayPlaces[ClosestToAnchor(h, dayPlaces, user)];
      && |d.places| >= 1
      && d.places[0].placeId == first.id
      && d.places[0].transportDuration == CalculateDistance(h, user, first.coordinates).duration
      && d.places[0].transportCost == CalculateDistance(h, user, first.coordinates).cost
      && d.places[0].plannedTime == PlannedTime(DayStartMinutes + CalculateDistance(h, user, first.coordinates).duration)
  {
    var routed := RouteDay(h, dayPlaces, 0, user);
    OptimizeWithinWardSpec(h, dayPlaces, Some(user));
    var first := dayPlaces[ClosestToAnchor(h, dayPlaces, user)];
    assert |routed| >= 1 && routed[0] == first;
    var leg := CalculateDistance(h, user, first.coordinates);
    assert StopLeg(h, routed, user, 0) == leg;
    assert WalkPrefix(h, routed, user, 0).clock == DayStartMinutes;
    var stop := StopAt(h, routed, user, 0);
    assert stop.placeId == first.id && stop.transportDuration == leg.duration && stop.transportCost == leg.cost;
    assert stop.plannedTime == PlannedTime(DayStartMinutes + leg.duration);
    WalkPrefixShape(h, routed, user, |routed|);
    assert BuildDay(h, dayPlaces, 0, user, startDay).places[0] == stop;
  }

  // ---------------------------------------------------------------------------
  // Facts about the whole tour
  // ---------------------------------------------------------------------------

  lemma {:induction false} StopIdsCount(days: seq<TourDay>)
    ensures |AllStopIds(days)| == SumPlaces(days)
  {
    if |days| > 0 {
      StopIdsCount(days[..|days| - 1]);
    }
  }

  lemma {:induction false} BuildDayIds(h: Haversine, dayPlaces: seq<Place>, dayIndex: nat, user: Coordinate, startDay: int)
    requires DistinctIds(dayPlaces)
    ensures multiset(StopIds(BuildDay(h, dayPlaces, dayIndex, user, startDay).places)) == multiset(IdSeq(dayPlaces))
  {
    BuildDaySpec(h, dayPlaces, dayIndex, user, startDay);
    var start := if dayIndex == 0 then Some(user) else None;
    OptimizeWithinWardPermutation(h, dayPlaces, start);
    IdSeqPermutation(RouteDay(h, dayPlaces, dayIndex, user), dayPlaces);
  }

  lemma {:induction false} BuildDaysIds(h: Haversine, days: seq<seq<Place>>, user: Coordinate, startDay: int, n: nat)
    requires n <= |days|
    requires DistinctIds(FlattenDays(days[..n]))
    ensures multiset(AllStopIds(BuildDays(h, days, user, startDay, n))) == multiset(IdSeq(FlattenDays(days[..n])))
  {
    if n > 0 {
      var init := days[..n - 1];
      assert days[..n][..n - 1] == init;
      assert FlattenDays(days[..n]) == FlattenDays(init) + days[n - 1];
      IdSeqAppend(FlattenDays(init), days[n - 1]);
      NoDupPrefix(IdSeq(FlattenDays(init)), IdSeq(days[n - 1]));
      BuildDaysIds(h, days, user, startDay, n - 1);
      BuildDayIds(h, days[n - 1], n - 1, user, startDay);
      var r := BuildDays(h, days, user, startDay, n);
      assert r[..n - 1] == BuildDays(h, days, user, startDay, n - 1);
    }
  }

  lemma {:induction false} AllDaysIds(h: Haversine, days: seq<seq<Place>>, user: Coordinate, startDay: int)
    requires DistinctIds(FlattenDays(days))
    ensures multiset(AllStopIds(BuildDays(h, days, user, startDay, |days|))) == multiset(IdSeq(FlattenDays(days)))
  {
    assert days[..|days|] == days;
    BuildDaysIds(h, days, user, startDay, |days|);
  }

  /** Packing the ward groups into days neither loses nor duplicates a place. */
  lemma {:induction false} PackedDaysMultiset(places: seq<Place>)
    ensures multiset(FlattenDays(DistributeIntoDays(GroupByWards(places)))) == multiset(places)
  {
    GroupByWardsPartition(places);
    DistributeIntoDaysFlatten(GroupByWards(places));
  }

  /** The packed days' ids are the input's ids, so they are distinct whenever
      the input's are. */
  lemma {:induction false} PackedDaysIds(places: seq<Place>)
    requires DistinctIds(places)
    ensures multiset(IdSeq(FlattenDays(DistributeIntoDays(GroupByWards(places))))) == multiset(IdSeq(places))
    ensures DistinctIds(FlattenDays(DistributeIntoDays(GroupByWards(places))))
  {
    var flat := FlattenDays(DistributeIntoDays(GroupByWards(places)));
    PackedDaysMultiset(places);
    IdSeqPermutation(flat, places);
    NoDupPermutation(IdSeq(flat), IdSeq(places));
  }

  /** With distinct ids, every input place is visited exactly once over the
      whole tour. */
  lemma {:induction false} OptimizeTourCoversInput(h: Haversine, places: seq<Place>, user: Coordinate, startDay: int)
    requires DistinctIds(places)
    ensures multiset(AllStopIds(OptimizeTour(h, places, user, startDay))) == multiset(IdSeq(places))
    ensures CalculateTourEstimates(OptimizeTour(h, places, user, startDay)).totalPlaces == |places|
  {
    var tour := OptimizeTour(h, places, user, startDay);
    if |places| > 0 {
      var days := DistributeIntoDays(GroupByWards(places));
      assert tour == BuildDays(h, days, user, startDay, |days|);
      PackedDaysIds(places);
      AllDaysIds(h, days, user, startDay);
    }
    StopIdsCount(tour);
    assert |multiset(AllStopIds(tour))| == |multiset(IdSeq(places))|;
  }

  /** Days are numbered 1, 2, ... and dated consecutively from the start day. */
  lemma {:induction false} OptimizeTourNumbering(h: Haversine, places: seq<Place>, user: Coordinate, startDay: int)
    ensures var tour := OptimizeTour(h, places, user, startDay);
      forall i :: 0 <= i < |tour| ==> tour[i].dayNumber == i + 1 && tour[i].date == startDay + i
  {
    var tour := OptimizeTour(h, places, user, startDay);
    if |places| > 0 {
      var days := DistributeIntoDays(GroupByWards(places));
      forall i | 0 <= i < |tour| ensures tour[i].dayNumber == i + 1 && tour[i].date == startDay + i {
        BuildDaySpec(h, days[i], i, user, startDay);
      }
    }
  }

  /** An empty request gives an empty tour with all-zero estimates. */
  lemma {:induction false} EmptyTour(h: Haversine, user: Coordinate, startDay: int)
    ensures OptimizeTour(h, [], user, startDay) == []
    ensures CalculateTourEstimates(OptimizeTour(h, [], user, startDay)) == Estimates(0, 0, 0, 0)
  {
  }

  // ---------------------------------------------------------------------------
  // Worked scenarios
  // ---------------------------------------------------------------------------

  /** A visit that ends at 13:30 pushes the next arrival to 14:00; the day
      then runs 30 minutes longer than its visits. */
  lemma {:induction false} LunchSnapScenario(h: Haversine, a: Place, b: Place)
    requires IsHaversine(h)
    requires a.coordinates == b.coordinates
    requires VisitMinutes(a) == 270 && VisitMinutes(b) == 60
    ensures |WalkPrefix(h, [a, b], a.coordinates, 2).stops| == 2
    ensures WalkPrefix(h, [a, b], a.coordinates, 2).stops[0].plannedTime == ClockTime(9, 0)
    ensures WalkPrefix(h, [a, b], a.coordinates, 2).stops[1].plannedTime == ClockTime(14, 0)
    ensures WalkPrefix(h, [a, b], a.coordinates, 2).clock - DayStartMinutes == 360
    ensures PlainDuration(WalkPrefix(h, [a, b], a.coordinates, 2).stops) == 330
  {
    var routed := [a, b];
    var o := a.coordinates;
    SameEndpointsLeg(h, o);
    var leg0 := StopLeg(h, routed, o, 0);
    var leg1 := StopLeg(h, routed, o, 1);
    assert leg0 == Leg(0.0, 0, Walk, 0);
    assert leg1 == Leg(0.0, 0, Walk, 0);
    var s0 := WalkPrefix(h, routed, o, 0);
    assert s0 == DayState(540, 0, []);
    var s1 := WalkPrefix(h, routed, o, 1);
    assert LunchSnap(routed, 0, 810) == 840;
    assert PlannedTime(540) == ClockTime(9, 0);
    assert s1 == DayState(840, Fee(a), [TourPlace(a.id, ClockTime(9, 0), 270, Walk, 0, 0)]);
    var s2 := WalkPrefix(h, routed, o, 2);
    assert LunchSnap(routed, 1, 900) == 900;
    assert PlannedTime(840) == ClockTime(14, 0);
    assert s2.stops == s1.stops + [TourPlace(b.id, ClockTime(14, 0), 60, Walk, 0, 0)];
    assert s2.clock == 900;
    assert s2.stops[..1] == s1.stops;
    assert s1.stops[..0] == [];
    assert PlainDuration(s1.stops) == 270;
    assert PlainDuration(s2.stops) == PlainDuration(s1.stops) + 60;
  }

  /** The last stop of a day is never snapped: a lone visit ending at 13:10
      leaves the day at exactly its visit length. */
  lemma {:induction false} LastStopNotSnapped(h: Haversine, a: Place)
    requires IsHaversine(h)
    requires VisitMinutes(a) == 250
    ensures WalkPrefix(h, [a], a.coordinates, 1).clock == 790
  {
    SameEndpointsLeg(h, a.coordinates);
    assert StopLeg(h, [a], a.coordinates, 0) == Leg(0.0, 0, Walk, 0);
  }

  /** One place is one ward group and one day. */
  lemma {:induction false} SinglePlacePlan(p: Place)
    ensures DistributeIntoDays(GroupByWards([p])) == [[p]]
  {
    var g := Group(p.ward, [p]);
    assert [p][..0] == [];
    assert GroupByWards([p]) == [g];
    assert SortByMinutes([g]) == [g];
    assert [g][..0] == [];
    assert PackRuns([g]) == [[g]];
    assert FlattenGroups([g]) == [p];
  }

  /** A day of one place at the user's own location is a free walk at 09:00. */
  lemma {:induction false} SingleStopDay(h: Haversine, p: Place, startDay: int)
    requires IsHaversine(h)
    ensures BuildDay(h, [p], 0, p.coordinates, startDay) ==
      TourDay(1, startDay, [TourPlace(p.id, ClockTime(9, 0), VisitMinutes(p), Walk, 0, 0)], Fee(p), VisitMinutes(p), [p.ward])
  {
    assert RouteDay(h, [p], 0, p.coordinates) == [p];
    SameEndpointsLeg(h, p.coordinates);
    assert StopLeg(h, [p], p.coordinates, 0) == Leg(0.0, 0, Walk, 0);
    assert PlaceWards([p]) == [p.ward];
    assert Distinct([p.ward]) == [p.ward] by {
      assert [p.ward][..0] == [];
    }
    assert JsRem(540, 60) == 0;
    var stop := TourPlace(p.id, ClockTime(9, 0), VisitMinutes(p), Walk, 0, 0);
    assert WalkPrefix(h, [p], p.coordinates, 1) == DayState(540 + VisitMinutes(p), Fee(p), [stop]);
  }

  /** One place at the user's own location: one day, one free walk of zero
      minutes, arriving at 09:00. */
  lemma {:induction false} SinglePlaceAtUser(h: Haversine, p: Place, startDay: int)
    requires IsHaversine(h)
    ensures OptimizeTour(h, [p], p.coordinates, startDay) ==
      [TourDay(1, startDay, [TourPlace(p.id, ClockTime(9, 0), VisitMinutes(p), Walk, 0, 0)], Fee(p), VisitMinutes(p), [p.ward])]
  {
    SinglePlacePlan(p);
    SingleStopDay(h, p, startDay);
    assert BuildDays(h, [[p]], p.coordinates, startDay, 1)[0] == BuildDay(h, [p], 0, p.coordinates, startDay);
  }

}

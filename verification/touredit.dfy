/** The tour edit sheet: removing one stop from a day recomputes that day's
    totals from the remaining stops, and saving is refused for a blank title.
    The place catalogue the sheet looks fees up in is a parameter. */
module TourEdit {
  import opened Basics
  import opened Distance
  import opened Routing
  import opened Itinerary

  // ---------------------------------------------------------------------------
  // Catalogue look-up and the recomputed totals
  // ---------------------------------------------------------------------------

  /** `allPlaces.find(p => p.id === id)`. */
  function FindPlace(catalog: seq<Place>, id: string): (r: Option<Place>)
    ensures r.None? <==> forall i :: 0 <= i < |catalog| ==> catalog[i].id != id
    ensures r.Some? ==> r.value in catalog && r.value.id == id
    ensures r.Some? ==> exists k :: (0 <= k < |catalog| && catalog[k] == r.value
      && forall i :: 0 <= i < k ==> catalog[i].id != id)
  {
    if |catalog| == 0 then None
    else if catalog[0].id == id then Some(catalog[0])
    else
      var r := FindPlace(catalog[1..], id);
      assert r.Some? ==> exists k :: (0 <= k < |catalog| && catalog[k] == r.value
        && forall i :: 0 <= i < k ==> catalog[i].id != id) by {
        if r.Some? {
          var k :| 0 <= k < |catalog[1..]| && catalog[1..][k] == r.value
            && forall i :: 0 <= i < k ==> catalog[1..][i].id != id;
          assert forall i :: 1 <= i < k + 1 ==> catalog[i] == catalog[1..][i - 1];
        }
      }
      r
  }

  /** `place?.admissionFee || 0`: an unknown id, a missing fee and a zero fee
      all count as 0. */
  function CatalogFee(catalog: seq<Place>, id: string): nat
  {
    match FindPlace(catalog, id)
    case None => 0
    case Some(p) => Fee(p)
  }

  /** The `reduce` that recomputes `totalCost`. */
  function StopsCost(catalog: seq<Place>, stops: seq<TourPlace>): int
  {
    if |stops| == 0 then 0
    else StopsCost(catalog, stops[..|stops| - 1]) + CatalogFee(catalog, stops[|stops| - 1].placeId) + stops[|stops| - 1].transportCost
  }

  lemma {:induction false} StopsCostAppend(catalog: seq<Place>, a: seq<TourPlace>, b: seq<TourPlace>)
    ensures StopsCost(catalog, a + b) == StopsCost(catalog, a) + StopsCost(catalog, b)
    decreases |b|
  {
    if |b| == 0 {
      assert a + b == a;
    } else {
      assert (a + b)[..|a + b| - 1] == a + b[..|b| - 1];
      StopsCostAppend(catalog, a, b[..|b| - 1]);
    }
  }

  lemma {:induction false} PlainDurationAppend(a: seq<TourPlace>, b: seq<TourPlace>)
    ensures PlainDuration(a + b) == PlainDuration(a) + PlainDuration(b)
    decreases |b|
  {
    if |b| == 0 {
      assert a + b == a;
    } else {
      assert (a + b)[..|a + b| - 1] == a + b[..|b| - 1];
      PlainDurationAppend(a, b[..|b| - 1]);
    }
  }

  // ---------------------------------------------------------------------------
  // Removing a stop
  // ---------------------------------------------------------------------------

  /** `filter((_, i) => i !== index)`: drops the element at `index`, or
      nothing when the index is out of range. */
  function RemoveAt<T>(s: seq<T>, index: int): (r: seq<T>)
    ensures 0 <= index < |s| ==> r == s[..index] + s[index + 1..]
    ensures !(0 <= index < |s|) ==> r == s
  {
    if |s| == 0 then []
    else
      var init := s[..|s| - 1];
      var rest := RemoveAt(init, index);
      if |s| - 1 == index then
        assert s[..index] == init;
        rest
      else
        assert 0 <= index < |init| ==> s[..index] + s[index + 1..] == init[..index] + init[index + 1..] + [s[|s| - 1]];
        assert !(0 <= index < |s|) ==> init + [s[|s| - 1]] == s;
        rest + [s[|s| - 1]]
  }

  /** The day with its stop removed and both totals recomputed; the day
      number, date and notes are carried over. */
  function RemoveStop(day: TourDay, catalog: seq<Place>, placeIndex: int): (r: TourDay)
    ensures r.places == RemoveAt(day.places, placeIndex)
    ensures r.totalCost == StopsCost(catalog, r.places)
    ensures r.totalDuration == PlainDuration(r.places)
    ensures r.dayNumber == day.dayNumber && r.date == day.date && r.notes == day.notes
  {
    var places := RemoveAt(day.places, placeIndex);
    day.(places := places, totalCost := StopsCost(catalog, places), totalDuration := PlainDuration(places))
  }

  /** `handleRemovePlace` once confirmed: only the day at `dayIndex` is
      replaced. An index past the end makes the source read `undefined` and
      throw, so it is excluded here. */
  function RemovePlace(days: seq<TourDay>, catalog: seq<Place>, dayIndex: nat, placeIndex: int): (r: seq<TourDay>)
    requires dayIndex < |days|
    ensures |r| == |days|
    ensures forall d :: 0 <= d < |days| && d != dayIndex ==> r[d] == days[d]
    ensures 0 <= placeIndex < |days[dayIndex].places| ==>
      r[dayIndex].places == days[dayIndex].places[..placeIndex] + days[dayIndex].places[placeIndex + 1..]
    ensures !(0 <= placeIndex < |days[dayIndex].places|) ==> r[dayIndex].places == days[dayIndex].places
    ensures r[dayIndex].totalCost == StopsCost(catalog, r[dayIndex].places)
    ensures r[dayIndex].totalDuration == PlainDuration(r[dayIndex].places)
    ensures r[dayIndex].dayNumber == days[dayIndex].dayNumber
    ensures r[dayIndex].date == days[dayIndex].date && r[dayIndex].notes == days[dayIndex].notes
  {
    days[dayIndex := RemoveStop(days[dayIndex], catalog, placeIndex)]
  }

  /** If a day's totals were the recomputed sums, removing a stop lowers the
      cost by exactly that stop's fee and fare and the duration by exactly its
      visit and travel minutes. */
  lemma {:induction false} RemovePlaceDelta(days: seq<TourDay>, catalog: seq<Place>, dayIndex: nat, placeIndex: nat)
    requires dayIndex < |days| && placeIndex < |days[dayIndex].places|
    requires days[dayIndex].totalCost == StopsCost(catalog, days[dayIndex].places)
    requires days[dayIndex].totalDuration == PlainDuration(days[dayIndex].places)
    ensures var gone := days[dayIndex].places[placeIndex];
      var r := RemovePlace(days, catalog, dayIndex, placeIndex);
      && r[dayIndex].totalCost == days[dayIndex].totalCost - CatalogFee(catalog, gone.placeId) - gone.transportCost
      && r[dayIndex].totalDuration == days[dayIndex].totalDuration - gone.visitDuration - gone.transportDuration
      && |r[dayIndex].places| == |days[dayIndex].places| - 1
  {
    var s := days[dayIndex].places;
    var a := s[..placeIndex];
    var b := s[placeIndex + 1..];
    assert s == a + [s[placeIndex]] + b;
    StopsCostAppend(catalog, a + [s[placeIndex]], b);
    StopsCostAppend(catalog, a, [s[placeIndex]]);
    StopsCostAppend(catalog, a, b);
    PlainDurationAppend(a + [s[placeIndex]], b);
    PlainDurationAppend(a, [s[placeIndex]]);
    PlainDurationAppend(a, b);
    assert [s[placeIndex]][..0] == [];
  }

  /** The generator and the edit sheet agree on cost: when the catalogue
      reports the same fee for every routed place, the recomputed sum over a
      day's stops equals the fees-plus-fares total the day walk produced. */
  lemma {:induction false} StopsCostMatchesWalk(catalog: seq<Place>, routed: seq<Place>, stops: seq<TourPlace>)
    requires |routed| == |stops|
    requires forall i :: 0 <= i < |stops| ==> stops[i].placeId == routed[i].id
    requires forall i :: 0 <= i < |routed| ==> CatalogFee(catalog, routed[i].id) == Fee(routed[i])
    ensures StopsCost(catalog, stops) == FeesAndFares(routed, stops)
  {
    if |stops| > 0 {
      StopsCostMatchesWalk(catalog, routed[..|routed| - 1], stops[..|stops| - 1]);
    }
  }

  /** On a freshly built day the recomputed cost equals the stored one, while
      the recomputed duration drops any lunch wait the day walk added. */
  lemma {:induction false} RecomputeOnBuiltDay(h: Haversine, dayPlaces: seq<Place>, dayIndex: nat, user: Coordinate, startDay: int, catalog: seq<Place>)
    requires NonNegative(h)
    requires forall p :: p in dayPlaces ==> CatalogFee(catalog, p.id) == Fee(p)
    ensures var d := BuildDay(h, dayPlaces, dayIndex, user, startDay);
      var e := RemoveStop(d, catalog, -1);
      && e.places == d.places
      && e.totalCost == d.totalCost
      && e.totalDuration <= d.totalDuration < e.totalDuration + 60
  {
    var d := BuildDay(h, dayPlaces, dayIndex, user, startDay);
    var routed := RouteDay(h, dayPlaces, dayIndex, user);
    BuildDaySpec(h, dayPlaces, dayIndex, user, startDay);
    var start := if dayIndex == 0 then Some(user) else None;
    OptimizeWithinWardSpec(h, dayPlaces, start);
    assert |d.places| == |routed| by {
      assert |StopIds(d.places)| == |IdSeq(routed)|;
    }
    forall i | 0 <= i < |d.places| ensures d.places[i].placeId == routed[i].id {
      assert StopIds(d.places)[i] == IdSeq(routed)[i];
    }
    forall i | 0 <= i < |routed| ensures CatalogFee(catalog, routed[i].id) == Fee(routed[i]) {
      assert routed[i] in routed;
    }
    StopsCostMatchesWalk(catalog, routed, d.places);
  }

  // ---------------------------------------------------------------------------
  // Saving
  // ---------------------------------------------------------------------------

  /** The characters `String.prototype.trim` strips: the ECMAScript
      WhiteSpace and LineTerminator code points. */
  predicate IsTrimmable(c: char)
  {
    || c == ' ' || c == '\t' || c == '\n' || c == '\r'
    || c == '\U{000B}' || c == '\U{000C}' || c == '\U{00A0}' || c == '\U{1680}'
    || ('\U{2000}' <= c <= '\U{200A}')
    || c == '\U{2028}' || c == '\U{2029}' || c == '\U{202F}' || c == '\U{205F}'
    || c == '\U{3000}' || c == '\U{FEFF}'
  }

  /** How many blanks `trim` strips from the front. */
  function Leading(s: string): (k: nat)
    ensures k <= |s|
    ensures forall i :: 0 <= i < k ==> IsTrimmable(s[i])
    ensures k < |s| ==> !IsTrimmable(s[k])
  {
    if |s| > 0 && IsTrimmable(s[0]) then
      var k := Leading(s[1..]);
      assert forall i :: 1 <= i < k + 1 ==> s[i] == s[1..][i - 1];
      k + 1
    else 0
  }

  /** Where the trailing run of blanks that `trim` strips begins. */
  function Trailing(s: string): (k: nat)
    ensures k <= |s|
    ensures forall i :: k <= i < |s| ==> IsTrimmable(s[i])
    ensures k > 0 ==> !IsTrimmable(s[k - 1])
  {
    if |s| > 0 && IsTrimmable(s[|s| - 1]) then
      var init := s[..|s| - 1];
      var k := Trailing(init);
      assert forall i :: k <= i < |init| ==> s[i] == init[i];
      k
    else |s|
  }

  /** `String.prototype.trim`: the text between the leading and trailing
      blanks, and empty exactly when every character is blank. */
  function Trim(s: string): (r: string)
    ensures r == [] <==> forall i :: 0 <= i < |s| ==> IsTrimmable(s[i])
    ensures |r| > 0 ==> !IsTrimmable(r[0]) && !IsTrimmable(r[|r| - 1])
  {
    TrimEmpty(s);
    s[Leading(s)..][..Trailing(s[Leading(s)..])]
  }

  lemma {:induction false} TrimEmpty(s: string)
    ensures var a := s[Leading(s)..];
      && (a[..Trailing(a)] == [] <==> forall i :: 0 <= i < |s| ==> IsTrimmable(s[i]))
      && (|a[..Trailing(a)]| > 0 ==> !IsTrimmable(a[..Trailing(a)][0]) && !IsTrimmable(a[..Trailing(a)][Trailing(a) - 1]))
  {
    var k := Leading(s);
    var a := s[k..];
    var m := Trailing(a);
    if m != 0 {
      assert a[0] == s[k];
    }
  }

  /** `handleSave`: refused (no `onSave` call) when the title is blank after
      trimming; otherwise the title is passed on as typed, untrimmed. */
  function SaveTitle(title: string, days: seq<TourDay>): (r: Option<(string, seq<TourDay>)>)
    ensures r.None? <==> forall i :: 0 <= i < |title| ==> IsTrimmable(title[i])
    ensures r.Some? ==> r.value == (title, days)
  {
    if Trim(title) == [] then None else Some((title, days))
  }

  /** A title with surrounding blanks is saved as it was typed. */
  lemma {:induction false} SavePadded(days: seq<TourDay>)
    ensures SaveTitle(" Tokyo ", days) == Some((" Tokyo ", days))
    ensures SaveTitle(" \t", days) == None
  {
    assert !IsTrimmable(" Tokyo "[1]);
  }
}

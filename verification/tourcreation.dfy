/** The tour-creation context on the device: the place-selection state used
    while building a new tour, the guard in front of the generation request,
    and the edits applied to the locally saved list of tours. Storage, haptics,
    navigation and the request itself are side effects outside the model. */
module TourCreation {
  import opened Basics
  import opened Lists
  import opened Itinerary

  /** A tour as the device keeps it. The optional fields are `Option`s;
      `isActive` is absent until a tour is first activated or deactivated. */
  datatype SavedTour = SavedTour(
    id: string,
    title: string,
    places: seq<string>,
    createdAt: int,
    detailedDays: Option<seq<TourDay>>,
    isActive: Option<bool>,
    startDate: Option<string>,
    endDate: Option<string>)

  /** `isActive` read as a condition: only an explicit `true` counts. */
  predicate IsActive(t: SavedTour)
  {
    t.isActive == Some(true)
  }

  // ---------------------------------------------------------------------------
  // Selection mode
  // ---------------------------------------------------------------------------

  datatype Selection = Selection(selectionMode: bool, selectedPlaces: seq<string>, tourName: string)

  /** The state the hook starts in. */
  const Idle: Selection := Selection(false, [], "")

  function EnableSelectionMode(s: Selection, name: string): (r: Selection)
    ensures r.selectionMode && r.selectedPlaces == [] && r.tourName == name
  {
    Selection(true, [], name)
  }

  function DisableSelectionMode(s: Selection): (r: Selection)
    ensures !r.selectionMode && r.selectedPlaces == [] && r.tourName == ""
  {
    Idle
  }

  /** Enabling forgets whatever was selected before; disabling after enabling
      gives back the starting state whatever the name was. */
  lemma {:induction false} SelectionModeRoundTrip(s: Selection, s': Selection, name: string)
    ensures EnableSelectionMode(s, name) == EnableSelectionMode(s', name)
    ensures DisableSelectionMode(EnableSelectionMode(s, name)) == Idle
    ensures DisableSelectionMode(DisableSelectionMode(s)) == DisableSelectionMode(s)
  {
  }

  /** Removes every occurrence of a selected id, or appends an unselected one. */
  function TogglePlaceSelection(s: Selection, placeId: string): (r: Selection)
    ensures r.selectionMode == s.selectionMode && r.tourName == s.tourName
    ensures placeId in r.selectedPlaces <==> placeId !in s.selectedPlaces
    ensures forall q :: q != placeId ==> (q in r.selectedPlaces <==> q in s.selectedPlaces)
    ensures placeId !in s.selectedPlaces ==> r.selectedPlaces == s.selectedPlaces + [placeId]
    ensures placeId in s.selectedPlaces ==> r.selectedPlaces == Without(s.selectedPlaces, placeId)
    ensures placeId in s.selectedPlaces ==>
      |r.selectedPlaces| == |s.selectedPlaces| - multiset(s.selectedPlaces)[placeId]
  {
    WithoutCount(s.selectedPlaces, placeId);
    s.(selectedPlaces := Toggle(s.selectedPlaces, placeId))
  }

  /** Selecting and then deselecting an id that was not selected gives the
      same selection back. */
  lemma {:induction false} ToggleSelectionTwice(s: Selection, placeId: string)
    requires placeId !in s.selectedPlaces
    ensures TogglePlaceSelection(TogglePlaceSelection(s, placeId), placeId) == s
  {
    ToggleTwiceAbsent(s.selectedPlaces, placeId);
  }

  /** A selection built by toggling never lists an id twice. */
  lemma {:induction false} ToggleSelectionNoDup(s: Selection, placeId: string)
    requires NoDup(s.selectedPlaces)
    ensures NoDup(TogglePlaceSelection(s, placeId).selectedPlaces)
  {
  }

  // ---------------------------------------------------------------------------
  // The guard in front of the generation request
  // ---------------------------------------------------------------------------

  /** The payload of the generation request; `startDate` is tomorrow,
      written as a day number. */
  datatype GenerateRequest = GenerateRequest(
    userId: string,
    title: string,
    placeIds: seq<string>,
    userLocation: Coordinate,
    startDate: int)

  /** `None` means no request is issued. */
  function CreateTourRequest(s: Selection, userId: string, location: Option<Coordinate>, today: int): (r: Option<GenerateRequest>)
    ensures r.None? <==> |s.selectedPlaces| == 0 || s.tourName == "" || location.None?
    ensures r.Some? ==> && r.value.placeIds == s.selectedPlaces
                        && r.value.title == s.tourName
                        && r.value.userId == userId
                        && Some(r.value.userLocation) == location
                        && r.value.startDate == today + 1
  {
    if |s.selectedPlaces| == 0 || s.tourName == "" then None
    else if location.None? then None
    else Some(GenerateRequest(userId, s.tourName, s.selectedPlaces, location.value, today + 1))
  }

  /** Straight after enabling selection mode nothing can be generated. */
  lemma {:induction false} FreshSelectionCannotCreate(s: Selection, name: string, userId: string, location: Option<Coordinate>, today: int)
    ensures CreateTourRequest(EnableSelectionMode(s, name), userId, location, today).None?
  {
  }

  // ---------------------------------------------------------------------------
  // Edits on the saved list
  // ---------------------------------------------------------------------------

  /** `filter(t => t.id !== tourId)`. */
  function DeleteTour(tours: seq<SavedTour>, id: string): (r: seq<SavedTour>)
    ensures |r| <= |tours|
    ensures forall t :: t in r <==> t in tours && t.id != id
  {
    if |tours| == 0 then []
    else DeleteTour(tours[..|tours| - 1], id) + (if tours[|tours| - 1].id == id then [] else [tours[|tours| - 1]])
  }

  /** Deleting works piecewise, so the surviving tours keep their order. */
  lemma {:induction false} DeleteTourAppend(a: seq<SavedTour>, b: seq<SavedTour>, id: string)
    ensures DeleteTour(a + b, id) == DeleteTour(a, id) + DeleteTour(b, id)
    decreases |b|
  {
    if |b| == 0 {
      assert a + b == a;
    } else {
      assert (a + b)[..|a + b| - 1] == a + b[..|b| - 1];
      DeleteTourAppend(a, b[..|b| - 1], id);
    }
  }

  /** Deleting an id nobody holds changes nothing, and deleting twice is the
      same as deleting once. */
  lemma {:induction false} DeleteTourAbsent(tours: seq<SavedTour>, id: string)
    requires forall t :: t in tours ==> t.id != id
    ensures DeleteTour(tours, id) == tours
  {
    if |tours| > 0 {
      assert tours[..|tours| - 1] + [tours[|tours| - 1]] == tours;
      DeleteTourAbsent(tours[..|tours| - 1], id);
    }
  }

  lemma {:induction false} DeleteTourIdempotent(tours: seq<SavedTour>, id: string)
    ensures DeleteTour(DeleteTour(tours, id), id) == DeleteTour(tours, id)
  {
    DeleteTourAbsent(DeleteTour(tours, id), id);
  }

  /** Afterwards exactly the tours with the id are active; nothing else about
      any tour changes. */
  function ActivateTour(tours: seq<SavedTour>, id: string): (r: seq<SavedTour>)
    ensures |r| == |tours|
    ensures forall i :: 0 <= i < |r| ==> (IsActive(r[i]) <==> tours[i].id == id)
    ensures forall i :: 0 <= i < |r| ==> r[i].isActive.Some? && r[i].(isActive := tours[i].isActive) == tours[i]
  {
    seq(|tours|, i requires 0 <= i < |tours| => tours[i].(isActive := Some(tours[i].id == id)))
  }

  function DeactivateTour(tours: seq<SavedTour>): (r: seq<SavedTour>)
    ensures |r| == |tours|
    ensures forall i :: 0 <= i < |r| ==> !IsActive(r[i]) && r[i].(isActive := tours[i].isActive) == tours[i]
  {
    seq(|tours|, i requires 0 <= i < |tours| => tours[i].(isActive := Some(false)))
  }

  /** `find(t => t.isActive)`: the first active tour. */
  function GetActiveTour(tours: seq<SavedTour>): (r: Option<SavedTour>)
    ensures r.None? <==> forall i :: 0 <= i < |tours| ==> !IsActive(tours[i])
    ensures r.Some? ==> exists i :: (0 <= i < |tours| && tours[i] == r.value && IsActive(r.value)
      && forall j :: 0 <= j < i ==> !IsActive(tours[j]))
  {
    if |tours| == 0 then None
    else if IsActive(tours[0]) then Some(tours[0])
    else
      var r := GetActiveTour(tours[1..]);
      assert r.Some? ==> exists i :: (0 <= i < |tours| && tours[i] == r.value && IsActive(r.value)
        && forall j :: 0 <= j < i ==> !IsActive(tours[j])) by {
        if r.Some? {
          var i :| 0 <= i < |tours[1..]| && tours[1..][i] == r.value && IsActive(r.value)
            && forall j :: 0 <= j < i ==> !IsActive(tours[1..][j]);
          assert forall j :: 1 <= j < i + 1 ==> tours[j] == tours[1..][j - 1];
        }
      }
      r
  }

  /** After deactivating, there is no active tour. */
  lemma {:induction false} DeactivateLeavesNoneActive(tours: seq<SavedTour>)
    ensures GetActiveTour(DeactivateTour(tours)) == None
  {
  }

  /** After activating an id, the active tour is the first tour with that id,
      marked active; if no tour has the id, none is active. */
  lemma {:induction false} ActivateThenGetActive(tours: seq<SavedTour>, id: string, i: nat)
    requires i < |tours| && tours[i].id == id
    requires forall j :: 0 <= j < i ==> tours[j].id != id
    ensures GetActiveTour(ActivateTour(tours, id)) == Some(tours[i].(isActive := Some(true)))
  {
    var r := ActivateTour(tours, id);
    var a := GetActiveTour(r);
    assert IsActive(r[i]);
    var k :| 0 <= k < |r| && r[k] == a.value && IsActive(a.value) && forall j :: 0 <= j < k ==> !IsActive(r[j]);
    assert k == i;
    assert r[i] == tours[i].(isActive := Some(true));
  }

  lemma {:induction false} ActivateUnknownId(tours: seq<SavedTour>, id: string)
    requires forall t :: t in tours ==> t.id != id
    ensures GetActiveTour(ActivateTour(tours, id)) == None
  {
    var r := ActivateTour(tours, id);
    forall i | 0 <= i < |r| ensures !IsActive(r[i]) {
      assert tours[i] in tours;
    }
  }

  /** Every tour with the id gets `detailedDays := days`; nothing else changes. */
  function UpdateTourDays(tours: seq<SavedTour>, id: string, days: seq<TourDay>): (r: seq<SavedTour>)
    ensures |r| == |tours|
    ensures forall i :: 0 <= i < |r| ==>
      && r[i].detailedDays == (if tours[i].id == id then Some(days) else tours[i].detailedDays)
      && r[i].(detailedDays := tours[i].detailedDays) == tours[i]
  {
    seq(|tours|, i requires 0 <= i < |tours| => if tours[i].id == id then tours[i].(detailedDays := Some(days)) else tours[i])
  }

  /** Every tour with the id gets `places := placeIds`; nothing else changes. */
  function UpdateTourPlaces(tours: seq<SavedTour>, id: string, placeIds: seq<string>): (r: seq<SavedTour>)
    ensures |r| == |tours|
    ensures forall i :: 0 <= i < |r| ==>
      && r[i].places == (if tours[i].id == id then placeIds else tours[i].places)
      && r[i].(places := tours[i].places) == tours[i]
  {
    seq(|tours|, i requires 0 <= i < |tours| => if tours[i].id == id then tours[i].(places := placeIds) else tours[i])
  }

  /** Updating with no tour holding the id changes nothing. */
  lemma {:induction false} UpdateUnknownId(tours: seq<SavedTour>, id: string, days: seq<TourDay>, placeIds: seq<string>)
    requires forall t :: t in tours ==> t.id != id
    ensures UpdateTourDays(tours, id, days) == tours
    ensures UpdateTourPlaces(tours, id, placeIds) == tours
  {
    var a := UpdateTourDays(tours, id, days);
    var b := UpdateTourPlaces(tours, id, placeIds);
    forall i | 0 <= i < |tours| ensures a[i] == tours[i] && b[i] == tours[i] {
      assert tours[i] in tours;
    }
  }

  // ---------------------------------------------------------------------------
  // Moving one place within a day
  // ---------------------------------------------------------------------------

  /** Where `splice(to, 0, x)` lands in a list that has lost one element:
      an index past the end is clamped to the end. */
  function Landing(n: nat, to: nat): (k: nat)
    requires n > 0
    ensures k < n
    ensures k == to || (to >= n - 1 && k == n - 1)
  {
    if to < n - 1 then to else n - 1
  }

  /** `splice(from, 1)` followed by `splice(to, 0, removed)`. */
  function Move<T>(s: seq<T>, from: nat, to: nat): (r: seq<T>)
    requires from < |s|
    ensures |r| == |s|
    ensures r[Landing(|s|, to)] == s[from]
    ensures from <= Landing(|s|, to) ==>
      && (forall i :: 0 <= i < from ==> r[i] == s[i])
      && (forall i :: from <= i < Landing(|s|, to) ==> r[i] == s[i + 1])
      && (forall i :: Landing(|s|, to) < i < |s| ==> r[i] == s[i])
    ensures Landing(|s|, to) < from ==>
      && (forall i :: 0 <= i < Landing(|s|, to) ==> r[i] == s[i])
      && (forall i :: Landing(|s|, to) < i <= from ==> r[i] == s[i - 1])
      && (forall i :: from < i < |s| ==> r[i] == s[i])
  {
    var rest := s[..from] + s[from + 1..];
    var k := Landing(|s|, to);
    rest[..k] + [s[from]] + rest[k..]
  }

  /** Moving keeps the same elements. */
  lemma {:induction false} MovePermutes<T>(s: seq<T>, from: nat, to: nat)
    requires from < |s|
    ensures multiset(Move(s, from, to)) == multiset(s)
  {
    var rest := s[..from] + s[from + 1..];
    var k := Landing(|s|, to);
    assert s == s[..from] + [s[from]] + s[from + 1..];
    assert rest == rest[..k] + rest[k..];
    calc {
      multiset(Move(s, from, to));
      multiset(rest[..k]) + multiset{s[from]} + multiset(rest[k..]);
      multiset(rest) + multiset{s[from]};
      multiset(s[..from]) + multiset(s[from + 1..]) + multiset{s[from]};
      multiset(s);
    }
  }

  /** Moving the element back to where it came from undoes the move. */
  lemma {:induction false} MoveBack<T>(s: seq<T>, from: nat, to: nat)
    requires from < |s|
    ensures Move(Move(s, from, to), Landing(|s|, to), from) == s
  {
    var r := Move(s, from, to);
    var k := Landing(|s|, to);
    assert Landing(|s|, from) == from;
    var b := Move(r, k, from);
    forall i | 0 <= i < |s| ensures b[i] == s[i] {
    }
  }

  /** Moving an element onto its own position changes nothing. */
  lemma {:induction false} MoveInPlace<T>(s: seq<T>, from: nat)
    requires from < |s|
    ensures Move(s, from, from) == s
  {
    var r := Move(s, from, from);
    forall i | 0 <= i < |s| ensures r[i] == s[i] {
    }
  }

  /** `find(t => t.id === tourId)`. */
  function FindTour(tours: seq<SavedTour>, id: string): (r: Option<SavedTour>)
    ensures r.None? <==> forall i :: 0 <= i < |tours| ==> tours[i].id != id
    ensures r.Some? ==> exists i :: (0 <= i < |tours| && tours[i] == r.value && r.value.id == id
      && forall j :: 0 <= j < i ==> tours[j].id != id)
  {
    if |tours| == 0 then None
    else if tours[0].id == id then Some(tours[0])
    else
      var r := FindTour(tours[1..], id);
      assert r.Some? ==> exists i :: (0 <= i < |tours| && tours[i] == r.value && r.value.id == id
        && forall j :: 0 <= j < i ==> tours[j].id != id) by {
        if r.Some? {
          var i :| 0 <= i < |tours[1..]| && tours[1..][i] == r.value && r.value.id == id
            && forall j :: 0 <= j < i ==> tours[1..][j].id != id;
          assert forall j :: 1 <= j < i + 1 ==> tours[j] == tours[1..][j - 1];
        }
      }
      r
  }

  /** The day and the place being moved exist (a missing day makes the
      source throw; a missing place would insert `undefined`). */
  predicate ReorderDefined(tours: seq<SavedTour>, id: string, dayIndex: nat, from: nat)
  {
    match FindTour(tours, id)
    case None => true
    case Some(t) =>
      match t.detailedDays
      case None => true
      case Some(days) => dayIndex < |days| && from < |days[dayIndex].places|
  }

  /** The days of the first tour with the id, with one place moved. */
  function ReorderedDays(days: seq<TourDay>, dayIndex: nat, from: nat, to: nat): (r: seq<TourDay>)
    requires dayIndex < |days| && from < |days[dayIndex].places|
    ensures |r| == |days|
    ensures forall d :: 0 <= d < |days| && d != dayIndex ==> r[d] == days[d]
    ensures r[dayIndex].places == Move(days[dayIndex].places, from, to)
    ensures r[dayIndex].(places := days[dayIndex].places) == days[dayIndex]
    ensures multiset(r[dayIndex].places) == multiset(days[dayIndex].places)
  {
    MovePermutes(days[dayIndex].places, from, to);
    days[dayIndex := days[dayIndex].(places := Move(days[dayIndex].places, from, to))]
  }

  /** Takes the days of the FIRST tour with the id, moves one place in one
      day, and writes the result into EVERY tour with the id. */
  function ReorderTourPlaces(tours: seq<SavedTour>, id: string, dayIndex: nat, from: nat, to: nat): (r: seq<SavedTour>)
    requires ReorderDefined(tours, id, dayIndex, from)
    ensures FindTour(tours, id).None? ==> r == tours
    ensures FindTour(tours, id).Some? && FindTour(tours, id).value.detailedDays.None? ==> r == tours
    ensures FindTour(tours, id).Some? && FindTour(tours, id).value.detailedDays.Some? ==>
      r == UpdateTourDays(tours, id, ReorderedDays(FindTour(tours, id).value.detailedDays.value, dayIndex, from, to))
  {
    match FindTour(tours, id)
    case None => tours
    case Some(t) =>
      match t.detailedDays
      case None => tours
      case Some(days) => UpdateTourDays(tours, id, ReorderedDays(days, dayIndex, from, to))
  }

  /** For the first tour with the id: only the chosen day changes, its places
      are a permutation of the old ones with the moved place at its landing
      index, and tours with another id are untouched. */
  lemma {:induction false} ReorderFirstTour(tours: seq<SavedTour>, id: string, dayIndex: nat, from: nat, to: nat, i: nat)
    requires ReorderDefined(tours, id, dayIndex, from)
    requires i < |tours| && tours[i].id == id && forall j :: 0 <= j < i ==> tours[j].id != id
    requires tours[i].detailedDays.Some?
    ensures var r := ReorderTourPlaces(tours, id, dayIndex, from, to);
      var old_ := tours[i].detailedDays.value;
      && |r| == |tours|
      && (forall j :: 0 <= j < |tours| && tours[j].id != id ==> r[j] == tours[j])
      && r[i].detailedDays.Some?
      && |r[i].detailedDays.value| == |old_|
      && (forall d :: 0 <= d < |old_| && d != dayIndex ==> r[i].detailedDays.value[d] == old_[d])
      && multiset(r[i].detailedDays.value[dayIndex].places) == multiset(old_[dayIndex].places)
      && r[i].detailedDays.value[dayIndex].places[Landing(|old_[dayIndex].places|, to)] == old_[dayIndex].places[from]
  {
    var f := FindTour(tours, id);
    var k :| 0 <= k < |tours| && tours[k] == f.value && f.value.id == id && forall j :: 0 <= j < k ==> tours[j].id != id;
    assert k == i;
  }

  /** A later tour sharing the id receives the first tour's days, not its own
      days reordered. */
  lemma {:induction false} ReorderCopiesFirstToDuplicates(t: SavedTour, u: SavedTour, days: seq<TourDay>, other: seq<TourDay>)
    requires t.id == u.id && t.detailedDays == Some(days) && u.detailedDays == Some(other)
    requires |days| > 0 && |days[0].places| > 0
    ensures ReorderTourPlaces([t, u], t.id, 0, 0, 0)[1].detailedDays == Some(days)
  {
    MoveInPlace(days[0].places, 0);
    var nd := ReorderedDays(days, 0, 0, 0);
    assert nd == days;
  }
}

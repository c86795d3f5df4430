# Hikari itinerary engine — a Dafny model

This project models the itinerary engine of the Hikari Tokyo travel app together with the
small state transitions around it, and proves properties of the model. Every operation is a
pure function over immutable datatypes.

- **Distance calculator** (`Distance`). It turns the great-circle distance between two
  coordinates into a transport leg: a walk, metro, bus or taxi mode, minutes and yen. The
  haversine formula is a function-valued parameter `h`. What the engine relies on is stated
  as the ghost predicate `IsHaversine`: the distance is non-negative and symmetric, and zero
  between a point and itself. Mode, minutes and yen come from the unrounded distance. Only
  the reported distance is rounded to two decimals.
  `CalculateDistanceFromUserLocation` is an alias of `CalculateDistance`.
- **Tour optimiser** (`Grouping`, `Routing`, `Packing`, `Itinerary`):
  - places are grouped by ward, in first-occurrence order;
  - ward groups are packed into days under a 480-minute budget, heaviest group first, with a
    stable sort;
  - each day is ordered by a greedy nearest-neighbour walk. Day 1 starts from the place
    closest to the user;
  - each day is walked on a minute clock that starts at 09:00. A mid-day clock that lands
    strictly between 13:00 and 14:00 jumps to 14:00;
  - per-day totals and whole-tour estimates are summed.
- **In-memory stores** (`Store`, `ApiDb`). These cover the catalogue queries by ward, the
  saved user tours (create, delete, get by id, get by user) and the favourites map of sets
  with its toggle. The two copies of the store behave the same. `ApiDb.Init` is the state
  the second copy starts in.
- **Device-side screens**:
  - `TourCreation`: the place-selection mode, the guard in front of the generation request,
    and the edits to the saved tour list (delete, activate, deactivate, update, move one
    place within a day);
  - `TourEdit`: removing a stop and recomputing the day's totals, and the blank-title guard;
  - `Filters`: the filter chips;
  - `Notifications`: the read flags and the unread badge.

Shared list helpers live in `Basics` (places and their defaults, duplicate-freedom) and
`Lists` (remove-all and the add-or-remove toggle).

Behaviours of the code that the model keeps as written:
- The router compares the distance **after** rounding to two decimals. Ties are decided on
  the rounded value, and the strict `<` lets the earliest candidate win.
- The router only yields a permutation of its input when place ids are distinct. With a
  repeated id, the visited-id set silently drops the copy. The permutation and coverage
  lemmas therefore require `DistinctIds`.
- The planned time is `⌊t/60⌋` hours and `t mod 60` minutes with no wrap at 24:00.
- Moving a place within a day reads the days of the **first** tour with the id and writes
  them into **every** tour with that id (`ReorderCopiesFirstToDuplicates`).
- Removing a stop in the edit sheet recomputes the day's duration as the plain sum of visit
  and travel minutes. That drops any lunch wait the generator had counted
  (`RecomputeOnBuiltDay`).
- A double favourite toggle for a user with no entry leaves an empty entry behind. The map is
  therefore not literally restored, although every lookup answers as before
  (`DoubleToggleUnknownUser`). For a known user, a present place ends up listed last.

## Model

| member | source | states |
|---|---|---|
| Basics.VisitMinutes | api/services/tour-optimizer.ts:133 | a missing or zero visit duration counts as 60 minutes; any other value is used as is |
| Basics.Fee | api/services/tour-optimizer.ts:122 | a missing admission fee counts as 0; otherwise the fee itself |
| Basics.Distinct | api/services/tour-optimizer.ts:149 | the distinct wards of a day: no repeats, and exactly the values of the input |
| Distance.Round2 | api/services/distance-calculator.ts:81 | the reported distance is a whole number of hundredths and lies within half a hundredth of the true one |
| Distance.EstimateTransportMode | api/services/distance-calculator.ts:31-36 | walk iff d < 0.8, metro iff 0.8 ≤ d < 15, bus iff 15 ≤ d < 30, taxi iff d ≥ 30 |
| Distance.CalculateTravelTime | api/services/distance-calculator.ts:38-51 | minutes are the ceiling of 12d, 3d+10, 4d+15 or 2.5d by mode; for d ≥ 0 a metro leg takes at least 10 and a bus leg at least 15 |
| Distance.CalculateTransportCost | api/services/distance-calculator.ts:53-69 | walking is free; metro is 170/200/240/280 with strict tiers at 3, 7 and 12 km; bus ⌈50d⌉, taxi ⌈400d⌉ |
| Distance.CalculateDistance | api/services/distance-calculator.ts:71-86 | mode, minutes and yen come from the unrounded distance; only the reported distance is rounded, to the one whole number of hundredths within half a hundredth of it |
| Distance.CalculateDistanceFromUserLocation | api/services/distance-calculator.ts:88-93 | the leg is exactly CalculateDistance on the same arguments |
| Distance.ModeBoundaries | api/services/distance-calculator.ts:31-36 | exactly 0.8, 15 and 30 km fall into the next mode |
| Distance.ModeMonotone | api/services/distance-calculator.ts:31-36 | a longer leg never gets a lower-ranked mode |
| Distance.CostMonotone | api/services/distance-calculator.ts:53-69 | the fare never falls as the distance grows, across all four modes |
| Distance.DurationNotMonotone | api/services/distance-calculator.ts:38-51 | a 30 km taxi (75 min) is quicker than a 29 km bus (131 min) |
| Distance.RoundedDistanceMayHideMode | api/services/distance-calculator.ts:75-85 | 0.799 km is reported as 0.80 and is still a free walk |
| Distance.SameEndpointsLeg | api/services/distance-calculator.ts:71-86 | identical endpoints give a 0 km, 0 minute, free walk leg |
| Distance.LegSymmetric | api/services/distance-calculator.ts:71-86 | the leg is the same in both directions |
| Grouping.FindWard | api/services/tour-optimizer.ts:13 | finds the group of a ward exactly when the ward already has one |
| Grouping.GroupByWardsSpec | api/services/tour-optimizer.ts:8-20 | group keys are the distinct wards in first-occurrence order, and each group is exactly its ward's places in input order |
| Grouping.GroupByWardsPartition | api/services/tour-optimizer.ts:8-20 | flattening the groups gives back the input as a multiset |
| Grouping.GroupByWardsGroupsWellFormed | api/services/tour-optimizer.ts:11-17 | no group is empty, and every place sits in its own ward's group |
| Routing.NearestUnvisited | api/services/tour-optimizer.ts:43-51 | the unvisited place at strictly minimal rounded distance, the earliest on ties; none only when every id is visited |
| Routing.EarliestNearestUnique | api/services/tour-optimizer.ts:43-51 | the earliest-nearest choice is unique |
| Routing.ClosestToAnchor | api/services/tour-optimizer.ts:28-34 | the place at strictly minimal rounded distance to the anchor, the earliest on ties |
| Routing.ClosestAgreesWithNearest | api/services/tour-optimizer.ts:28-34 | the anchor reduce picks the same place as a nearest scan with nothing visited |
| Routing.WalkSpec | api/services/tour-optimizer.ts:39-60 | the loop extends the route greedily, never repeats an id, uses only input places and reaches every input id |
| Routing.OptimizeWithinWardSpec | api/services/tour-optimizer.ts:22-63 | up to one place is returned unchanged; otherwise the route starts at `places[0]` or at the place closest to the anchor, and then follows the greedy rule |
| Routing.OptimizeWithinWardPermutation | api/services/tour-optimizer.ts:25-62 | with distinct ids the route is a permutation of the input |
| Packing.SortByMinutesSpec | api/services/tour-optimizer.ts:72-76 | the sort is a permutation, descending in total visit minutes, and stable |
| Packing.InsertStable | api/services/tour-optimizer.ts:72-76 | inserting one group keeps the relative order of groups with equal minutes |
| Packing.SortByMinutesFlatten | api/services/tour-optimizer.ts:72-76 | sorting keeps the same places |
| Packing.RunMinutesIsDayMinutes | api/services/tour-optimizer.ts:79-81 | a day's running total is the visit minutes of its places |
| Packing.PackRunsSpec | api/services/tour-optimizer.ts:78-86 | the days concatenate to the sorted groups, no group is split, and a day of two or more groups stays within 480 minutes |
| Packing.DistributeIntoDays | api/services/tour-optimizer.ts:65-89 | at most one day per ward group (no day is opened empty), and at least one day when there is any group |
| Packing.RunsOkCount | api/services/tour-optimizer.ts:81-85 | each day opened holds at least one group, so there are no more days than groups |
| Packing.PackedDayCount | api/services/tour-optimizer.ts:72-86 | the packing of the sorted groups has between one day and one day per group for a non-empty input |
| Packing.DistributeIntoDaysFlatten | api/services/tour-optimizer.ts:78-86 | flattening the days gives the sorted groups concatenated, which is the input as a multiset |
| Packing.DistributeIntoDaysBudget | api/services/tour-optimizer.ts:81 | any day holding two or more ward groups totals at most 480 minutes |
| Packing.TwoHeavyWardsSplit | api/services/tour-optimizer.ts:72-86 | two wards that exceed the budget together go to two days, heavier first and the earlier on a tie |
| Itinerary.JsRem | api/services/tour-optimizer.ts:119 | JavaScript `%`: the dividend is a whole multiple of the divisor plus the remainder, and the remainder lies strictly inside the divisor on the side of the dividend's sign (truncated division) |
| Itinerary.PlannedTime | api/services/tour-optimizer.ts:118-120 | for a non-negative clock, minutes are in 0..59 and hours*60+minutes is the clock |
| Itinerary.HoursRounding | api/services/tour-optimizer.ts:163 | rounding minutes/60 half up is (m+30) div 60 |
| Itinerary.CalculateTourEstimates | api/services/tour-optimizer.ts:156-172 | total days, cost, places and hours are the day count, the sums and rounded hours; all are zero for no days |
| Itinerary.StopIds | api/services/tour-optimizer.ts:125 | the stops' place ids, position by position |
| Itinerary.BuildDays | api/services/tour-optimizer.ts:102-151 | one built day per packed day, in order |
| Itinerary.WalkPrefixShape | api/services/tour-optimizer.ts:109-131 | one stop per routed place, recording the place, the leg from the previous location and the arrival time |
| Itinerary.WalkPrefixCost | api/services/tour-optimizer.ts:122 | the day's cost is the admission fees plus the recorded fares |
| Itinerary.WalkPrefixClock | api/services/tour-optimizer.ts:105-137 | the clock stays at or after 09:00; the lunch rule adds under an hour over the plain sum, and only once the clock has reached 14:00 |
| Itinerary.WalkPrefixWellTimed | api/services/tour-optimizer.ts:116-137 | arrivals stay in order, each between 09:00 and the current clock |
| Itinerary.WalkPrefixArrivalsBounded | api/services/tour-optimizer.ts:116-133 | each arrival is at or after 09:00 and no later than the clock |
| Itinerary.WalkPrefixChronological | api/services/tour-optimizer.ts:116-137 | arrival times never go backwards |
| Itinerary.BuildDaySpec | api/services/tour-optimizer.ts:143-150 | day number is index+1, date is start+index, one stop per routed place, cost is fees plus fares, notes are the distinct wards, duration is the plain sum plus under an hour |
| Itinerary.LaterDayStartsWithZeroLeg | api/services/tour-optimizer.ts:110-112 | from day 2 on, the first stop is a free zero-minute walk at 09:00 |
| Itinerary.FirstDayStartsAtUser | api/services/tour-optimizer.ts:103-114 | on day 1 the first leg runs from the user to the place closest to the user, or to the only place; its minutes and fare are that leg's, and it arrives at 09:00 plus the leg's minutes |
| Itinerary.StopIdsCount | api/services/tour-optimizer.ts:164 | the number of stop ids over all days is the total place count |
| Itinerary.BuildDayIds | api/services/tour-optimizer.ts:103-131 | with distinct ids a day's stops are its packed places, as a multiset of ids |
| Itinerary.OptimizeTourCoversInput | api/services/tour-optimizer.ts:96-153 | with distinct ids every requested place is visited exactly once, and totalPlaces equals the input length |
| Itinerary.OptimizeTourNumbering | api/services/tour-optimizer.ts:144-145 | days are numbered 1, 2, … and dated consecutively from the start day |
| Itinerary.EmptyTour | api/services/tour-optimizer.ts:96 | no places give no days and all-zero estimates |
| Itinerary.LunchSnapScenario | api/services/tour-optimizer.ts:135-137 | a 270-minute visit ends at 13:30 and the next stop starts at 14:00; the day counts 360 minutes against a plain 330 |
| Itinerary.LastStopNotSnapped | api/services/tour-optimizer.ts:135 | the last stop of a day is never snapped: a single 250-minute visit ends at 13:10 |
| Itinerary.SinglePlaceAtUser | api/services/tour-optimizer.ts:91-154 | one place at the user's own location is a single day with one free walk at 09:00 |
| Lists.Without | contexts/TourCreationContext.tsx:67 | removing a value drops it everywhere and keeps every other member |
| Lists.WithoutAppend | contexts/TourCreationContext.tsx:67 | the filter keeps the survivors in order and with their repeats: an element appended (or prepended) survives at the end (or the front) unless it is the removed value |
| Lists.WithoutCount | contexts/TourCreationContext.tsx:67 | removing a value shortens the list by its number of occurrences |
| Lists.WithoutNoDup | components/FilterModal.tsx:46 | removing keeps a duplicate-free list duplicate-free |
| Lists.Toggle | contexts/TourCreationContext.tsx:64-72 | toggling flips the value's membership, leaves other members alone, appends an absent value at the end and keeps lists duplicate-free |
| Lists.ToggleTwiceAbsent | contexts/TourCreationContext.tsx:64-72 | toggling an absent value twice restores the list |
| Lists.ToggleTwicePresent | contexts/TourCreationContext.tsx:64-72 | toggling a present value twice keeps the members but moves the value to the end |
| Store.AttractionsByWard | backend/services/database.ts:103 | exactly the stored attractions of the ward |
| Store.CafesByWard | backend/services/database.ts:111 | exactly the stored cafes of the ward |
| Grouping.InWardCons | backend/services/database.ts:103 | a place put ahead of the list is put ahead of its own ward's filtered answer and nothing else changes |
| Store.AttractionsByWardOrder | backend/services/database.ts:103-106 | an empty catalogue finds nothing, and a place appended or prepended to the seed data is appended or prepended to its own ward's answer only, so order and repeats are kept |
| Store.CafesByWardOrder | backend/services/database.ts:111-112 | the same order and repeat law for the cafes, from the back and from the front |
| Store.InWardMembers | api/db.ts:27 | the ward filter holds exactly the places of that ward |
| Store.SeedAttractions | backend/services/database.ts:104-106 | seeding replaces the attractions and nothing else |
| Store.SeedCafes | backend/services/database.ts:112 | seeding replaces the cafes and nothing else |
| Store.ToursByUser | backend/services/database.ts:125 | exactly the tours of the user |
| Store.FirstTourIndex | backend/services/database.ts:132 | the first position holding the id, or none when no tour has it |
| Store.TourById | backend/services/database.ts:126 | the first tour with the id, or none |
| Store.CreateTour | backend/services/database.ts:127-130 | appends the tour at the end and returns it unchanged |
| Store.DeleteTour | backend/services/database.ts:131-138 | true iff some tour has the id, in which case only the first such tour is removed; false leaves the store unchanged |
| Store.DeleteRemovesOne | backend/services/database.ts:131-138 | a successful delete removes exactly one tour with that id |
| Store.CreateThenDelete | backend/services/database.ts:127-138 | creating a tour with a fresh id and deleting it restores the store |
| Store.CreateThenGetById | backend/services/database.ts:126-130 | after create, getById finds the new tour unless an older tour already holds the id |
| Store.CreateThenToursByUser | api/db.ts:43-48 | a created tour is listed last among its user's tours |
| Store.Favorites | backend/services/database.ts:141 | exactly the user's favourites, without repeats, and empty for an unknown user |
| Store.ToggleFavorite | backend/services/database.ts:142-154 | returns true iff the place was not a favourite; afterwards isFavorite equals the flag and no other (user, place) changes |
| Store.DoubleToggleMembership | backend/services/database.ts:142-157 | toggling twice restores every membership, with opposite flags |
| Store.DoubleToggleAbsentIdentity | api/db.ts:60-72 | for a known user and an absent place, toggling twice restores the store exactly |
| Store.DoubleTogglePresentMovesLast | api/db.ts:59-72 | for a present place, toggling twice lists it last |
| Store.DoubleToggleUnknownUser | api/db.ts:61-63 | for a user with no entry, toggling twice leaves an empty entry |
| Store.UnknownUserHasNone | api/db.ts:73-75 | an unknown user has no favourites |
| ApiDb.Init | api/db.ts:8-21 | the loaded store holds the bundled catalogues, no tours and no favourites |
| ApiDb.ToggleThenList | api/db.ts:59-72 | after a toggle, getByUserId lists the place iff the flag is true, never twice, and other places are unchanged |
| TourCreation.EnableSelectionMode | contexts/TourCreationContext.tsx:52-56 | the mode is on, the name is set and the selection is empty |
| TourCreation.DisableSelectionMode | contexts/TourCreationContext.tsx:58-62 | the mode is off and the selection and name are empty |
| TourCreation.SelectionModeRoundTrip | contexts/TourCreationContext.tsx:52-62 | enabling ignores the previous state; disabling after enabling gives the initial state |
| TourCreation.TogglePlaceSelection | contexts/TourCreationContext.tsx:64-72 | a selected id is removed everywhere and an unselected one appended; mode and name stay |
| TourCreation.ToggleSelectionTwice | contexts/TourCreationContext.tsx:64-72 | selecting and deselecting an unselected id restores the selection |
| TourCreation.CreateTourRequest | contexts/TourCreationContext.tsx:98-120 | no request iff the selection is empty, the name is empty or the location is missing; otherwise the request carries them, starting tomorrow |
| TourCreation.FreshSelectionCannotCreate | contexts/TourCreationContext.tsx:52-107 | right after enabling, nothing can be generated |
| TourCreation.DeleteTour | contexts/TourCreationContext.tsx:123-126 | all tours with the id go and all others stay |
| TourCreation.DeleteTourAppend | contexts/TourCreationContext.tsx:124 | delete works piecewise, so the surviving tours keep their order |
| TourCreation.DeleteTourAbsent | contexts/TourCreationContext.tsx:123-126 | deleting an id nobody holds changes nothing |
| TourCreation.DeleteTourIdempotent | contexts/TourCreationContext.tsx:123-126 | deleting twice is deleting once |
| TourCreation.ActivateTour | contexts/TourCreationContext.tsx:128-134 | a tour is active exactly when its id matches; length, order and other fields are kept |
| TourCreation.DeactivateTour | contexts/TourCreationContext.tsx:136-142 | no tour is active; other fields are kept |
| TourCreation.GetActiveTour | contexts/TourCreationContext.tsx:173-175 | the first active tour, or none when no tour is active |
| TourCreation.DeactivateLeavesNoneActive | contexts/TourCreationContext.tsx:136-175 | after deactivating, there is no active tour |
| TourCreation.ActivateThenGetActive | contexts/TourCreationContext.tsx:128-175 | after activating an id, the active tour is the first tour with the id |
| TourCreation.ActivateUnknownId | contexts/TourCreationContext.tsx:128-175 | activating an id nobody holds leaves no tour active |
| TourCreation.UpdateTourDays | contexts/TourCreationContext.tsx:144-149 | only tours with the id change, and only in their days |
| TourCreation.UpdateTourPlaces | contexts/TourCreationContext.tsx:151-156 | only tours with the id change, and only in their place ids |
| TourCreation.UpdateUnknownId | contexts/TourCreationContext.tsx:144-156 | updating an id nobody holds changes nothing |
| TourCreation.Landing | contexts/TourCreationContext.tsx:166 | an insertion index past the end lands at the end |
| TourCreation.Move | contexts/TourCreationContext.tsx:164-166 | the element at `from` lands at `to`, the elements between shift by one, and the rest stay |
| TourCreation.MovePermutes | contexts/TourCreationContext.tsx:164-166 | moving keeps the same elements |
| TourCreation.MoveBack | contexts/TourCreationContext.tsx:164-166 | moving the element back undoes the move |
| TourCreation.MoveInPlace | contexts/TourCreationContext.tsx:164-166 | moving an element onto its own position changes nothing |
| TourCreation.FindTour | contexts/TourCreationContext.tsx:159 | the first tour with the id, or none |
| TourCreation.ReorderedDays | contexts/TourCreationContext.tsx:162-168 | only the chosen day changes, and only in its places, which are a permutation of the old ones |
| TourCreation.ReorderTourPlaces | contexts/TourCreationContext.tsx:158-171 | a missing tour or missing days leave everything unchanged; otherwise the first tour's reordered days go to every tour with the id |
| TourCreation.ReorderFirstTour | contexts/TourCreationContext.tsx:158-171 | other tours and days are untouched, and the day's places are a permutation with the moved place at its landing index |
| TourCreation.ReorderCopiesFirstToDuplicates | contexts/TourCreationContext.tsx:159-170 | a later tour with the same id receives the first tour's days |
| TourEdit.FindPlace | components/TourEditModal.tsx:54 | the first catalogue place with the id, or none when no place has it |
| TourEdit.RemoveAt | components/TourEditModal.tsx:51 | drops exactly the element at the index, or nothing when the index is out of range |
| TourEdit.RemoveStop | components/TourEditModal.tsx:49-59 | the stop is removed, cost and duration are recomputed from the remaining stops, and number, date and notes stay |
| TourEdit.RemovePlace | components/TourEditModal.tsx:48-60 | only the edited day is replaced; its remaining stops keep their order and its totals are the recomputed sums |
| TourEdit.RemovePlaceDelta | components/TourEditModal.tsx:51-57 | on a consistent day the cost drops by the removed fee and fare, and the duration by its visit and travel minutes |
| TourEdit.StopsCostMatchesWalk | components/TourEditModal.tsx:53-56 | the edit sheet's cost formula equals the generator's fees-plus-fares when the catalogue agrees on fees |
| TourEdit.RecomputeOnBuiltDay | components/TourEditModal.tsx:53-57 | on a freshly built day the recomputed cost is unchanged, while the recomputed duration loses the lunch wait |
| TourEdit.Leading | components/TourEditModal.tsx:31 | the length of the run of leading blanks |
| TourEdit.Trailing | components/TourEditModal.tsx:31 | where the run of trailing blanks begins |
| TourEdit.Trim | components/TourEditModal.tsx:31 | the trimmed title is empty iff every character is blank |
| TourEdit.SaveTitle | components/TourEditModal.tsx:30-37 | refused iff the title is blank; otherwise saved untrimmed |
| TourEdit.SavePadded | components/TourEditModal.tsx:31-35 | " Tokyo " is saved as typed, and a title of a space and a tab is refused |
| Filters.ToggleFilter | components/FilterModal.tsx:43-50 | the value's selection flips, other values and all other keys are untouched, and a missing key becomes a list |
| Filters.Reset | components/FilterModal.tsx:61-63 | nothing is selected under any key |
| Filters.ToggleMissingKey | components/FilterModal.tsx:44 | a missing key reads as empty and toggles into a one-value list |
| Filters.ToggleFilterTwice | components/FilterModal.tsx:43-50 | toggling a value on and off restores every key's list |
| Filters.ToggleFilterCommutes | components/FilterModal.tsx:49 | toggles on different keys commute |
| Notifications.Unread | app/notifications.tsx:70 | exactly the unread notifications |
| Notifications.UnreadCons | app/notifications.tsx:70 | the filter keeps the head exactly when it is unread, ahead of the filtered rest, so order and repeats are kept |
| Notifications.UnreadLength | app/notifications.tsx:70 | the filtered list is as long as the front-to-back count of unread notifications |
| Notifications.UnreadCount | app/notifications.tsx:70 | the number of unread notifications, counted one by one; at most the list length, and zero iff everything is read |
| Notifications.MarkAsRead | app/notifications.tsx:72-76 | notifications with the id become read; length, order and every other field stay |
| Notifications.MarkAllAsRead | app/notifications.tsx:78-81 | every notification becomes read and nothing else changes |
| Notifications.MarkAsReadCount | app/notifications.tsx:70-76 | the badge drops by exactly the unread notifications with the id, so it never rises |
| Notifications.MarkAsReadIdempotent | app/notifications.tsx:72-76 | marking an id twice is marking it once |
| Notifications.MarkAllClearsBadge | app/notifications.tsx:70-81 | after marking all, the badge is zero, whether or not one id was marked first |
| Notifications.MarkUnknownId | app/notifications.tsx:72-76 | an id nobody carries leaves the list as it was |

## Left out

- Haversine trigonometry and degree-to-radian conversion (api/services/distance-calculator.ts:13-29): floating-point `sin`, `cos` and `atan2` are not modelled. The distance is the parameter `h`, and `IsHaversine` states non-negativity, symmetry and zero self-distance.
- IEEE double arithmetic: distances, ceilings and rounding are computed on exact reals.
- Basics.Place: admission fees and visit durations are whole non-negative numbers (`nat`). The source types them as `number`, which also admits fractions and negatives; the catalogue uses neither. The clock lemmas (`WalkPrefixClock`, `WalkPrefixWellTimed`) rely on this: a negative duration would move the clock backwards, and a fractional one would make the minutes of `plannedTime` fractional.
- The `default` branches of the travel-time and fare switches: the mode is a four-valued datatype, so they cannot be reached.
- Calendar arithmetic and ISO formatting of a day's date: the date is the start day number plus the day index.
- String formatting of `plannedTime` (zero padding) and of `notes` ("Day n: …"): the model keeps the hour/minute pair and the list of distinct wards.
- The HTTP/tRPC handlers, the OpenAI chat, base-URL detection and fetch wrappers: request plumbing and external services.
- AsyncStorage load/save, haptics, navigation and the generation mutation in the tour-creation context: side effects. `CreateTourRequest` models only the guard and the payload.
- The static place catalogue the edit sheet reads (`mocks/places`) is not part of this model. It is the parameter `catalog`.
- Template tours, events and the `getAll`/`getById` catalogue look-ups: not modelled.
- Rendering, styles and the confirmation alert around the removal.
- Saved-tour and notification fields that no modelled operation reads are carried unchanged or dropped from the records.
- TourEdit.RemovePlace: requires `dayIndex` to be in range. For an out-of-range day the source reads `undefined` and throws a TypeError, which is not modelled.
- TourCreation.ReorderTourPlaces: requires the day and the `from` index to exist (`ReorderDefined`). With a missing day the source throws. With a missing `from` it inserts `undefined` into the day. Negative indices, which `splice` counts from the end, are excluded by `nat`.
- Routing.OptimizeWithinWardPermutation: requires distinct place ids. The source silently drops a place whose id repeats, and its callers are expected to pass resolved, distinct places.
- Itinerary.OptimizeTourCoversInput: requires distinct place ids for the same reason.

/** The in-memory store behind the API: the attraction and cafe catalogues,
    the list of user tours, and each user's favourites (a `Map` of `Set`s,
    modelled as a map to duplicate-free lists in insertion order, which is
    the order `Array.from` reads a `Set` in). Every operation returns the new
    store together with its result. */
module Store {
  import opened Basics
  import opened Grouping
  import opened Lists

  /** The fields of a saved tour the store reads are `id` and `userId`; the
      rest are carried unchanged. */
  datatype UserTour = UserTour(
    id: string,
    userId: string,
    title: string,
    days: int,
    places: int,
    estimatedCost: int,
    totalHours: int)

  datatype Db = Db(
    attractions: seq<Place>,
    cafes: seq<Place>,
    userTours: seq<UserTour>,
    favorites: map<string, seq<string>>)

  /** Every favourites list behaves as a set. */
  ghost predicate WellFormed(db: Db)
  {
    forall u :: u in db.favorites ==> NoDup(db.favorites[u])
  }

  // ---------------------------------------------------------------------------
  // Catalogues
  // ---------------------------------------------------------------------------

  function AttractionsByWard(db: Db, ward: string): (r: seq<Place>)
    ensures forall p :: p in r <==> p in db.attractions && p.ward == ward
  {
    InWardMembers(db.attractions, ward);
    InWard(db.attractions, ward)
  }

  function CafesByWard(db: Db, ward: string): (r: seq<Place>)
    ensures forall p :: p in r <==> p in db.cafes && p.ward == ward
  {
    InWardMembers(db.cafes, ward);
    InWard(db.cafes, ward)
  }

  lemma {:induction false} InWardMembers(ps: seq<Place>, w: string)
    ensures forall p :: p in InWard(ps, w) <==> p in ps && p.ward == w
  {
    forall p | p in ps && p.ward == w ensures p in InWard(ps, w) {
      var k :| 0 <= k < |ps| && ps[k] == p;
      InWardContains(ps, w, k);
    }
  }

  function SeedAttractions(db: Db, data: seq<Place>): (r: Db)
    ensures r.attractions == data
    ensures r.cafes == db.cafes && r.userTours == db.userTours && r.favorites == db.favorites
  {
    db.(attractions := data)
  }

  function SeedCafes(db: Db, data: seq<Place>): (r: Db)
    ensures r.cafes == data
    ensures r.attractions == db.attractions && r.userTours == db.userTours && r.favorites == db.favorites
  {
    db.(cafes := data)
  }

  /** `filter` keeps the catalogue's order and repeats: seeding an empty
      catalogue finds nothing, and a place appended (or prepended) to the
      seed data is appended (or prepended) to its ward's answer, and to no
      other ward's. */
  lemma {:induction false} AttractionsByWardOrder(db: Db, data: seq<Place>, p: Place, w: string)
    ensures AttractionsByWard(SeedAttractions(db, []), w) == []
    ensures AttractionsByWard(SeedAttractions(db, data + [p]), w) ==
      AttractionsByWard(SeedAttractions(db, data), w) + (if p.ward == w then [p] else [])
    ensures AttractionsByWard(SeedAttractions(db, [p] + data), w) ==
      (if p.ward == w then [p] else []) + AttractionsByWard(SeedAttractions(db, data), w)
  {
    InWardSnoc(data, p, w);
    InWardCons(p, data, w);
  }

  lemma {:induction false} CafesByWardOrder(db: Db, data: seq<Place>, p: Place, w: string)
    ensures CafesByWard(SeedCafes(db, []), w) == []
    ensures CafesByWard(SeedCafes(db, data + [p]), w) ==
      CafesByWard(SeedCafes(db, data), w) + (if p.ward == w then [p] else [])
    ensures CafesByWard(SeedCafes(db, [p] + data), w) ==
      (if p.ward == w then [p] else []) + CafesByWard(SeedCafes(db, data), w)
  {
    InWardSnoc(data, p, w);
    InWardCons(p, data, w);
  }

  // ---------------------------------------------------------------------------
  // User tours
  // ---------------------------------------------------------------------------

  function ToursByUser(tours: seq<UserTour>, userId: string): (r: seq<UserTour>)
    ensures forall t :: t in r <==> t in tours && t.userId == userId
  {
    if |tours| == 0 then []
    else if tours[|tours| - 1].userId == userId then ToursByUser(tours[..|tours| - 1], userId) + [tours[|tours| - 1]]
    else ToursByUser(tours[..|tours| - 1], userId)
  }

  /** `findIndex`: the first position holding `id`. */
  function FirstTourIndex(tours: seq<UserTour>, id: string): (r: Option<nat>)
    ensures r.None? <==> forall i :: 0 <= i < |tours| ==> tours[i].id != id
    ensures r.Some? ==> r.value < |tours| && tours[r.value].id == id
    ensures r.Some? ==> forall j :: 0 <= j < r.value ==> tours[j].id != id
  {
    if |tours| == 0 then None
    else if tours[0].id == id then Some(0)
    else match FirstTourIndex(tours[1..], id)
      case None => None
      case Some(i) => Some(i + 1)
  }

  /** `find`: the first tour holding `id`. */
  function TourById(tours: seq<UserTour>, id: string): (r: Option<UserTour>)
    ensures r.None? <==> forall t :: t in tours ==> t.id != id
    ensures r.Some? ==> r.value in tours && r.value.id == id
    ensures r.Some? ==> exists i :: 0 <= i < |tours| && tours[i] == r.value && forall j :: 0 <= j < i ==> tours[j].id != id
  {
    match FirstTourIndex(tours, id)
    case None => None
    case Some(i) => Some(tours[i])
  }

  function CreateTour(db: Db, t: UserTour): (r: (Db, UserTour))
    ensures r.1 == t
    ensures r.0.userTours == db.userTours + [t]
    ensures r.0.attractions == db.attractions && r.0.cafes == db.cafes && r.0.favorites == db.favorites
  {
    (db.(userTours := db.userTours + [t]), t)
  }

  /** The number of tours holding `id`. */
  function CountId(tours: seq<UserTour>, id: string): nat
  {
    if |tours| == 0 then 0 else CountId(tours[..|tours| - 1], id) + (if tours[|tours| - 1].id == id then 1 else 0)
  }

  /** `findIndex` then `splice(index, 1)`. */
  function DeleteTour(db: Db, id: string): (r: (Db, bool))
    ensures r.1 <==> exists t :: t in db.userTours && t.id == id
    ensures !r.1 ==> r.0 == db
    ensures r.1 ==> exists i :: (0 <= i < |db.userTours| && db.userTours[i].id == id
      && (forall j :: 0 <= j < i ==> db.userTours[j].id != id)
      && r.0.userTours == db.userTours[..i] + db.userTours[i + 1..])
    ensures r.0.attractions == db.attractions && r.0.cafes == db.cafes && r.0.favorites == db.favorites
  {
    match FirstTourIndex(db.userTours, id)
    case None => (db, false)
    case Some(i) => (db.(userTours := db.userTours[..i] + db.userTours[i + 1..]), true)
  }

  lemma {:induction false} CountIdAppend(a: seq<UserTour>, b: seq<UserTour>, id: string)
    ensures CountId(a + b, id) == CountId(a, id) + CountId(b, id)
    decreases |b|
  {
    if |b| == 0 {
      assert a + b == a;
    } else {
      assert (a + b)[..|a + b| - 1] == a + b[..|b| - 1];
      CountIdAppend(a, b[..|b| - 1], id);
    }
  }

  /** A successful delete removes exactly one tour with the id. */
  lemma {:induction false} DeleteRemovesOne(db: Db, id: string)
    requires DeleteTour(db, id).1
    ensures CountId(DeleteTour(db, id).0.userTours, id) == CountId(db.userTours, id) - 1
    ensures |DeleteTour(db, id).0.userTours| == |db.userTours| - 1
  {
    var tours := db.userTours;
    var i := FirstTourIndex(tours, id).value;
    assert tours == tours[..i] + [tours[i]] + tours[i + 1..];
    CountIdAppend(tours[..i] + [tours[i]], tours[i + 1..], id);
    CountIdAppend(tours[..i], [tours[i]], id);
    CountIdAppend(tours[..i], tours[i + 1..], id);
    assert [tours[i]][..0] == [];
  }

  /** Creating a tour with a fresh id and deleting it restores the store. */
  lemma {:induction false} CreateThenDelete(db: Db, t: UserTour)
    requires forall u :: u in db.userTours ==> u.id != t.id
    ensures DeleteTour(CreateTour(db, t).0, t.id) == (db, true)
  {
    var tours := db.userTours + [t];
    var n := |db.userTours|;
    assert FirstTourIndex(tours, t.id) == Some(n) by {
      var r := FirstTourIndex(tours, t.id);
      assert tours[n].id == t.id;
      assert r.Some?;
    }
    assert tours[..n] == db.userTours;
    assert tours[n + 1..] == [];
    assert tours[..n] + tours[n + 1..] == db.userTours;
    var db1 := CreateTour(db, t).0;
    assert db1.userTours == tours;
    assert DeleteTour(db1, t.id) == (db1.(userTours := tours[..n] + tours[n + 1..]), true);
  }

  /** After `create`, `getById` finds the new tour unless an older tour
      already holds the id. */
  lemma {:induction false} CreateThenGetById(db: Db, t: UserTour)
    ensures TourById(CreateTour(db, t).0.userTours, t.id) ==
      if exists u :: u in db.userTours && u.id == t.id then TourById(db.userTours, t.id) else Some(t)
  {
    var tours := db.userTours + [t];
    match FirstTourIndex(db.userTours, t.id)
    case None =>
      var n := |db.userTours|;
      assert FirstTourIndex(tours, t.id) == Some(n) by {
        var r := FirstTourIndex(tours, t.id);
        assert tours[n].id == t.id;
        assert r.Some?;
      }
    case Some(i) =>
      assert db.userTours[i] in db.userTours;
      assert FirstTourIndex(tours, t.id) == Some(i) by {
        var r := FirstTourIndex(tours, t.id);
        assert tours[i] == db.userTours[i];
        assert forall j :: 0 <= j < i ==> tours[j] == db.userTours[j];
      }
  }

  /** `getByUserId` keeps insertion order: a created tour comes last. */
  lemma {:induction false} CreateThenToursByUser(db: Db, t: UserTour, userId: string)
    ensures ToursByUser(CreateTour(db, t).0.userTours, userId) ==
      ToursByUser(db.userTours, userId) + (if t.userId == userId then [t] else [])
  {
    assert (db.userTours + [t])[..|db.userTours|] == db.userTours;
  }

  // ---------------------------------------------------------------------------
  // Favourites
  // ---------------------------------------------------------------------------

  /** `favorites.get(userId)?.has(placeId) || false`. */
  predicate IsFavorite(db: Db, userId: string, placeId: string)
  {
    userId in db.favorites && placeId in db.favorites[userId]
  }

  /** `Array.from(favorites.get(userId) || new Set())`. */
  function Favorites(db: Db, userId: string): (r: seq<string>)
    ensures forall q :: q in r <==> IsFavorite(db, userId, q)
    ensures WellFormed(db) ==> NoDup(r)
    ensures userId !in db.favorites ==> r == []
  {
    if userId in db.favorites then db.favorites[userId] else []
  }

  /** Creates the user's set if missing, then deletes or adds the place. */
  function ToggleFavorite(db: Db, userId: string, placeId: string): (r: (Db, bool))
    ensures r.1 <==> !IsFavorite(db, userId, placeId)
    ensures IsFavorite(r.0, userId, placeId) == r.1
    ensures forall u, q :: u != userId || q != placeId ==> (IsFavorite(r.0, u, q) <==> IsFavorite(db, u, q))
    ensures r.0.favorites.Keys == db.favorites.Keys + {userId}
    ensures forall u :: u in db.favorites && u != userId ==> r.0.favorites[u] == db.favorites[u]
    ensures WellFormed(db) ==> WellFormed(r.0)
    ensures r.0.attractions == db.attractions && r.0.cafes == db.cafes && r.0.userTours == db.userTours
  {
    var current := Favorites(db, userId);
    (db.(favorites := db.favorites[userId := Toggle(current, placeId)]), placeId !in current)
  }

  /** An unknown user has no favourites. */
  lemma {:induction false} UnknownUserHasNone(db: Db, userId: string, placeId: string)
    requires userId !in db.favorites
    ensures !IsFavorite(db, userId, placeId) && Favorites(db, userId) == []
  {
  }

  /** Toggling twice restores every membership; the second flag is the
      negation of the first. */
  lemma {:induction false} DoubleToggleMembership(db: Db, userId: string, placeId: string)
    ensures var (db1, f1) := ToggleFavorite(db, userId, placeId);
      var (db2, f2) := ToggleFavorite(db1, userId, placeId);
      && f2 == !f1
      && forall u, q :: IsFavorite(db2, u, q) <==> IsFavorite(db, u, q)
  {
  }

  /** For a known user whose place was absent, toggling twice gives back
      exactly the same store. */
  lemma {:induction false} DoubleToggleAbsentIdentity(db: Db, userId: string, placeId: string)
    requires userId in db.favorites && placeId !in db.favorites[userId]
    ensures ToggleFavorite(ToggleFavorite(db, userId, placeId).0, userId, placeId).0 == db
  {
    ToggleTwiceAbsent(db.favorites[userId], placeId);
    var db2 := ToggleFavorite(ToggleFavorite(db, userId, placeId).0, userId, placeId).0;
    assert db2.favorites == db.favorites;
  }

  /** For a present place, toggling twice keeps the membership but the place
      is listed last afterwards (a `Set` re-add goes to the end). */
  lemma {:induction false} DoubleTogglePresentMovesLast(db: Db, userId: string, placeId: string)
    requires IsFavorite(db, userId, placeId)
    ensures Favorites(ToggleFavorite(ToggleFavorite(db, userId, placeId).0, userId, placeId).0, userId)
      == Without(db.favorites[userId], placeId) + [placeId]
  {
    ToggleTwicePresent(db.favorites[userId], placeId);
  }

  /** For a user with no entry, toggling twice leaves an empty entry behind:
      the map is not the same, although every lookup answers as before. */
  lemma {:induction false} DoubleToggleUnknownUser(db: Db, userId: string, placeId: string)
    requires userId !in db.favorites
    ensures var db2 := ToggleFavorite(ToggleFavorite(db, userId, placeId).0, userId, placeId).0;
      && userId in db2.favorites && db2.favorites[userId] == []
      && db2 != db
      && Favorites(db2, userId) == Favorites(db, userId)
  {
    var db1 := ToggleFavorite(db, userId, placeId).0;
    assert db1.favorites[userId] == [placeId];
    var db2 := ToggleFavorite(db1, userId, placeId).0;
    assert Without([placeId], placeId) == [] by {
      assert [placeId][..0] == [];
    }
    assert userId in db2.favorites.Keys;
  }
}

/** The second copy of the store, initialised from the bundled data at load
    time. It offers the same catalogue, tour and favourite operations, minus
    the seeding functions. */
module ApiDb {
  import opened Basics
  import opened Store

  /** The store right after module load: catalogues copied in, no tours, no
      favourites. */
  function Init(attractions: seq<Place>, cafes: seq<Place>): (db: Db)
    ensures db.attractions == attractions && db.cafes == cafes
    ensures db.userTours == [] && db.favorites == map[]
    ensures WellFormed(db)
    ensures forall u, q :: !IsFavorite(db, u, q)
  {
    Db(attractions, cafes, [], map[])
  }

  /** A favourite added by `toggle` is listed by `getByUserId`, and the list
      of a user never holds a place twice. */
  lemma {:induction false} ToggleThenList(db: Db, userId: string, placeId: string)
    requires WellFormed(db)
    ensures var (db1, f) := ToggleFavorite(db, userId, placeId);
      && (placeId in Favorites(db1, userId) <==> f)
      && NoDup(Favorites(db1, userId))
      && (forall q :: q != placeId ==> (q in Favorites(db1, userId) <==> q in Favorites(db, userId)))
  {
  }
}

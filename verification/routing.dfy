/** `optimizeWithinWard`: a greedy nearest-neighbour ordering of one day's
    places, optionally starting from the place closest to an anchor. The
    router compares the REPORTED leg distance, which is rounded to two
    decimals, so ties are ties of rounded distances. */
module Routing {
  import opened Basics
  import opened Distance

  /** The quantity the router compares: `calculateDistance(a, p).distance`. */
  function RouteDistance(h: Haversine, a: Coordinate, p: Place): real
  {
    CalculateDistance(h, a, p.coordinates).distance
  }

  /** Reference definition of one greedy choice among `ps[..n]`: `j` is
      unvisited, no unvisited candidate is strictly closer to `from`, and
      every unvisited candidate before `j` is strictly farther. */
  predicate IsEarliestNearest(h: Haversine, ps: seq<Place>, from: Coordinate, visited: set<string>, n: nat, j: nat)
  {
    && j < n <= |ps|
    && ps[j].id !in visited
    && (forall k :: 0 <= k < n && ps[k].id !in visited ==> RouteDistance(h, from, ps[j]) <= RouteDistance(h, from, ps[k]))
    && (forall k :: 0 <= k < j && ps[k].id !in visited ==> RouteDistance(h, from, ps[j]) < RouteDistance(h, from, ps[k]))
  }

  /** The earliest nearest candidate is unique. */
  lemma {:induction false} EarliestNearestUnique(h: Haversine, ps: seq<Place>, from: Coordinate, visited: set<string>, n: nat, j1: nat, j2: nat)
    requires IsEarliestNearest(h, ps, from, visited, n, j1)
    requires IsEarliestNearest(h, ps, from, visited, n, j2)
    ensures j1 == j2
  {
  }

  /** The inner `for` loop: `minDistance` starts at infinity (`best` is None),
      and a candidate replaces the current best only when strictly closer. */
  function NearestScan(h: Haversine, ps: seq<Place>, from: Coordinate, visited: set<string>, i: nat, best: Option<nat>): (r: Option<nat>)
    requires i <= |ps|
    requires best.Some? ==> IsEarliestNearest(h, ps, from, visited, i, best.value)
    requires best.None? ==> forall k :: 0 <= k < i ==> ps[k].id in visited
    ensures r.Some? ==> IsEarliestNearest(h, ps, from, visited, |ps|, r.value)
    ensures r.None? ==> forall k :: 0 <= k < |ps| ==> ps[k].id in visited
    decreases |ps| - i
  {
    if i == |ps| then best
    else if ps[i].id !in visited && (best.None? || RouteDistance(h, from, ps[i]) < RouteDistance(h, from, ps[best.value])) then
      NearestScan(h, ps, from, visited, i + 1, Some(i))
    else
      NearestScan(h, ps, from, visited, i + 1, best)
  }

  /** The unvisited place nearest to `from`, earliest on ties; None when every
      place's id has been visited. */
  function NearestUnvisited(h: Haversine, ps: seq<Place>, from: Coordinate, visited: set<string>): (r: Option<nat>)
    ensures r.Some? ==> IsEarliestNearest(h, ps, from, visited, |ps|, r.value)
    ensures r.None? <==> forall k :: 0 <= k < |ps| ==> ps[k].id in visited
  {
    NearestScan(h, ps, from, visited, 0, None)
  }

  /** The anchor `reduce`: it starts from `ps[0]` and keeps the current
      closest unless a later place is strictly closer. */
  function ClosestScan(h: Haversine, ps: seq<Place>, anchor: Coordinate, i: nat, closest: nat): (r: nat)
    requires 1 <= i <= |ps|
    requires IsEarliestNearest(h, ps, anchor, {}, i, closest)
    ensures IsEarliestNearest(h, ps, anchor, {}, |ps|, r)
    decreases |ps| - i
  {
    if i == |ps| then closest
    else if RouteDistance(h, anchor, ps[i]) < RouteDistance(h, anchor, ps[closest]) then
      ClosestScan(h, ps, anchor, i + 1, i)
    else
      ClosestScan(h, ps, anchor, i + 1, closest)
  }

  function ClosestToAnchor(h: Haversine, ps: seq<Place>, anchor: Coordinate): (r: nat)
    requires |ps| >= 1
    ensures IsEarliestNearest(h, ps, anchor, {}, |ps|, r)
  {
    ClosestScan(h, ps, anchor, 1, 0)
  }

  /** The anchor `reduce` and the unvisited scan agree when nothing is visited. */
  lemma {:induction false} ClosestAgreesWithNearest(h: Haversine, ps: seq<Place>, anchor: Coordinate)
    requires |ps| >= 1
    ensures NearestUnvisited(h, ps, anchor, {}) == Some(ClosestToAnchor(h, ps, anchor))
  {
    var n := NearestUnvisited(h, ps, anchor, {});
    assert ps[0].id !in {};
    EarliestNearestUnique(h, ps, anchor, {}, |ps|, n.value, ClosestToAnchor(h, ps, anchor));
  }

  /** The outer `while` loop: stop when as many ids are visited as there are
      places, or when no unvisited place is left. */
  function Walk(h: Haversine, ps: seq<Place>, current: Place, visited: set<string>, acc: seq<Place>): seq<Place>
    decreases IdsOf(ps) - visited
  {
    if |visited| >= |ps| then acc
    else
      match NearestUnvisited(h, ps, current.coordinates, visited)
      case None => acc
      case Some(j) =>
        assert ps[j].id in IdsOf(ps) - visited;
        Walk(h, ps, ps[j], visited + {ps[j].id}, acc + [ps[j]])
  }

  function OptimizeWithinWard(h: Haversine, ps: seq<Place>, start: Option<Coordinate>): seq<Place>
  {
    if |ps| <= 1 then ps
    else
      var first := match start
        case Some(a) => ps[ClosestToAnchor(h, ps, a)]
        case None => ps[0];
      Walk(h, ps, first, {first.id}, [first])
  }

  /** Every stop after the first is the greedy choice from the stop before it,
      given the ids already on the route. */
  ghost predicate GreedyOrder(h: Haversine, ps: seq<Place>, r: seq<Place>)
  {
    forall i :: 1 <= i < |r| ==> GreedyStep(h, ps, r[i - 1], IdsOf(r[..i]), r[i])
  }

  /** `next` is the greedy choice from `prev` once `visited` ids are used. */
  ghost predicate GreedyStep(h: Haversine, ps: seq<Place>, prev: Place, visited: set<string>, next: Place)
  {
    exists j: nat :: IsEarliestNearest(h, ps, prev.coordinates, visited, |ps|, j) && next == ps[j]
  }

  lemma {:induction false} IdsOfBound(ps: seq<Place>)
    ensures |IdsOf(ps)| <= |ps|
  {
    if |ps| > 0 {
      var init := ps[..|ps| - 1];
      IdsOfBound(init);
      assert IdsOf(ps) == IdsOf(init) + {ps[|ps| - 1].id};
    }
  }

  lemma {:induction false} SubsetCardinality(a: set<string>, b: set<string>)
    requires a <= b && |a| >= |b|
    ensures a == b
  {
    assert b == a + (b - a);
    assert |b| == |a| + |b - a|;
  }

  lemma {:induction false} VisitedWithin(ps: seq<Place>, acc: seq<Place>)
    requires forall x :: x in acc ==> x in ps
    ensures IdsOf(acc) <= IdsOf(ps)
  {
    forall y | y in IdsOf(acc) ensures y in IdsOf(ps) {
      var i :| 0 <= i < |acc| && acc[i].id == y;
      assert acc[i] in ps;
      var k :| 0 <= k < |ps| && ps[k] == acc[i];
    }
  }

  lemma {:induction false} IdsOfSnoc(acc: seq<Place>, x: Place)
    ensures IdsOf(acc + [x]) == IdsOf(acc) + {x.id}
  {
    var acc' := acc + [x];
    forall y | y in IdsOf(acc') ensures y in IdsOf(acc) + {x.id} {
      var i :| 0 <= i < |acc'| && acc'[i].id == y;
      if i < |acc| {
        assert acc[i] == acc'[i];
      }
    }
    forall y | y in IdsOf(acc) + {x.id} ensures y in IdsOf(acc') {
      if y != x.id {
        var i :| 0 <= i < |acc| && acc[i].id == y;
        assert acc'[i] == acc[i];
      } else {
        assert acc'[|acc|] == x;
      }
    }
  }

  lemma {:induction false} DistinctIdsSnoc(acc: seq<Place>, x: Place)
    requires DistinctIds(acc) && x.id !in IdsOf(acc)
    ensures DistinctIds(acc + [x])
  {
    IdSeqAppend(acc, [x]);
    assert IdSeq(acc + [x]) == IdSeq(acc) + [x.id];
    assert x.id !in IdSeq(acc);
  }

  lemma {:induction false} GreedySnoc(h: Haversine, ps: seq<Place>, acc: seq<Place>, j: nat)
    requires |acc| >= 1 && GreedyOrder(h, ps, acc)
    requires IsEarliestNearest(h, ps, acc[|acc| - 1].coordinates, IdsOf(acc), |ps|, j)
    ensures GreedyOrder(h, ps, acc + [ps[j]])
  {
    var acc' := acc + [ps[j]];
    forall i | 1 <= i < |acc'|
      ensures GreedyStep(h, ps, acc'[i - 1], IdsOf(acc'[..i]), acc'[i])
    {
      if i < |acc| {
        assert acc'[..i] == acc[..i];
        assert acc'[i - 1] == acc[i - 1] && acc'[i] == acc[i];
        assert GreedyStep(h, ps, acc[i - 1], IdsOf(acc[..i]), acc[i]);
      } else {
        assert acc'[..i] == acc;
        assert acc'[i - 1] == acc[|acc| - 1] && acc'[i] == ps[j];
        assert GreedyStep(h, ps, acc[|acc| - 1], IdsOf(acc), ps[j]);
      }
    }
  }

  lemma {:induction false} SnocPrefix(acc: seq<Place>, x: Place, w: seq<Place>)
    requires acc + [x] <= w
    ensures acc <= w
  {
    assert w[..|acc|] == (acc + [x])[..|acc|];
  }

  /** What the loop keeps of its partial route. */
  ghost predicate RouteSoFar(h: Haversine, ps: seq<Place>, acc: seq<Place>)
  {
    && |acc| >= 1
    && DistinctIds(acc)
    && (forall x :: x in acc ==> x in ps)
    && GreedyOrder(h, ps, acc)
  }

  /** One loop iteration keeps the partial route well-formed. */
  lemma {:induction false} RouteSoFarSnoc(h: Haversine, ps: seq<Place>, acc: seq<Place>, j: nat)
    requires RouteSoFar(h, ps, acc)
    requires IsEarliestNearest(h, ps, acc[|acc| - 1].coordinates, IdsOf(acc), |ps|, j)
    ensures RouteSoFar(h, ps, acc + [ps[j]])
    ensures IdsOf(acc + [ps[j]]) == IdsOf(acc) + {ps[j].id}
  {
    var x := ps[j];
    IdsOfSnoc(acc, x);
    DistinctIdsSnoc(acc, x);
    GreedySnoc(h, ps, acc, j);
    assert forall y :: y in acc + [x] ==> y in ps by {
      assert x in ps;
    }
  }

  /** The loop stops once every id of the day has been visited. */
  lemma {:induction false} WalkStops(h: Haversine, ps: seq<Place>, current: Place, visited: set<string>, acc: seq<Place>)
    requires RouteSoFar(h, ps, acc) && visited == IdsOf(acc)
    requires |visited| >= |ps| || NearestUnvisited(h, ps, current.coordinates, visited).None?
    ensures Walk(h, ps, current, visited, acc) == acc
    ensures IdsOf(acc) == IdsOf(ps)
  {
    VisitedWithin(ps, acc);
    if |visited| >= |ps| {
      IdsOfBound(ps);
      SubsetCardinality(visited, IdsOf(ps));
    } else {
      assert IdsOf(ps) <= visited;
    }
  }

  /** Otherwise it appends the greedy choice and visits its id. */
  lemma {:induction false} WalkSteps(h: Haversine, ps: seq<Place>, current: Place, visited: set<string>, acc: seq<Place>, j: nat)
    requires RouteSoFar(h, ps, acc)
    requires current == acc[|acc| - 1] && visited == IdsOf(acc)
    requires |visited| < |ps| && NearestUnvisited(h, ps, current.coordinates, visited) == Some(j)
    ensures j < |ps|
    ensures Walk(h, ps, current, visited, acc) == Walk(h, ps, ps[j], visited + {ps[j].id}, acc + [ps[j]])
    ensures RouteSoFar(h, ps, acc + [ps[j]])
    ensures IdsOf(acc + [ps[j]]) == visited + {ps[j].id}
    ensures ps[j].id in IdsOf(ps) - visited
  {
    RouteSoFarSnoc(h, ps, acc, j);
  }

  lemma {:induction false} WalkSpec(h: Haversine, ps: seq<Place>, current: Place, visited: set<string>, acc: seq<Place>)
    requires RouteSoFar(h, ps, acc)
    requires current == acc[|acc| - 1] && visited == IdsOf(acc)
    ensures acc <= Walk(h, ps, current, visited, acc)
    ensures RouteSoFar(h, ps, Walk(h, ps, current, visited, acc))
    ensures IdsOf(Walk(h, ps, current, visited, acc)) == IdsOf(ps)
    decreases IdsOf(ps) - visited
  {
    var n := NearestUnvisited(h, ps, current.coordinates, visited);
    if |visited| >= |ps| || n.None? {
      WalkStops(h, ps, current, visited, acc);
    } else {
      WalkSteps(h, ps, current, visited, acc, n.value);
      var x := ps[n.value];
      WalkSpec(h, ps, x, visited + {x.id}, acc + [x]);
      SnocPrefix(acc, x, Walk(h, ps, x, visited + {x.id}, acc + [x]));
    }
  }

  /** The router's contract: a list of at most one place comes back as is;
      otherwise the route starts at `ps[0]` or at the place closest to the
      anchor, follows the greedy rule, never repeats an id, uses only input
      places and reaches every input id. */
  lemma {:induction false} OptimizeWithinWardSpec(h: Haversine, ps: seq<Place>, start: Option<Coordinate>)
    ensures |ps| <= 1 ==> OptimizeWithinWard(h, ps, start) == ps
    ensures |ps| >= 2 ==> |OptimizeWithinWard(h, ps, start)| >= 1
    ensures |ps| >= 2 && start.None? ==> OptimizeWithinWard(h, ps, start)[0] == ps[0]
    ensures |ps| >= 2 && start.Some? ==>
      OptimizeWithinWard(h, ps, start)[0] == ps[ClosestToAnchor(h, ps, start.value)]
    ensures GreedyOrder(h, ps, OptimizeWithinWard(h, ps, start))
    ensures |ps| >= 2 ==> DistinctIds(OptimizeWithinWard(h, ps, start))
    ensures forall x :: x in OptimizeWithinWard(h, ps, start) ==> x in ps
    ensures IdsOf(OptimizeWithinWard(h, ps, start)) == IdsOf(ps)
  {
    if |ps| >= 2 {
      var first := match start
        case Some(a) => ps[ClosestToAnchor(h, ps, a)]
        case None => ps[0];
      IdsOfSnoc([], first);
      assert [] + [first] == [first];
      assert RouteSoFar(h, ps, [first]) by {
        assert IdSeq([first]) == [first.id];
      }
      WalkSpec(h, ps, first, {first.id}, [first]);
    }
  }

  lemma {:induction false} DistinctIdsNoDup(ps: seq<Place>)
    requires DistinctIds(ps)
    ensures NoDup(ps)
  {
    forall i, j | 0 <= i < j < |ps| ensures ps[i] != ps[j] {
      assert IdSeq(ps)[i] != IdSeq(ps)[j];
    }
  }

  /** Within a list of distinct ids, a place is determined by its id. */
  lemma {:induction false} SameIdSamePlace(ps: seq<Place>, x: Place, y: Place)
    requires DistinctIds(ps) && x in ps && y in ps && x.id == y.id
    ensures x == y
  {
    var m :| 0 <= m < |ps| && ps[m] == x;
    var k :| 0 <= k < |ps| && ps[k] == y;
    assert IdSeq(ps)[k] == IdSeq(ps)[m];
  }

  /** Two id-distinct lists with the same ids, one drawing its places from
      the other, hold the same places. */
  lemma {:induction false} SameIdsPermutation(ps: seq<Place>, r: seq<Place>)
    requires DistinctIds(ps) && DistinctIds(r)
    requires forall x :: x in r ==> x in ps
    requires IdsOf(r) == IdsOf(ps)
    ensures multiset(r) == multiset(ps)
  {
    DistinctIdsNoDup(r);
    DistinctIdsNoDup(ps);
    forall x | x in ps ensures x in r {
      assert x.id in IdsOf(r);
      var i :| 0 <= i < |r| && r[i].id == x.id;
      SameIdSamePlace(ps, x, r[i]);
    }
    NoDupSameElements(r, ps);
  }

  /** With distinct ids the route is a permutation of the day's places. */
  lemma {:induction false} OptimizeWithinWardPermutation(h: Haversine, ps: seq<Place>, start: Option<Coordinate>)
    requires DistinctIds(ps)
    ensures multiset(OptimizeWithinWard(h, ps, start)) == multiset(ps)
  {
    var r := OptimizeWithinWard(h, ps, start);
    OptimizeWithinWardSpec(h, ps, start);
    if |ps| >= 2 {
      SameIdsPermutation(ps, r);
    }
  }
}

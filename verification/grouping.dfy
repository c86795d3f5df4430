/** `groupByWards`: places bucketed by ward in a `Map` that remembers the order
    in which wards were first seen. The map is modelled as a sequence of
    groups in that order. */
module Grouping {
  import opened Basics

  datatype Group = Group(ward: string, places: seq<Place>)

  function Wards(gs: seq<Group>): (ws: seq<string>)
    ensures |ws| == |gs|
    ensures forall i :: 0 <= i < |gs| ==> ws[i] == gs[i].ward
  {
    if |gs| == 0 then [] else Wards(gs[..|gs| - 1]) + [gs[|gs| - 1].ward]
  }

  function PlaceWards(ps: seq<Place>): (ws: seq<string>)
    ensures |ws| == |ps|
    ensures forall i :: 0 <= i < |ps| ==> ws[i] == ps[i].ward
  {
    if |ps| == 0 then [] else PlaceWards(ps[..|ps| - 1]) + [ps[|ps| - 1].ward]
  }

  /** The places of one ward, in input order (reference definition). */
  function InWard(ps: seq<Place>, w: string): (r: seq<Place>)
    ensures forall p :: p in r ==> p in ps && p.ward == w
  {
    if |ps| == 0 then []
    else if ps[|ps| - 1].ward == w then InWard(ps[..|ps| - 1], w) + [ps[|ps| - 1]]
    else InWard(ps[..|ps| - 1], w)
  }

  /** All places of a list of groups, group after group. */
  function FlattenGroups(gs: seq<Group>): seq<Place>
  {
    if |gs| == 0 then [] else FlattenGroups(gs[..|gs| - 1]) + gs[|gs| - 1].places
  }

  lemma {:induction false} FlattenGroupsAppend(a: seq<Group>, b: seq<Group>)
    ensures FlattenGroups(a + b) == FlattenGroups(a) + FlattenGroups(b)
    decreases |b|
  {
    if |b| == 0 {
      assert a + b == a;
    } else {
      var b' := b[..|b| - 1];
      var last := b[|b| - 1];
      assert (a + b)[..|a + b| - 1] == a + b';
      assert (a + b)[|a + b| - 1] == last;
      assert FlattenGroups(a + b) == FlattenGroups(a + b') + last.places;
      assert FlattenGroups(b) == FlattenGroups(b') + last.places;
      FlattenGroupsAppend(a, b');
      assert FlattenGroups(a) + FlattenGroups(b') + last.places == FlattenGroups(a) + (FlattenGroups(b') + last.places);
    }
  }

  lemma {:induction false} FlattenGroupsCons(g: Group, rest: seq<Group>)
    ensures FlattenGroups([g] + rest) == g.places + FlattenGroups(rest)
  {
    FlattenGroupsAppend([g], rest);
    assert [g][..0] == [];
  }

  /** The index of the group holding ward `w`, if any (`wardMap.has`). */
  function FindWard(gs: seq<Group>, w: string): (r: Option<nat>)
    ensures r.None? <==> w !in Wards(gs)
    ensures r.Some? ==> r.value < |gs| && gs[r.value].ward == w
  {
    if |gs| == 0 then None
    else if gs[|gs| - 1].ward == w then Some(|gs| - 1)
    else FindWard(gs[..|gs| - 1], w)
  }

  /** One `forEach` step: push onto the ward's list, creating it if new. */
  function AddPlace(gs: seq<Group>, p: Place): seq<Group>
  {
    match FindWard(gs, p.ward)
    case None => gs + [Group(p.ward, [p])]
    case Some(i) => gs[i := Group(gs[i].ward, gs[i].places + [p])]
  }

  function GroupByWards(ps: seq<Place>): seq<Group>
  {
    if |ps| == 0 then [] else AddPlace(GroupByWards(ps[..|ps| - 1]), ps[|ps| - 1])
  }

  /** `gs` is the grouping of `ps`: keys are the distinct wards in order of
      first occurrence, and each group holds exactly its ward's places in
      input order. */
  ghost predicate IsGrouping(gs: seq<Group>, ps: seq<Place>)
  {
    && Wards(gs) == Distinct(PlaceWards(ps))
    && forall i :: 0 <= i < |gs| ==> gs[i].places == InWard(ps, gs[i].ward)
  }

  lemma {:induction false} InWardAbsent(ps: seq<Place>, w: string)
    requires w !in PlaceWards(ps)
    ensures InWard(ps, w) == []
  {
    if |ps| > 0 {
      var init := ps[..|ps| - 1];
      assert forall i :: 0 <= i < |init| ==> PlaceWards(init)[i] == PlaceWards(ps)[i];
      assert PlaceWards(ps)[|ps| - 1] == ps[|ps| - 1].ward;
      InWardAbsent(init, w);
    }
  }

  /** Appending a place extends its own ward's list and no other. */
  lemma {:induction false} InWardSnoc(ps: seq<Place>, p: Place, w: string)
    ensures InWard(ps + [p], w) == InWard(ps, w) + (if p.ward == w then [p] else [])
  {
    assert (ps + [p])[..|ps + [p]| - 1] == ps;
  }

  lemma {:induction false} Regroup<T>(whole: seq<T>, front: seq<T>, mid: seq<T>, back: seq<T>, head: seq<T>, tail: seq<T>)
    requires whole == front + tail && front == head + mid && back == mid + tail
    ensures whole == head + back
  {
    assert (head + mid) + tail == head + (mid + tail);
  }

  /** The filter read from the front: a place put ahead of the list is put
      ahead of its ward's answer. */
  lemma {:induction false} InWardCons(p: Place, ps: seq<Place>, w: string)
    ensures InWard([p] + ps, w) == (if p.ward == w then [p] else []) + InWard(ps, w)
    decreases |ps|
  {
    if |ps| == 0 {
      assert [p] + ps == [] + [p];
      InWardSnoc([], p, w);
    } else {
      var init, last := ps[..|ps| - 1], ps[|ps| - 1];
      var q := [p] + init;
      assert ps == init + [last];
      assert [p] + ps == q + [last];
      InWardSnoc(q, last, w);
      InWardCons(p, init, w);
      InWardSnoc(init, last, w);
      Regroup(InWard([p] + ps, w), InWard(q, w), InWard(init, w), InWard(ps, w),
        if p.ward == w then [p] else [], if last.ward == w then [last] else []);
    }
  }

  /** The ward list after appending one place. */
  lemma {:induction false} DistinctWardsSnoc(ps: seq<Place>, p: Place)
    ensures Distinct(PlaceWards(ps + [p])) ==
      if p.ward in Distinct(PlaceWards(ps)) then Distinct(PlaceWards(ps)) else Distinct(PlaceWards(ps)) + [p.ward]
  {
    var ps' := ps + [p];
    assert ps'[..|ps'| - 1] == ps;
    assert PlaceWards(ps')[..|ps'| - 1] == PlaceWards(ps);
  }

  lemma {:induction false} WardsSnoc(gs: seq<Group>, g: Group)
    ensures Wards(gs + [g]) == Wards(gs) + [g.ward]
  {
    assert (gs + [g])[..|gs|] == gs;
  }

  lemma {:induction false} AddNewWardKeepsGrouping(gs: seq<Group>, ps: seq<Place>, p: Place)
    requires IsGrouping(gs, ps) && p.ward !in Wards(gs)
    ensures IsGrouping(gs + [Group(p.ward, [p])], ps + [p])
  {
    var ps' := ps + [p];
    var r := gs + [Group(p.ward, [p])];
    assert Wards(r) == Distinct(PlaceWards(ps')) by {
      DistinctWardsSnoc(ps, p);
      WardsSnoc(gs, Group(p.ward, [p]));
    }
    forall i | 0 <= i < |r| ensures r[i].places == InWard(ps', r[i].ward) {
      InWardSnoc(ps, p, r[i].ward);
      if i < |gs| {
        assert r[i] == gs[i];
        assert gs[i].ward in Wards(gs) by {
          assert Wards(gs)[i] == gs[i].ward;
        }
      } else {
        assert p.ward !in PlaceWards(ps);
        InWardAbsent(ps, p.ward);
      }
    }
  }

  /** Replacing a group by one of the same ward keeps the key order. */
  lemma {:induction false} SameWardUpdate(gs: seq<Group>, j: nat, g: Group)
    requires j < |gs| && g.ward == gs[j].ward
    ensures Wards(gs[j := g]) == Wards(gs)
  {
    var r := gs[j := g];
    assert |Wards(r)| == |Wards(gs)|;
    forall i | 0 <= i < |r| ensures Wards(r)[i] == Wards(gs)[i] {
    }
  }

  /** In a grouping, two different groups have different wards. */
  lemma {:induction false} GroupWardsDiffer(gs: seq<Group>, ps: seq<Place>, i: nat, j: nat)
    requires IsGrouping(gs, ps) && i < |gs| && j < |gs| && i != j
    ensures gs[i].ward != gs[j].ward
  {
    assert NoDup(Wards(gs));
    assert Wards(gs)[i] == gs[i].ward && Wards(gs)[j] == gs[j].ward;
  }

  lemma {:induction false} AddKnownWardKeepsGrouping(gs: seq<Group>, ps: seq<Place>, p: Place, j: nat)
    requires IsGrouping(gs, ps) && j < |gs| && gs[j].ward == p.ward
    ensures IsGrouping(gs[j := Group(gs[j].ward, gs[j].places + [p])], ps + [p])
  {
    var ps' := ps + [p];
    var r := gs[j := Group(gs[j].ward, gs[j].places + [p])];
    assert Wards(r) == Distinct(PlaceWards(ps')) by {
      DistinctWardsSnoc(ps, p);
      assert p.ward in Wards(gs);
      SameWardUpdate(gs, j, Group(gs[j].ward, gs[j].places + [p]));
    }
    forall i | 0 <= i < |r| ensures r[i].places == InWard(ps', r[i].ward) {
      InWardSnoc(ps, p, r[i].ward);
      if i != j {
        GroupWardsDiffer(gs, ps, i, j);
      }
    }
  }

  lemma {:induction false} AddPlaceKeepsGrouping(gs: seq<Group>, ps: seq<Place>, p: Place)
    requires IsGrouping(gs, ps)
    ensures IsGrouping(AddPlace(gs, p), ps + [p])
  {
    match FindWard(gs, p.ward)
    case None =>
      AddNewWardKeepsGrouping(gs, ps, p);
    case Some(j) =>
      AddKnownWardKeepsGrouping(gs, ps, p, j);
  }

  lemma {:induction false} GroupByWardsSpec(ps: seq<Place>)
    ensures IsGrouping(GroupByWards(ps), ps)
  {
    if |ps| > 0 {
      var init := ps[..|ps| - 1];
      var p := ps[|ps| - 1];
      assert init + [p] == ps;
      assert GroupByWards(ps) == AddPlace(GroupByWards(init), p);
      GroupByWardsSpec(init);
      AddPlaceKeepsGrouping(GroupByWards(init), init, p);
    }
  }

  lemma {:induction false} FlattenUpdate(gs: seq<Group>, i: nat, p: Place)
    requires i < |gs|
    ensures multiset(FlattenGroups(gs[i := Group(gs[i].ward, gs[i].places + [p])]))
         == multiset(FlattenGroups(gs)) + multiset{p}
    decreases |gs|
  {
    var gs' := gs[i := Group(gs[i].ward, gs[i].places + [p])];
    var n := |gs|;
    var init := gs[..n - 1];
    var init' := gs'[..n - 1];
    assert FlattenGroups(gs) == FlattenGroups(init) + gs[n - 1].places;
    assert FlattenGroups(gs') == FlattenGroups(init') + gs'[n - 1].places;
    if i == n - 1 {
      assert init' == init;
      assert FlattenGroups(gs') == (FlattenGroups(init) + gs[n - 1].places) + [p];
    } else {
      assert init' == init[i := Group(gs[i].ward, gs[i].places + [p])];
      assert gs'[n - 1] == gs[n - 1];
      FlattenUpdate(init, i, p);
      assert multiset(FlattenGroups(gs')) == multiset(FlattenGroups(init')) + multiset(gs[n - 1].places);
      assert multiset(FlattenGroups(gs)) == multiset(FlattenGroups(init)) + multiset(gs[n - 1].places);
    }
  }

  /** A new last group of one place adds that place. */
  lemma {:induction false} FlattenNewGroup(gs: seq<Group>, p: Place)
    ensures multiset(FlattenGroups(gs + [Group(p.ward, [p])])) == multiset(FlattenGroups(gs)) + multiset{p}
  {
    var r := gs + [Group(p.ward, [p])];
    assert r[..|r| - 1] == gs;
    assert FlattenGroups(r) == FlattenGroups(gs) + [p];
  }

  /** Grouping partitions the input: every place lands in exactly one group. */
  lemma {:induction false} GroupByWardsPartition(ps: seq<Place>)
    ensures multiset(FlattenGroups(GroupByWards(ps))) == multiset(ps)
  {
    if |ps| > 0 {
      var init := ps[..|ps| - 1];
      var p := ps[|ps| - 1];
      var gs := GroupByWards(init);
      assert init + [p] == ps;
      assert GroupByWards(ps) == AddPlace(gs, p);
      assert multiset(ps) == multiset(init) + multiset{p};
      GroupByWardsPartition(init);
      match FindWard(gs, p.ward)
      case None =>
        FlattenNewGroup(gs, p);
      case Some(j) =>
        FlattenUpdate(gs, j, p);
    }
  }

  /** No group is empty, and every place sits in its own ward's group. */
  lemma {:induction false} GroupByWardsGroupsWellFormed(ps: seq<Place>)
    ensures forall i :: 0 <= i < |GroupByWards(ps)| ==> |GroupByWards(ps)[i].places| > 0
    ensures forall i, p :: 0 <= i < |GroupByWards(ps)| && p in GroupByWards(ps)[i].places ==> p.ward == GroupByWards(ps)[i].ward
  {
    var gs := GroupByWards(ps);
    GroupByWardsSpec(ps);
    forall i | 0 <= i < |gs| ensures |gs[i].places| > 0 {
      assert gs[i].ward in Wards(gs);
      assert gs[i].ward in PlaceWards(ps);
      var k :| 0 <= k < |ps| && PlaceWards(ps)[k] == gs[i].ward;
      InWardContains(ps, gs[i].ward, k);
    }
  }

  lemma {:induction false} InWardContains(ps: seq<Place>, w: string, k: nat)
    requires k < |ps| && ps[k].ward == w
    ensures ps[k] in InWard(ps, w)
  {
    if k < |ps| - 1 {
      InWardContains(ps[..|ps| - 1], w, k);
    }
  }
}

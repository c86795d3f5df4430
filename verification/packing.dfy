/** `distributeIntoDays`: ward groups sorted by total visit time, largest
    first (a stable sort, as JavaScript's `Array.prototype.sort` is), then
    packed greedily into days of at most 480 visiting minutes. A ward group is
    never split, so one heavy ward may fill a day beyond the budget. */
module Packing {
  import opened Basics
  import opened Grouping

  /** `maxHoursPerDay * 60` with the default of 8 hours. */
  const MaxDayMinutes: nat := 480

  function GroupMinutes(g: Group): nat
  {
    TotalVisitMinutes(g.places)
  }

  // ---------------------------------------------------------------------------
  // Stable sort, descending by group minutes
  // ---------------------------------------------------------------------------

  ghost predicate SortedDesc(gs: seq<Group>)
  {
    forall i, j :: 0 <= i < j < |gs| ==> GroupMinutes(gs[i]) >= GroupMinutes(gs[j])
  }

  /** Insert `g` before the first group that is not heavier than it. Since
      `g` came earlier in the input, this keeps ties in input order. */
  function Insert(g: Group, sorted: seq<Group>): seq<Group>
  {
    if |sorted| == 0 then [g]
    else if GroupMinutes(sorted[0]) <= GroupMinutes(g) then [g] + sorted
    else [sorted[0]] + Insert(g, sorted[1..])
  }

  function SortByMinutes(gs: seq<Group>): seq<Group>
  {
    if |gs| == 0 then [] else Insert(gs[0], SortByMinutes(gs[1..]))
  }

  /** The groups of a given weight, in order (used to state stability). */
  function WithMinutes(gs: seq<Group>, m: nat): seq<Group>
  {
    if |gs| == 0 then []
    else (if GroupMinutes(gs[0]) == m then [gs[0]] else []) + WithMinutes(gs[1..], m)
  }

  lemma {:induction false} InsertMultiset(g: Group, sorted: seq<Group>)
    ensures multiset(Insert(g, sorted)) == multiset(sorted) + multiset{g}
  {
    if |sorted| > 0 && GroupMinutes(sorted[0]) > GroupMinutes(g) {
      InsertMultiset(g, sorted[1..]);
      assert sorted == [sorted[0]] + sorted[1..];
    }
  }

  /** Insertion adds no group heavier than a common bound. */
  lemma {:induction false} InsertBounded(g: Group, sorted: seq<Group>, b: nat)
    requires GroupMinutes(g) <= b
    requires forall i :: 0 <= i < |sorted| ==> GroupMinutes(sorted[i]) <= b
    ensures forall i :: 0 <= i < |Insert(g, sorted)| ==> GroupMinutes(Insert(g, sorted)[i]) <= b
  {
    if |sorted| > 0 && GroupMinutes(sorted[0]) > GroupMinutes(g) {
      InsertBounded(g, sorted[1..], b);
      var r := Insert(g, sorted);
      forall i | 0 <= i < |r| ensures GroupMinutes(r[i]) <= b {
        if i > 0 {
          assert r[i] == Insert(g, sorted[1..])[i - 1];
        }
      }
    }
  }

  lemma {:induction false} InsertSorted(g: Group, sorted: seq<Group>)
    requires SortedDesc(sorted)
    ensures SortedDesc(Insert(g, sorted))
  {
    if |sorted| > 0 && GroupMinutes(sorted[0]) > GroupMinutes(g) {
      var rest := sorted[1..];
      var b := GroupMinutes(sorted[0]);
      assert SortedDesc(rest) by {
        forall i, j | 0 <= i < j < |rest| ensures GroupMinutes(rest[i]) >= GroupMinutes(rest[j]) {
          assert rest[i] == sorted[i + 1] && rest[j] == sorted[j + 1];
        }
      }
      InsertSorted(g, rest);
      assert forall i :: 0 <= i < |rest| ==> GroupMinutes(rest[i]) <= b by {
        forall i | 0 <= i < |rest| ensures GroupMinutes(rest[i]) <= b {
          assert rest[i] == sorted[i + 1];
        }
      }
      InsertBounded(g, rest, b);
      var tail := Insert(g, rest);
      var r := [sorted[0]] + tail;
      forall i, j | 0 <= i < j < |r| ensures GroupMinutes(r[i]) >= GroupMinutes(r[j]) {
        assert r[j] == tail[j - 1];
        if i > 0 {
          assert r[i] == tail[i - 1];
        }
      }
    } else if |sorted| > 0 {
      var r := [g] + sorted;
      forall i, j | 0 <= i < j < |r| ensures GroupMinutes(r[i]) >= GroupMinutes(r[j]) {
        assert r[j] == sorted[j - 1];
        if i > 0 {
          assert r[i] == sorted[i - 1];
        }
      }
    }
  }

  /** The groups of weight `m` in front of a list. */
  lemma {:induction false} WithMinutesCons(g: Group, rest: seq<Group>, m: nat)
    ensures WithMinutes([g] + rest, m) == (if GroupMinutes(g) == m then [g] else []) + WithMinutes(rest, m)
  {
    assert ([g] + rest)[1..] == rest;
  }

  lemma {:induction false} InsertStable(g: Group, sorted: seq<Group>, m: nat)
    ensures WithMinutes(Insert(g, sorted), m) == (if GroupMinutes(g) == m then [g] else []) + WithMinutes(sorted, m)
  {
    if |sorted| == 0 {
      WithMinutesCons(g, [], m);
      assert [g] + [] == [g];
    } else if GroupMinutes(sorted[0]) <= GroupMinutes(g) {
      WithMinutesCons(g, sorted, m);
    } else {
      var rest := sorted[1..];
      var ins := Insert(g, rest);
      InsertStable(g, rest, m);
      WithMinutesCons(sorted[0], ins, m);
      WithMinutesCons(sorted[0], rest, m);
      assert [sorted[0]] + rest == sorted;
      // `g` is lighter than `sorted[0]`, so at most one of them weighs `m`.
      if GroupMinutes(g) == m {
        assert WithMinutes(Insert(g, sorted), m) == [g] + WithMinutes(rest, m);
      }
    }
  }

  /** The sort is a stable descending sort: a permutation, ordered by minutes,
      with groups of equal minutes in their input order. */
  lemma {:induction false} SortByMinutesSpec(gs: seq<Group>)
    ensures multiset(SortByMinutes(gs)) == multiset(gs)
    ensures SortedDesc(SortByMinutes(gs))
    ensures forall m: nat :: WithMinutes(SortByMinutes(gs), m) == WithMinutes(gs, m)
  {
    if |gs| > 0 {
      SortByMinutesSpec(gs[1..]);
      assert gs == [gs[0]] + gs[1..];
      forall m: nat ensures WithMinutes(SortByMinutes(gs), m) == WithMinutes(gs, m) {
        InsertStable(gs[0], SortByMinutes(gs[1..]), m);
      }
      InsertMultiset(gs[0], SortByMinutes(gs[1..]));
      InsertSorted(gs[0], SortByMinutes(gs[1..]));
    }
  }

  lemma {:induction false} InsertFlatten(g: Group, sorted: seq<Group>)
    ensures multiset(FlattenGroups(Insert(g, sorted))) == multiset(g.places) + multiset(FlattenGroups(sorted))
  {
    if |sorted| == 0 {
      FlattenGroupsCons(g, []);
      assert [g] + [] == [g];
    } else if GroupMinutes(sorted[0]) <= GroupMinutes(g) {
      FlattenGroupsCons(g, sorted);
    } else {
      InsertFlatten(g, sorted[1..]);
      FlattenGroupsCons(sorted[0], Insert(g, sorted[1..]));
      FlattenGroupsCons(sorted[0], sorted[1..]);
      assert sorted == [sorted[0]] + sorted[1..];
    }
  }

  /** Sorting moves whole groups: the places are the same multiset. */
  lemma {:induction false} SortByMinutesFlatten(gs: seq<Group>)
    ensures multiset(FlattenGroups(SortByMinutes(gs))) == multiset(FlattenGroups(gs))
  {
    if |gs| > 0 {
      SortByMinutesFlatten(gs[1..]);
      InsertFlatten(gs[0], SortByMinutes(gs[1..]));
      FlattenGroupsCons(gs[0], gs[1..]);
      assert gs == [gs[0]] + gs[1..];
    }
  }

  // ---------------------------------------------------------------------------
  // Greedy packing into days
  // ---------------------------------------------------------------------------

  /** One loop step: open a new day when there is none yet or when the next
      group would take the last day past the budget; otherwise merge it into
      the last day. The test reads the last day's minutes from its places. */
  function PackStep(days: seq<seq<Group>>, g: Group): seq<seq<Group>>
  {
    if |days| == 0 || TotalVisitMinutes(FlattenGroups(days[|days| - 1])) + GroupMinutes(g) > MaxDayMinutes then
      days + [[g]]
    else
      days[..|days| - 1] + [days[|days| - 1] + [g]]
  }

  /** The days as runs of consecutive groups. */
  function PackRuns(gs: seq<Group>): seq<seq<Group>>
  {
    if |gs| == 0 then [] else PackStep(PackRuns(gs[..|gs| - 1]), gs[|gs| - 1])
  }

  function Concat(runs: seq<seq<Group>>): seq<Group>
  {
    if |runs| == 0 then [] else Concat(runs[..|runs| - 1]) + runs[|runs| - 1]
  }

  function RunMinutes(run: seq<Group>): nat
  {
    if |run| == 0 then 0 else RunMinutes(run[..|run| - 1]) + GroupMinutes(run[|run| - 1])
  }

  lemma {:induction false} RunMinutesIsDayMinutes(run: seq<Group>)
    ensures RunMinutes(run) == TotalVisitMinutes(FlattenGroups(run))
  {
    if |run| > 0 {
      RunMinutesIsDayMinutes(run[..|run| - 1]);
      TotalVisitMinutesAppend(FlattenGroups(run[..|run| - 1]), run[|run| - 1].places);
    }
  }

  /** The next day was opened because its first group did not fit. */
  ghost predicate DidNotFit(day: seq<Group>, next: seq<Group>)
  {
    |next| > 0 && RunMinutes(day) + GroupMinutes(next[0]) > MaxDayMinutes
  }

  /** Day by day: none empty, every day of two or more groups within budget,
      and each day after the first opened only because its first group did
      not fit into the day before. */
  ghost predicate RunsOk(runs: seq<seq<Group>>)
    decreases |runs|
  {
    |runs| == 0 ||
      var last := runs[|runs| - 1];
      && RunsOk(runs[..|runs| - 1])
      && |last| > 0
      && (|last| >= 2 ==> RunMinutes(last) <= MaxDayMinutes)
      && (|runs| >= 2 ==> DidNotFit(runs[|runs| - 2], last))
  }

  /** The shape the greedy loop produces: runs that re-concatenate to the
      input and are packed day by day as `RunsOk` says. */
  ghost predicate IsPacking(runs: seq<seq<Group>>, gs: seq<Group>)
  {
    Concat(runs) == gs && RunsOk(runs)
  }

  /** `RunsOk` read position by position. */
  lemma {:induction false} RunsOkShape(runs: seq<seq<Group>>)
    requires RunsOk(runs)
    ensures forall i :: 0 <= i < |runs| ==> |runs[i]| > 0
    ensures forall i :: 0 <= i < |runs| && |runs[i]| >= 2 ==> RunMinutes(runs[i]) <= MaxDayMinutes
    ensures forall i {:trigger DidNotFit(runs[i], runs[i + 1])} :: 0 <= i < |runs| - 1 ==> DidNotFit(runs[i], runs[i + 1])
  {
    if |runs| > 0 {
      var init := runs[..|runs| - 1];
      RunsOkShape(init);
      assert forall i :: 0 <= i < |init| ==> init[i] == runs[i];
    }
  }

  lemma {:induction false} ConcatSnoc(runs: seq<seq<Group>>, run: seq<Group>)
    ensures Concat(runs + [run]) == Concat(runs) + run
  {
    assert (runs + [run])[..|runs|] == runs;
  }

  lemma {:induction false} RunMinutesSnoc(run: seq<Group>, g: Group)
    ensures RunMinutes(run + [g]) == RunMinutes(run) + GroupMinutes(g)
  {
    assert (run + [g])[..|run|] == run;
  }

  /** A group that does not fit opens a new day. */
  lemma {:induction false} PackStepOpens(runs: seq<seq<Group>>, gs: seq<Group>, g: Group)
    requires IsPacking(runs, gs)
    requires |runs| == 0 || RunMinutes(runs[|runs| - 1]) + GroupMinutes(g) > MaxDayMinutes
    ensures IsPacking(runs + [[g]], gs + [g])
  {
    var r := runs + [[g]];
    ConcatSnoc(runs, [g]);
    assert r[..|r| - 1] == runs;
  }

  /** A group that fits joins the last day. */
  lemma {:induction false} PackStepMerges(runs: seq<seq<Group>>, gs: seq<Group>, g: Group)
    requires IsPacking(runs, gs)
    requires |runs| > 0 && RunMinutes(runs[|runs| - 1]) + GroupMinutes(g) <= MaxDayMinutes
    ensures IsPacking(runs[..|runs| - 1] + [runs[|runs| - 1] + [g]], gs + [g])
  {
    var last := runs[|runs| - 1];
    var front := runs[..|runs| - 1];
    var r := front + [last + [g]];
    assert Concat(r) == gs + [g] by {
      ConcatSnoc(front, last + [g]);
      assert runs == front + [last];
      ConcatSnoc(front, last);
    }
    RunMinutesSnoc(last, g);
    assert r[..|r| - 1] == front;
    if |runs| >= 2 {
      assert r[|r| - 2] == runs[|runs| - 2];
      assert DidNotFit(runs[|runs| - 2], last);
    }
  }

  lemma {:induction false} PackStepKeeps(runs: seq<seq<Group>>, gs: seq<Group>, g: Group)
    requires IsPacking(runs, gs)
    ensures IsPacking(PackStep(runs, g), gs + [g])
  {
    if |runs| == 0 {
      PackStepOpens(runs, gs, g);
    } else {
      RunMinutesIsDayMinutes(runs[|runs| - 1]);
      if RunMinutes(runs[|runs| - 1]) + GroupMinutes(g) > MaxDayMinutes {
        PackStepOpens(runs, gs, g);
      } else {
        PackStepMerges(runs, gs, g);
      }
    }
  }

  /** The greedy loop's days have the packing shape. */
  lemma {:induction false} PackRunsSpec(gs: seq<Group>)
    ensures IsPacking(PackRuns(gs), gs)
  {
    if |gs| > 0 {
      var init := gs[..|gs| - 1];
      var g := gs[|gs| - 1];
      var runs := PackRuns(init);
      PackRunsSpec(init);
      PackStepKeeps(runs, init, g);
      assert init + [g] == gs;
      assert PackRuns(gs) == PackStep(runs, g);
    }
  }

  /** A packing never has more days than groups: every day holds at least
      one group. */
  lemma {:induction false} RunsOkCount(runs: seq<seq<Group>>)
    requires RunsOk(runs)
    ensures |runs| <= |Concat(runs)|
    decreases |runs|
  {
    if |runs| > 0 {
      RunsOkCount(runs[..|runs| - 1]);
    }
  }

  /** The packing of the sorted groups has at most one day per group, and at
      least one day when there is any group. */
  lemma {:induction false} PackedDayCount(groups: seq<Group>)
    ensures |PackRuns(SortByMinutes(groups))| <= |groups|
    ensures |groups| > 0 ==> |PackRuns(SortByMinutes(groups))| >= 1
  {
    var sorted := SortByMinutes(groups);
    SortByMinutesSpec(groups);
    assert |sorted| == |multiset(sorted)| == |multiset(groups)| == |groups|;
    PackRunsSpec(sorted);
    RunsOkCount(PackRuns(sorted));
  }

  /** `distributeIntoDays`: the places of each day, largest wards first. */
  function DistributeIntoDays(groups: seq<Group>): (days: seq<seq<Place>>)
    ensures |days| == |PackRuns(SortByMinutes(groups))|
    ensures |days| <= |groups|
    ensures |groups| > 0 ==> |days| >= 1
  {
    PackedDayCount(groups);
    var runs := PackRuns(SortByMinutes(groups));
    seq(|runs|, i requires 0 <= i < |runs| => FlattenGroups(runs[i]))
  }

  function FlattenDays(days: seq<seq<Place>>): seq<Place>
  {
    if |days| == 0 then [] else FlattenDays(days[..|days| - 1]) + days[|days| - 1]
  }

  lemma {:induction false} FlattenRuns(runs: seq<seq<Group>>)
    ensures FlattenDays(seq(|runs|, i requires 0 <= i < |runs| => FlattenGroups(runs[i]))) == FlattenGroups(Concat(runs))
  {
    if |runs| > 0 {
      var init := runs[..|runs| - 1];
      FlattenRuns(init);
      var ds := seq(|runs|, i requires 0 <= i < |runs| => FlattenGroups(runs[i]));
      assert ds[..|ds| - 1] == seq(|init|, i requires 0 <= i < |init| => FlattenGroups(init[i]));
      FlattenGroupsAppend(Concat(init), runs[|runs| - 1]);
    }
  }

  /** Packing neither drops nor duplicates a place, and keeps the sorted
      group order: the days, read in order, are the sorted groups' places. */
  lemma {:induction false} DistributeIntoDaysFlatten(groups: seq<Group>)
    ensures FlattenDays(DistributeIntoDays(groups)) == FlattenGroups(SortByMinutes(groups))
    ensures multiset(FlattenDays(DistributeIntoDays(groups))) == multiset(FlattenGroups(groups))
  {
    var runs := PackRuns(SortByMinutes(groups));
    PackRunsSpec(SortByMinutes(groups));
    FlattenRuns(runs);
    SortByMinutesFlatten(groups);
  }

  /** Every day made of two or more wards stays within 480 minutes. */
  lemma {:induction false} DistributeIntoDaysBudget(groups: seq<Group>)
    ensures var runs := PackRuns(SortByMinutes(groups));
      forall i :: 0 <= i < |runs| && |runs[i]| >= 2 ==>
        TotalVisitMinutes(DistributeIntoDays(groups)[i]) <= MaxDayMinutes
  {
    var runs := PackRuns(SortByMinutes(groups));
    PackRunsSpec(SortByMinutes(groups));
    RunsOkShape(runs);
    forall i | 0 <= i < |runs| && |runs[i]| >= 2
      ensures TotalVisitMinutes(DistributeIntoDays(groups)[i]) <= MaxDayMinutes
    {
      RunMinutesIsDayMinutes(runs[i]);
    }
  }

  /** Two wards that together exceed the budget go to two days, the heavier
      (or, on a tie, the earlier) one first. */
  lemma {:induction false} SortTwo(g1: Group, g2: Group)
    ensures GroupMinutes(g1) >= GroupMinutes(g2) ==> SortByMinutes([g1, g2]) == [g1, g2]
    ensures GroupMinutes(g1) < GroupMinutes(g2) ==> SortByMinutes([g1, g2]) == [g2, g1]
  {
    assert [g1, g2][1..] == [g2];
    assert SortByMinutes([g2]) == [g2] by {
      assert [g2][1..] == [];
      assert SortByMinutes([g2]) == Insert(g2, SortByMinutes([]));
    }
    assert SortByMinutes([g1, g2]) == Insert(g1, [g2]);
    if GroupMinutes(g1) < GroupMinutes(g2) {
      assert Insert(g1, [g2]) == [g2] + Insert(g1, [g2][1..]);
      assert [g2][1..] == [];
    }
  }

  lemma {:induction false} PackTwo(a: Group, b: Group)
    requires GroupMinutes(a) + GroupMinutes(b) > MaxDayMinutes
    ensures PackRuns([a, b]) == [[a], [b]]
  {
    FlattenGroupsCons(a, []);
    assert [a] + [] == [a];
    assert [a, b][..1] == [a] && [a][..0] == [];
    assert PackRuns([a]) == PackStep(PackRuns([]), a) == [[a]];
    var d := [[a]];
    assert FlattenGroups([a]) == a.places + FlattenGroups([]);
    assert FlattenGroups([a]) == a.places;
    assert d[|d| - 1] == [a];
    assert TotalVisitMinutes(FlattenGroups(d[|d| - 1])) == GroupMinutes(a);
    assert PackStep(d, b) == d + [[b]];
    assert PackRuns([a, b]) == PackStep(PackRuns([a]), b);
  }

  lemma {:induction false} FlattenSingle(g: Group)
    ensures FlattenGroups([g]) == g.places
  {
    assert [g][..0] == [];
  }

  /** Two single-group days become the two groups' places. */
  lemma {:induction false} DaysOfTwoRuns(groups: seq<Group>, a: Group, b: Group)
    requires PackRuns(SortByMinutes(groups)) == [[a], [b]]
    ensures DistributeIntoDays(groups) == [a.places, b.places]
  {
    var days := DistributeIntoDays(groups);
    FlattenSingle(a);
    FlattenSingle(b);
    assert days[0] == a.places && days[1] == b.places;
  }

  /** Two wards that together exceed the budget go to two days, the heavier
      (or, on a tie, the earlier) one first. */
  lemma {:induction false} TwoHeavyWardsSplit(g1: Group, g2: Group)
    requires GroupMinutes(g1) + GroupMinutes(g2) > MaxDayMinutes
    ensures |DistributeIntoDays([g1, g2])| == 2
    ensures GroupMinutes(g1) >= GroupMinutes(g2) ==>
      DistributeIntoDays([g1, g2]) == [g1.places, g2.places]
    ensures GroupMinutes(g1) < GroupMinutes(g2) ==>
      DistributeIntoDays([g1, g2]) == [g2.places, g1.places]
  {
    SortTwo(g1, g2);
    if GroupMinutes(g1) >= GroupMinutes(g2) {
      PackTwo(g1, g2);
      DaysOfTwoRuns([g1, g2], g1, g2);
    } else {
      PackTwo(g2, g1);
      DaysOfTwoRuns([g1, g2], g2, g1);
    }
  }
}

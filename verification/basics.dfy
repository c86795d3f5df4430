/** Shared vocabulary of the itinerary engine: optional values, coordinates,
    catalog places with their defaulted fields, and a few sequence facts
    (duplicate-freedom, first-occurrence de-duplication, sums, multisets). */
module Basics {

  datatype Option<+T> = None | Some(value: T)

  /** A point in degrees; the engine never inspects it except through the
      distance function. */
  datatype Coordinate = Coordinate(lat: real, lng: real)

  /** A catalog place as the engine reads it. The two optional fields are
      resolved by `VisitMinutes` and `Fee`. */
  datatype Place = Place(
    id: string,
    ward: string,
    coordinates: Coordinate,
    admissionFee: Option<nat>,
    avgVisitDuration: Option<nat>)

  const DefaultVisitMinutes: nat := 60

  /** `avgVisitDuration || 60`: a missing value and 0 both read as 60. */
  function VisitMinutes(p: Place): (m: nat)
    ensures m > 0
    ensures p.avgVisitDuration == None || p.avgVisitDuration == Some(0) ==> m == DefaultVisitMinutes
    ensures p.avgVisitDuration.Some? && p.avgVisitDuration.value != 0 ==> m == p.avgVisitDuration.value
  {
    match p.avgVisitDuration
    case None => DefaultVisitMinutes
    case Some(v) => if v == 0 then DefaultVisitMinutes else v
  }

  /** `admissionFee || 0`: a missing fee reads as 0. */
  function Fee(p: Place): (f: nat)
    ensures p.admissionFee.None? ==> f == 0
    ensures p.admissionFee.Some? ==> f == p.admissionFee.value
  {
    match p.admissionFee
    case None => 0
    case Some(v) => v
  }

  /** Sum of visit minutes of a list of places, as the packer's `reduce` does. */
  function TotalVisitMinutes(ps: seq<Place>): nat
  {
    if |ps| == 0 then 0 else TotalVisitMinutes(ps[..|ps| - 1]) + VisitMinutes(ps[|ps| - 1])
  }

  lemma {:induction false} TotalVisitMinutesAppend(a: seq<Place>, b: seq<Place>)
    ensures TotalVisitMinutes(a + b) == TotalVisitMinutes(a) + TotalVisitMinutes(b)
    decreases |b|
  {
    if |b| == 0 {
      assert a + b == a;
    } else {
      assert (a + b)[..|a + b| - 1] == a + b[..|b| - 1];
      TotalVisitMinutesAppend(a, b[..|b| - 1]);
    }
  }

  function IdSeq(ps: seq<Place>): (ids: seq<string>)
    ensures |ids| == |ps|
    ensures forall i :: 0 <= i < |ps| ==> ids[i] == ps[i].id
  {
    if |ps| == 0 then [] else IdSeq(ps[..|ps| - 1]) + [ps[|ps| - 1].id]
  }

  lemma {:induction false} IdSeqAppend(a: seq<Place>, b: seq<Place>)
    ensures IdSeq(a + b) == IdSeq(a) + IdSeq(b)
  {
  }

  function IdsOf(ps: seq<Place>): (s: set<string>)
    ensures forall i :: 0 <= i < |ps| ==> ps[i].id in s
    ensures forall x :: x in s ==> exists i :: 0 <= i < |ps| && ps[i].id == x
  {
    set i | 0 <= i < |ps| :: ps[i].id
  }

  /** No value occurs twice. */
  predicate NoDup<T(==)>(s: seq<T>)
  {
    forall i, j :: 0 <= i < j < |s| ==> s[i] != s[j]
  }

  /** Place ids are pairwise distinct. */
  predicate DistinctIds(ps: seq<Place>)
  {
    NoDup(IdSeq(ps))
  }

  /** First-occurrence de-duplication, built left to right the way a JS `Set`
      or `Map` remembers insertion order. */
  function Distinct<T(==,!new)>(s: seq<T>): (d: seq<T>)
    ensures NoDup(d)
    ensures forall x :: x in d <==> x in s
  {
    if |s| == 0 then []
    else
      var d := Distinct(s[..|s| - 1]);
      var x := s[|s| - 1];
      assert forall y :: y in s <==> y in s[..|s| - 1] || y == x by {
        assert s == s[..|s| - 1] + [x];
      }
      if x in d then d else d + [x]
  }

  lemma {:induction false} NoDupCounts<T>(s: seq<T>)
    ensures NoDup(s) <==> forall x :: multiset(s)[x] <= 1
  {
    if |s| == 0 {
    } else {
      var x := s[0];
      var t := s[1..];
      assert s == [x] + t;
      NoDupCounts(t);
      if NoDup(s) {
        assert NoDup(t) by {
          forall i, j | 0 <= i < j < |t| ensures t[i] != t[j] {
            assert t[i] == s[i + 1] && t[j] == s[j + 1];
          }
        }
        assert x !in t;
        forall y ensures multiset(s)[y] <= 1 {
          assert multiset(s) == multiset{x} + multiset(t);
        }
      }
      if forall y :: multiset(s)[y] <= 1 {
        assert multiset(s) == multiset{x} + multiset(t);
        assert forall y :: multiset(t)[y] <= 1 by {
          forall y ensures multiset(t)[y] <= 1 {
            assert multiset(t)[y] <= multiset(s)[y];
          }
        }
        assert multiset(s)[x] == multiset(t)[x] + 1;
        assert multiset(t)[x] == 0;
        forall i, j | 0 <= i < j < |s| ensures s[i] != s[j] {
          if i == 0 {
            assert s[j] == t[j - 1];
            assert s[j] in multiset(t);
          } else {
            assert s[i] == t[i - 1] && s[j] == t[j - 1];
          }
        }
      }
    }
  }

  /** A rearrangement of a duplicate-free sequence is duplicate-free. */
  lemma {:induction false} NoDupPermutation<T>(a: seq<T>, b: seq<T>)
    requires multiset(a) == multiset(b)
    requires NoDup(b)
    ensures NoDup(a)
  {
    NoDupCounts(a);
    NoDupCounts(b);
  }

  /** Two duplicate-free sequences with the same elements are rearrangements
      of each other. */
  lemma {:induction false} NoDupSameElements<T>(a: seq<T>, b: seq<T>)
    requires NoDup(a) && NoDup(b)
    requires forall x :: x in a <==> x in b
    ensures multiset(a) == multiset(b)
  {
    NoDupCounts(a);
    NoDupCounts(b);
    forall x ensures multiset(a)[x] == multiset(b)[x] {
      assert x in a <==> x in multiset(a);
      assert x in b <==> x in multiset(b);
    }
  }

  lemma {:induction false} NoDupPrefix<T>(a: seq<T>, b: seq<T>)
    requires NoDup(a + b)
    ensures NoDup(a) && NoDup(b)
  {
    forall i, j | 0 <= i < j < |b| ensures b[i] != b[j] {
      assert (a + b)[|a| + i] == b[i] && (a + b)[|a| + j] == b[j];
    }
    forall i, j | 0 <= i < j < |a| ensures a[i] != a[j] {
      assert (a + b)[i] == a[i] && (a + b)[j] == a[j];
    }
  }

  /** Taking out position `k` takes one copy of `b[k]` out of the multiset. */
  lemma {:induction false} MultisetRemoveAt<T>(b: seq<T>, k: nat, rest: seq<T>)
    requires k < |b| && rest == b[..k] + b[k + 1..]
    ensures multiset(rest) == multiset(b) - multiset{b[k]}
  {
    assert b == b[..k] + [b[k]] + b[k + 1..];
    assert multiset(b) == multiset(b[..k]) + multiset{b[k]} + multiset(b[k + 1..]);
  }

  /** ... and one copy of its id out of the multiset of ids. */
  lemma {:induction false} IdSeqRemoveAt(b: seq<Place>, k: nat, rest: seq<Place>)
    requires k < |b| && rest == b[..k] + b[k + 1..]
    ensures multiset(IdSeq(b)) == multiset(IdSeq(rest)) + multiset{b[k].id}
  {
    assert b == b[..k] + [b[k]] + b[k + 1..];
    IdSeqAppend(b[..k], [b[k]]);
    IdSeqAppend(b[..k] + [b[k]], b[k + 1..]);
    IdSeqAppend(b[..k], b[k + 1..]);
  }

  /** Equal multisets of places give equal multisets of their ids. */
  lemma {:induction false} IdSeqPermutation(a: seq<Place>, b: seq<Place>)
    requires multiset(a) == multiset(b)
    ensures multiset(IdSeq(a)) == multiset(IdSeq(b))
    decreases |a|
  {
    if |a| == 0 {
      assert |b| == |multiset(b)| == 0;
    } else {
      var x := a[0];
      assert x in multiset(b);
      var k :| 0 <= k < |b| && b[k] == x;
      var a' := a[..0] + a[1..];
      var b' := b[..k] + b[k + 1..];
      MultisetRemoveAt(a, 0, a');
      MultisetRemoveAt(b, k, b');
      IdSeqPermutation(a', b');
      IdSeqRemoveAt(a, 0, a');
      IdSeqRemoveAt(b, k, b');
    }
  }
}

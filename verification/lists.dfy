/** List helpers shared by the stores and the screens: removing every
    occurrence of a value (`filter(x => x !== v)`) and the add-or-remove
    toggle built on it. */
module Lists {
  import opened Basics

  /** `s.filter(y => y !== x)`. */
  function Without<T(==,!new)>(s: seq<T>, x: T): (r: seq<T>)
    ensures |r| <= |s|
    ensures forall y :: y in r <==> y in s && y != x
  {
    if |s| == 0 then []
    else if s[|s| - 1] == x then Without(s[..|s| - 1], x)
    else Without(s[..|s| - 1], x) + [s[|s| - 1]]
  }

  /** `filter` keeps the survivors in order, repeats included: an element
      appended (or prepended) to the list survives at the end (or the front)
      unless it is the value. */
  lemma {:induction false} WithoutAppend<T(!new)>(s: seq<T>, y: T, x: T)
    ensures Without([], x) == []
    ensures Without(s + [y], x) == Without(s, x) + (if y == x then [] else [y])
    ensures Without([y] + s, x) == (if y == x then [] else [y]) + Without(s, x)
    decreases |s|
  {
    assert (s + [y])[..|s + [y]| - 1] == s;
    if |s| == 0 {
      assert [y] + s == s + [y];
    } else {
      var init, last := s[..|s| - 1], s[|s| - 1];
      var q := [y] + init;
      var head, tail := (if y == x then [] else [y]), (if last == x then [] else [last]);
      assert [y] + s == q + [last];
      assert (q + [last])[..|q + [last]| - 1] == q;
      assert Without([y] + s, x) == Without(q, x) + tail;
      WithoutAppend(init, y, x);
      assert Without(q, x) == head + Without(init, x);
      assert Without(s, x) == Without(init, x) + tail;
      assert (head + Without(init, x)) + tail == head + (Without(init, x) + tail);
    }
  }

  /** Removing a value that is absent changes nothing. */
  lemma {:induction false} WithoutAbsent<T(!new)>(s: seq<T>, x: T)
    requires x !in s
    ensures Without(s, x) == s
  {
    if |s| > 0 {
      assert s[..|s| - 1] + [s[|s| - 1]] == s;
      WithoutAbsent(s[..|s| - 1], x);
    }
  }

  /** Removing a value that was just appended is the same as never
      appending it. */
  lemma {:induction false} WithoutSnoc<T(!new)>(s: seq<T>, x: T)
    ensures Without(s + [x], x) == Without(s, x)
  {
    assert (s + [x])[..|s + [x]| - 1] == s;
  }

  lemma {:induction false} WithoutNoDup<T(!new)>(s: seq<T>, x: T)
    requires NoDup(s)
    ensures NoDup(Without(s, x))
  {
    if |s| > 0 {
      var init := s[..|s| - 1];
      assert NoDup(init);
      WithoutNoDup(init, x);
      var last := s[|s| - 1];
      assert last !in init;
      if last != x {
        var w := Without(init, x);
        assert last !in w;
        var r := w + [last];
        forall i, j | 0 <= i < j < |r| ensures r[i] != r[j] {
          if j == |r| - 1 {
            assert r[i] in w;
          }
        }
      }
    }
  }

  /** Removing every copy of a value shortens the list by its count. */
  lemma {:induction false} WithoutCount<T(!new)>(s: seq<T>, x: T)
    ensures |Without(s, x)| == |s| - multiset(s)[x]
  {
    if |s| > 0 {
      WithoutCount(s[..|s| - 1], x);
      assert s == s[..|s| - 1] + [s[|s| - 1]];
    }
  }

  /** Remove `x` everywhere if present, otherwise append it at the end. */
  function Toggle<T(==,!new)>(s: seq<T>, x: T): (r: seq<T>)
    ensures x in r <==> x !in s
    ensures forall y :: y != x ==> (y in r <==> y in s)
    ensures x !in s ==> r == s + [x]
    ensures NoDup(s) ==> NoDup(r)
  {
    if x in s then
      WithoutNoDupIf(s, x);
      Without(s, x)
    else
      assert NoDup(s) ==> NoDup(s + [x]) by {
        if NoDup(s) {
          forall i, j | 0 <= i < j < |s + [x]| ensures (s + [x])[i] != (s + [x])[j] {
            if j == |s| {
              assert (s + [x])[i] in s;
            }
          }
        }
      }
      s + [x]
  }

  lemma {:induction false} WithoutNoDupIf<T(!new)>(s: seq<T>, x: T)
    ensures NoDup(s) ==> NoDup(Without(s, x))
  {
    if NoDup(s) {
      WithoutNoDup(s, x);
    }
  }

  /** Toggling an absent value twice gives the list back. */
  lemma {:induction false} ToggleTwiceAbsent<T(!new)>(s: seq<T>, x: T)
    requires x !in s
    ensures Toggle(Toggle(s, x), x) == s
  {
    WithoutSnoc(s, x);
    WithoutAbsent(s, x);
  }

  /** Toggling a present value twice keeps the same members but moves the
      value to the end. */
  lemma {:induction false} ToggleTwicePresent<T(!new)>(s: seq<T>, x: T)
    requires x in s
    ensures Toggle(Toggle(s, x), x) == Without(s, x) + [x]
    ensures forall y :: y in Toggle(Toggle(s, x), x) <==> y in s
  {
  }
}

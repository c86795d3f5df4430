/** The filter sheet: a record from filter key to the list of chosen chip
    values. A key that was never touched is absent and reads as an empty
    list. */
module Filters {
  import opened Lists

  /** The ten optional keys of the filter record. */
  datatype FilterKey =
    | Rating | Category | Ward | PriceRange | CuisineType
    | PriceLevel | Features | EventType | Date | DistanceBand

  type FilterOptions = map<FilterKey, seq<string>>

  /** `selectedFilters[key] || []`. */
  function Chosen(f: FilterOptions, key: FilterKey): seq<string>
  {
    if key in f then f[key] else []
  }

  predicate IsSelected(f: FilterOptions, key: FilterKey, value: string)
  {
    value in Chosen(f, key)
  }

  /** Adds an unchosen value at the end, or removes every copy of a chosen
      one; the record gains the key if it lacked it, and no other key is
      touched. */
  function ToggleFilter(f: FilterOptions, key: FilterKey, value: string): (r: FilterOptions)
    ensures key in r
    ensures IsSelected(r, key, value) <==> !IsSelected(f, key, value)
    ensures forall v :: v != value ==> (IsSelected(r, key, v) <==> IsSelected(f, key, v))
    ensures !IsSelected(f, key, value) ==> r[key] == Chosen(f, key) + [value]
    ensures IsSelected(f, key, value) ==> r[key] == Without(Chosen(f, key), value)
    ensures forall k :: k != key ==> (k in r <==> k in f)
    ensures forall k :: k != key && k in f ==> r[k] == f[k]
  {
    f[key := Toggle(Chosen(f, key), value)]
  }

  /** `handleReset`: the empty record. */
  function Reset(): (r: FilterOptions)
    ensures forall k, v :: !IsSelected(r, k, v)
  {
    map[]
  }

  /** A key that was never set toggles into a one-value list. */
  lemma {:induction false} ToggleMissingKey(f: FilterOptions, key: FilterKey, value: string)
    requires key !in f
    ensures !IsSelected(f, key, value)
    ensures ToggleFilter(f, key, value)[key] == [value]
  {
  }

  /** Toggling a value on and off again restores the chosen list of that key
      and leaves every other key's list as it was. */
  lemma {:induction false} ToggleFilterTwice(f: FilterOptions, key: FilterKey, value: string)
    requires !IsSelected(f, key, value)
    ensures var r := ToggleFilter(ToggleFilter(f, key, value), key, value);
      && forall k :: Chosen(r, k) == Chosen(f, k)
  {
    var f1 := ToggleFilter(f, key, value);
    var r := ToggleFilter(f1, key, value);
    assert Chosen(f1, key) == Chosen(f, key) + [value];
    ToggleTwiceAbsent(Chosen(f, key), value);
    assert Chosen(r, key) == Toggle(Chosen(f, key) + [value], value);
    forall k | k != key ensures Chosen(r, k) == Chosen(f, k) {
      assert Chosen(r, k) == Chosen(f1, k);
    }
  }

  /** Toggles on different keys commute. */
  lemma {:induction false} ToggleFilterCommutes(f: FilterOptions, k1: FilterKey, v1: string, k2: FilterKey, v2: string)
    requires k1 != k2
    ensures ToggleFilter(ToggleFilter(f, k1, v1), k2, v2) == ToggleFilter(ToggleFilter(f, k2, v2), k1, v1)
  {
    var a := ToggleFilter(ToggleFilter(f, k1, v1), k2, v2);
    var b := ToggleFilter(ToggleFilter(f, k2, v2), k1, v1);
    assert a.Keys == b.Keys;
  }
}

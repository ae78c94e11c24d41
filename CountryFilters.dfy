/**
  The filter form: a record of four optional strings edited field by field
  and handed to the caller's search callback on submission. An absent key
  and a present key are different records even when both display as empty.
 */
module CountryFilters {
  import opened Wrappers

  datatype FilterKey = Name | Iso3 | Region | Currency

  /** The filter record: a key is either absent or holds a string, possibly empty. */
  type Filters = map<FilterKey, string>

  const NoFilters: Filters := map[]

  /** The region menu's "all regions" entry. */
  const AllRegions: string := ""

  /** `{...prev, [key]: value}`: `key` now holds `value`, every other key is as before. */
  function WithField(prev: Filters, key: FilterKey, value: string): (r: Filters)
    ensures key in r && r[key] == value
    ensures forall k :: k != key ==> (k in r <==> k in prev)
    ensures forall k :: k != key && k in prev ==> r[k] == prev[k]
  {
    prev[key := value]
  }

  /**
    `filters.key || ''`: the text a field shows, its stored string when there is
    one; it is empty exactly when the key is absent or holds the empty string.
   */
  function DisplayedValue(f: Filters, key: FilterKey): (s: string)
    ensures key in f ==> s == f[key]
    ensures s == "" <==> key !in f || f[key] == ""
  {
    if key in f then f[key] else ""
  }

  /** The edited field shows exactly what was typed; every other field shows what it showed before. */
  lemma DisplayAfterUpdate(f: Filters, key: FilterKey, value: string, other: FilterKey)
    ensures DisplayedValue(WithField(f, key, value), key) == value
    ensures other != key ==> DisplayedValue(WithField(f, key, value), other) == DisplayedValue(f, other)
  {
  }

  /**
    Choosing "all regions" stores an empty region: the field shows the same as
    on a fresh form, yet the record now has a `region` key, unlike the fresh one.
   */
  lemma AllRegionsStoresEmpty(f: Filters)
    ensures Region in WithField(f, Region, AllRegions)
    ensures WithField(f, Region, AllRegions)[Region] == ""
    ensures DisplayedValue(WithField(f, Region, AllRegions), Region) == DisplayedValue(NoFilters, Region)
    ensures WithField(f, Region, AllRegions) != NoFilters
  {
  }

  /** Edits to two different fields commute; a repeated edit of one field keeps only the last value. */
  lemma UpdatesCommute(f: Filters, k1: FilterKey, v1: string, k2: FilterKey, v2: string)
    ensures k1 != k2 ==> WithField(WithField(f, k1, v1), k2, v2) == WithField(WithField(f, k2, v2), k1, v1)
    ensures WithField(WithField(f, k1, v1), k1, v2) == WithField(f, k1, v2)
  {
  }

  /** One `onChange` event: the field edited and the text it now holds. */
  datatype Edit = Edit(key: FilterKey, value: string)

  /**
    The record after a run of edits, applied in order: its keys are the keys
    present before and the keys some edit touched, and no others.
   */
  function ApplyEdits(f: Filters, edits: seq<Edit>): (r: Filters)
    ensures forall k :: k in f ==> k in r
    ensures forall i :: 0 <= i < |edits| ==> edits[i].key in r
    ensures forall k :: k in r ==> k in f || exists i :: 0 <= i < |edits| && edits[i].key == k
    decreases |edits|
  {
    if edits == [] then f
    else ApplyEdits(WithField(f, edits[0].key, edits[0].value), edits[1..])
  }

  /** The value of the last edit to `key` in `edits`, if any. */
  function LastEdit(edits: seq<Edit>, key: FilterKey): Option<string>
  {
    if edits == [] then None
    else if edits[|edits| - 1].key == key then Some(edits[|edits| - 1].value)
    else LastEdit(edits[..|edits| - 1], key)
  }

  /**
    Last write wins: after a run of edits, a key holds the value of its last
    edit, and a key never edited is exactly as it was.
   */
  lemma {:induction false} ApplyEditsLastWins(f: Filters, edits: seq<Edit>, key: FilterKey)
    ensures LastEdit(edits, key).Some? ==>
              key in ApplyEdits(f, edits) && ApplyEdits(f, edits)[key] == LastEdit(edits, key).value
    ensures LastEdit(edits, key).None? ==>
              (key in ApplyEdits(f, edits) <==> key in f)
              && (key in f ==> ApplyEdits(f, edits)[key] == f[key])
  {
    if edits != [] {
      var n := |edits| - 1;
      ApplyEditsSnoc(f, edits[..n], edits[n]);
      assert edits[..n] + [edits[n]] == edits;
      ApplyEditsLastWins(f, edits[..n], key);
    }
  }

  /** Applying one more edit at the end is one more `WithField`. */
  lemma {:induction false} ApplyEditsSnoc(f: Filters, edits: seq<Edit>, e: Edit)
    ensures ApplyEdits(f, edits + [e]) == WithField(ApplyEdits(f, edits), e.key, e.value)
    decreases |edits|
  {
    if edits != [] {
      assert (edits + [e])[1..] == edits[1..] + [e];
      ApplyEditsSnoc(WithField(f, edits[0].key, edits[0].value), edits[1..], e);
    }
  }

  /** The form component's state. */
  class FilterForm {
    var filters: Filters

    constructor ()
      ensures filters == NoFilters
    {
      filters := map[];
    }

    /** Overwrites exactly `key` with `value`, without any validation. */
    method UpdateField(key: FilterKey, value: string)
      modifies this
      ensures filters == WithField(old(filters), key, value)
    {
      filters := WithField(filters, key, value);
    }

    /** Hands the current record, as it is, to the search callback; the form keeps its state. */
    method HandleSubmit() returns (submitted: Filters)
      ensures submitted == filters
    {
      submitted := filters;
    }

    function Displayed(key: FilterKey): (s: string)
      reads this
      ensures s == "" <==> key !in filters || filters[key] == ""
      ensures key in filters ==> s == filters[key]
    {
      DisplayedValue(filters, key)
    }
  }
}

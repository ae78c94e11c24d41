/**
  The country table page: the rows loaded once from the unpaginated listing,
  and the client-side sort, paging and row navigation applied to them.

  The sort key `orderBy` is a plain string, because the column headers are
  cast to a field name without being one: looking a row up by a header label
  such as "Name" yields `undefined`.
 */
module CountryTablePage {
  import opened Wrappers
  import opened StringOrder
  import opened ArraySort

  /** One row of the table, as the listing endpoint returns it. */
  datatype Country = Country(
    id: int,
    name: string,
    iso3: string,
    numericCode: string,
    capitalName: string,
    currency: string,
    region: string,
    subregion: string,
    latitudeLongitude: string,
    emoji: string)

  datatype Order = Asc | Desc

  /** A field value: `id` is a number, every other field a string. */
  datatype FieldValue = Num(n: int) | Text(s: string)

  const FieldNames: set<string> := {"id", "name", "iso3", "numericCode", "capitalName",
                                    "currency", "region", "subregion", "latitudeLongitude", "emoji"}

  /** The header labels, in column order; each click sorts by the label itself. */
  const Headers: seq<string> := ["id", "Name", "iso3", "Code", "Capital",
                                 "Currency", "Region", "Subregion", "Latitude", "emoji"]

  const InitialRowsPerPage: int := 10

  const CountriesPrefix: string := "/countries/"

  /** `row[key]`: defined exactly for the ten field names, `undefined` (None) otherwise. */
  function Lookup(c: Country, key: string): (v: Option<FieldValue>)
    ensures v.Some? <==> key in FieldNames
    ensures v.Some? ==> (v.value.Num? <==> key == "id")
  {
    if key == "id" then Some(Num(c.id))
    else if key == "name" then Some(Text(c.name))
    else if key == "iso3" then Some(Text(c.iso3))
    else if key == "numericCode" then Some(Text(c.numericCode))
    else if key == "capitalName" then Some(Text(c.capitalName))
    else if key == "currency" then Some(Text(c.currency))
    else if key == "region" then Some(Text(c.region))
    else if key == "subregion" then Some(Text(c.subregion))
    else if key == "latitudeLongitude" then Some(Text(c.latitudeLongitude))
    else if key == "emoji" then Some(Text(c.emoji))
    else None
  }

  /**
    JavaScript's `aValue < bValue` on two looked-up values. `undefined < undefined`
    is false; a number against a string cannot occur, since both sides are read
    under the same key.
   */
  predicate ValueLess(a: Option<FieldValue>, b: Option<FieldValue>): (less: bool)
    ensures a.None? || b.None? ==> !less
    ensures less ==> a.value.Num? == b.value.Num?
    ensures a.Some? && b.Some? && a.value.Text? && b.value.Text? && a.value.s == b.value.s ==> !less
  {
    match (a, b)
    case (Some(Num(x)), Some(Num(y))) => x < y
    case (Some(Text(x)), Some(Text(y))) => StrLess(x, y)
    case _ => false
  }

  lemma ValueLessIrreflexive(a: Option<FieldValue>)
    ensures !ValueLess(a, a)
  {
    if a.Some? && a.value.Text? {
      StrLessIrreflexive(a.value.s);
    }
  }

  lemma ValueLessTransitive(a: Option<FieldValue>, b: Option<FieldValue>, c: Option<FieldValue>)
    requires ValueLess(a, b) && ValueLess(b, c)
    ensures ValueLess(a, c)
  {
    if a.value.Text? {
      StrLessTransitive(a.value.s, b.value.s, c.value.s);
    }
  }

  lemma ValueLessAsymmetric(a: Option<FieldValue>, b: Option<FieldValue>)
    requires ValueLess(a, b)
    ensures !ValueLess(b, a)
  {
    if a.value.Text? {
      StrLessAsymmetric(a.value.s, b.value.s);
    }
  }

  /** Two distinct values read under one field name are always ordered one way or the other. */
  lemma ValueLessTotal(a: Country, b: Country, key: string)
    requires key in FieldNames
    requires Lookup(a, key) != Lookup(b, key)
    ensures ValueLess(Lookup(a, key), Lookup(b, key)) || ValueLess(Lookup(b, key), Lookup(a, key))
  {
    var va, vb := Lookup(a, key).value, Lookup(b, key).value;
    if va.Text? {
      StrLessTotal(va.s, vb.s);
    }
  }

  /**
    The comparator handed to `Array.prototype.sort`: negative, putting `a` first,
    when ascending and `a`'s key is smaller, or when descending and it is not.
   */
  function Compare(a: Country, b: Country, order: Order, orderBy: string): (r: int)
    ensures r == 1 || r == -1
    ensures order == Asc ==> (r < 0 <==> ValueLess(Lookup(a, orderBy), Lookup(b, orderBy)))
    ensures order == Desc ==> (r < 0 <==> !ValueLess(Lookup(a, orderBy), Lookup(b, orderBy)))
  {
    (if ValueLess(Lookup(a, orderBy), Lookup(b, orderBy)) then -1 else 1) * (if order == Asc then 1 else -1)
  }

  /** Under a key that is not a field every comparison gives the same sign: 1 ascending, -1 descending. */
  lemma CompareConstantOffField(a: Country, b: Country, order: Order, orderBy: string)
    requires orderBy !in FieldNames
    ensures Compare(a, b, order, orderBy) == if order == Asc then 1 else -1
  {
  }

  /**
    Rows with equal keys are each put after the other (ascending) or each before
    the other (descending): the comparator is not consistent on ties.
   */
  lemma CompareTiesInconsistent(a: Country, b: Country, order: Order, orderBy: string)
    requires Lookup(a, orderBy) == Lookup(b, orderBy)
    ensures Compare(a, b, order, orderBy) == Compare(b, a, order, orderBy)
  {
    ValueLessIrreflexive(Lookup(a, orderBy));
  }

  /** On distinct keys of a real field, swapping the arguments negates the comparator's answer. */
  lemma CompareDistinctAntisymmetric(a: Country, b: Country, order: Order, orderBy: string)
    requires orderBy in FieldNames
    requires Lookup(a, orderBy) != Lookup(b, orderBy)
    ensures Compare(a, b, order, orderBy) == -Compare(b, a, order, orderBy)
  {
    ValueLessTotal(a, b, orderBy);
    if ValueLess(Lookup(a, orderBy), Lookup(b, orderBy)) {
      ValueLessAsymmetric(Lookup(a, orderBy), Lookup(b, orderBy));
    }
  }

  /** `a` comes strictly before `b` in the direction `order`, by key. */
  predicate KeyBefore(a: Country, b: Country, order: Order, orderBy: string)
  {
    if order == Asc then ValueLess(Lookup(a, orderBy), Lookup(b, orderBy))
    else ValueLess(Lookup(b, orderBy), Lookup(a, orderBy))
  }

  lemma KeyBeforeTransitive(a: Country, b: Country, c: Country, order: Order, orderBy: string)
    requires KeyBefore(a, b, order, orderBy) && KeyBefore(b, c, order, orderBy)
    ensures KeyBefore(a, c, order, orderBy)
  {
    if order == Asc {
      ValueLessTransitive(Lookup(a, orderBy), Lookup(b, orderBy), Lookup(c, orderBy));
    } else {
      ValueLessTransitive(Lookup(c, orderBy), Lookup(b, orderBy), Lookup(a, orderBy));
    }
  }

  lemma KeyBeforeAsymmetric(a: Country, b: Country, order: Order, orderBy: string)
    requires KeyBefore(a, b, order, orderBy)
    ensures !KeyBefore(b, a, order, orderBy) && a != b
  {
    if order == Asc {
      ValueLessAsymmetric(Lookup(a, orderBy), Lookup(b, orderBy));
    } else {
      ValueLessAsymmetric(Lookup(b, orderBy), Lookup(a, orderBy));
    }
    ValueLessIrreflexive(Lookup(a, orderBy));
  }

  /** Strictly increasing by key when ascending, strictly decreasing when descending. */
  predicate StrictlyOrdered(t: seq<Country>, order: Order, orderBy: string)
  {
    forall i, j :: 0 <= i < j < |t| ==> KeyBefore(t[i], t[j], order, orderBy)
  }

  /** `orderBy` names a field and no two rows share its value. */
  predicate DistinctKeys(s: seq<Country>, orderBy: string)
  {
    && orderBy in FieldNames
    && forall i, j :: 0 <= i < j < |s| ==> Lookup(s[i], orderBy) != Lookup(s[j], orderBy)
  }

  /**
    The outcomes of `Array.prototype.sort` with this comparator: a permutation
    of the input, and, when the keys are distinct, the order the comparator
    defines. The comparator is never consistent in the sense of section
    23.1.3.30 of ECMA-262, since comparing a row with itself does not give 0,
    so the standard leaves the order open altogether; the second half holds
    for an engine that only ever compares two different slots of the array.
   */
  predicate AdmissibleSort(s: seq<Country>, r: seq<Country>, order: Order, orderBy: string)
  {
    && multiset(r) == multiset(s)
    && (DistinctKeys(s, orderBy) ==> StrictlyOrdered(r, order, orderBy))
  }

  /** The comparator as the function value handed to the sort. */
  function Comparator(order: Order, orderBy: string): (Country, Country) -> int
  {
    (a, b) => Compare(a, b, order, orderBy)
  }

  /**
    `[...countries].sort(comparator)`, as produced by insertion sort. The
    order among equal keys is whatever this particular algorithm makes of the
    inconsistent comparator; `SortCopyAdmissible` and `AdmissibleSortUnique`
    say what holds of every outcome.
   */
  function SortCopy(s: seq<Country>, order: Order, orderBy: string): (r: seq<Country>)
    ensures multiset(r) == multiset(s)
  {
    SortByPermutes(s, Comparator(order, orderBy));
    SortBy(s, Comparator(order, orderBy))
  }

  /** A row ahead of every row of an ordered run can be put in front of it. */
  lemma OrderedCons(x: Country, t: seq<Country>, order: Order, orderBy: string)
    requires StrictlyOrdered(t, order, orderBy)
    requires forall k :: 0 <= k < |t| ==> KeyBefore(x, t[k], order, orderBy)
    ensures StrictlyOrdered([x] + t, order, orderBy)
  {
    var r := [x] + t;
    assert forall j :: 0 < j < |r| ==> r[j] == t[j - 1];
  }

  /** Inserting a row whose key is new into an ordered run keeps it ordered. */
  lemma {:induction false} InsertOrdered(x: Country, t: seq<Country>, order: Order, orderBy: string)
    requires orderBy in FieldNames
    requires StrictlyOrdered(t, order, orderBy)
    requires forall z :: z in t ==> Lookup(z, orderBy) != Lookup(x, orderBy)
    ensures StrictlyOrdered(Insert(x, t, Comparator(order, orderBy)), order, orderBy)
  {
    if t == [] {
      return;
    }
    ValueLessTotal(x, t[0], orderBy);
    if Compare(x, t[0], order, orderBy) < 0 {
      assert KeyBefore(x, t[0], order, orderBy);
      forall j | 0 < j < |t|
        ensures KeyBefore(x, t[j], order, orderBy)
      {
        KeyBeforeTransitive(x, t[0], t[j], order, orderBy);
      }
      OrderedCons(x, t, order, orderBy);
    } else {
      assert KeyBefore(t[0], x, order, orderBy);
      var rest := Insert(x, t[1..], Comparator(order, orderBy));
      InsertPermutes(x, t[1..], Comparator(order, orderBy));
      StrictlyOrderedTail(t, order, orderBy);
      InsertOrdered(x, t[1..], order, orderBy);
      forall k | 0 <= k < |rest|
        ensures KeyBefore(t[0], rest[k], order, orderBy)
      {
        assert rest[k] in multiset(rest);
        if rest[k] != x {
          assert rest[k] in multiset(t[1..]);
          var j :| 0 <= j < |t[1..]| && t[1..][j] == rest[k];
          assert t[j + 1] == rest[k];
        }
      }
      OrderedCons(t[0], rest, order, orderBy);
    }
  }

  /** With distinct keys the sorted copy is strictly increasing (asc) or strictly decreasing (desc). */
  lemma {:induction false} SortCopyOrdered(s: seq<Country>, order: Order, orderBy: string)
    requires DistinctKeys(s, orderBy)
    ensures StrictlyOrdered(SortCopy(s, order, orderBy), order, orderBy)
  {
    if s != [] {
      assert DistinctKeys(s[1..], orderBy) by {
        forall i, j | 0 <= i < j < |s[1..]|
          ensures Lookup(s[1..][i], orderBy) != Lookup(s[1..][j], orderBy)
        {
          assert s[1..][i] == s[i + 1] && s[1..][j] == s[j + 1];
        }
      }
      SortCopyOrdered(s[1..], order, orderBy);
      var t := SortCopy(s[1..], order, orderBy);
      SortByPermutes(s[1..], Comparator(order, orderBy));
      forall z | z in t
        ensures Lookup(z, orderBy) != Lookup(s[0], orderBy)
      {
        assert z in multiset(t);
        assert z in multiset(s[1..]);
        var j :| 0 <= j < |s[1..]| && s[1..][j] == z;
        assert s[j + 1] == z;
      }
      InsertOrdered(s[0], t, order, orderBy);
    }
  }

  /** The sorted copy is one of the outcomes `Array.prototype.sort` may produce. */
  lemma SortCopyAdmissible(s: seq<Country>, order: Order, orderBy: string)
    ensures AdmissibleSort(s, SortCopy(s, order, orderBy), order, orderBy)
  {
    SortByPermutes(s, Comparator(order, orderBy));
    if DistinctKeys(s, orderBy) {
      SortCopyOrdered(s, order, orderBy);
    }
  }

  lemma StrictlyOrderedTail(t: seq<Country>, order: Order, orderBy: string)
    requires t != [] && StrictlyOrdered(t, order, orderBy)
    ensures StrictlyOrdered(t[1..], order, orderBy)
  {
    forall i, j | 0 <= i < j < |t[1..]|
      ensures KeyBefore(t[1..][i], t[1..][j], order, orderBy)
    {
      assert t[1..][i] == t[i + 1] && t[1..][j] == t[j + 1];
    }
  }

  /** Two strictly ordered permutations of one multiset of rows start with the same row. */
  lemma OrderedPermutationHead(a: seq<Country>, b: seq<Country>, order: Order, orderBy: string)
    requires a != [] && multiset(a) == multiset(b)
    requires StrictlyOrdered(a, order, orderBy) && StrictlyOrdered(b, order, orderBy)
    ensures b != [] && a[0] == b[0]
  {
    assert a[0] in multiset(b);
    var k :| 0 <= k < |b| && b[k] == a[0];
    assert b[0] in multiset(a);
    var m :| 0 <= m < |a| && a[m] == b[0];
    if k != 0 {
      KeyBeforeAsymmetric(b[0], a[0], order, orderBy);
      assert false;
    }
  }

  /** Two strictly ordered permutations of one multiset of rows are the same sequence. */
  lemma {:induction false} OrderedPermutationUnique(a: seq<Country>, b: seq<Country>, order: Order, orderBy: string)
    requires multiset(a) == multiset(b)
    requires StrictlyOrdered(a, order, orderBy) && StrictlyOrdered(b, order, orderBy)
    ensures a == b
  {
    if a == [] {
      assert |b| == |multiset(b)| == 0;
    } else {
      OrderedPermutationHead(a, b, order, orderBy);
      assert a == [a[0]] + a[1..] && b == [b[0]] + b[1..];
      assert multiset(a[1..]) == multiset(b[1..]) by {
        assert multiset(a[1..]) == multiset(a) - multiset{a[0]};
        assert multiset(b[1..]) == multiset(b) - multiset{b[0]};
      }
      StrictlyOrderedTail(a, order, orderBy);
      StrictlyOrderedTail(b, order, orderBy);
      OrderedPermutationUnique(a[1..], b[1..], order, orderBy);
    }
  }

  /**
    When the keys are distinct, every permutation strictly ordered by key is
    the sorted copy, so all engines that compare only different slots agree
    whenever the keys are distinct.
   */
  lemma AdmissibleSortUnique(s: seq<Country>, r: seq<Country>, order: Order, orderBy: string)
    requires DistinctKeys(s, orderBy)
    requires AdmissibleSort(s, r, order, orderBy)
    ensures r == SortCopy(s, order, orderBy)
  {
    SortCopyOrdered(s, order, orderBy);
    SortByPermutes(s, Comparator(order, orderBy));
    OrderedPermutationUnique(r, SortCopy(s, order, orderBy), order, orderBy);
  }

  /** `Array.prototype.slice`: a negative index counts from the end; both indices clamp to `[0, len]`. */
  function SliceIndex(rel: int, len: nat): (k: nat)
    ensures k <= len
    ensures 0 <= rel ==> k == if rel < len then rel else len
    ensures rel < 0 && -rel <= len ==> k + -rel == len
    ensures rel + len < 0 ==> k == 0
  {
    if rel < 0 then (if len + rel < 0 then 0 else len + rel)
    else if rel < len then rel
    else len
  }

  /** `s.slice(start, end)`: the elements from the clamped start up to the clamped end, if any. */
  function Slice<T>(s: seq<T>, start: int, end: int): (r: seq<T>)
    ensures |r| == if SliceIndex(start, |s|) < SliceIndex(end, |s|)
                   then SliceIndex(end, |s|) - SliceIndex(start, |s|) else 0
    ensures forall k :: 0 <= k < |r| ==> r[k] == s[SliceIndex(start, |s|) + k]
  {
    var from, to := SliceIndex(start, |s|), SliceIndex(end, |s|);
    if from < to then s[from..to] else []
  }

  /** The rows shown for page `page` of `rowsPerPage` rows. */
  function VisibleWindow(sorted: seq<Country>, page: int, rowsPerPage: int): (r: seq<Country>)
    ensures |r| <= |sorted|
    ensures forall k :: 0 <= k < |r| ==> r[k] in sorted
  {
    Slice(sorted, page * rowsPerPage, page * rowsPerPage + rowsPerPage)
  }

  /** Index of the first row of page `page`. */
  function PageStart(page: nat, rowsPerPage: nat): nat
  {
    page * rowsPerPage
  }

  /** A slice of `size` elements from a non-negative `start`, clamped to the end. */
  lemma SliceWindow<T>(s: seq<T>, start: nat, size: nat)
    ensures var r := Slice(s, start, start + size);
            && |r| <= size
            && (start >= |s| ==> r == [])
            && (start < |s| ==> r == s[start..if start + size < |s| then start + size else |s|])
            && (forall k :: 0 <= k < |r| ==> start + k < |s| && r[k] == s[start + k])
  {
  }

  /**
    For a non-negative page and size, the window is the run of the sorted rows
    from `page * rowsPerPage` up to `min(len, page * rowsPerPage + rowsPerPage)`;
    it never holds more than `rowsPerPage` rows and is empty past the end.
   */
  lemma VisibleWindowSpec(sorted: seq<Country>, page: nat, rowsPerPage: nat)
    ensures var start := PageStart(page, rowsPerPage);
            var r := VisibleWindow(sorted, page, rowsPerPage);
            && |r| <= rowsPerPage
            && (start >= |sorted| ==> r == [])
            && (start < |sorted| ==>
                  r == sorted[start..if start + rowsPerPage < |sorted| then start + rowsPerPage else |sorted|])
            && (forall k :: 0 <= k < |r| ==> start + k < |sorted| && r[k] == sorted[start + k])
  {
    SliceWindow(sorted, PageStart(page, rowsPerPage), rowsPerPage);
  }

  /** Every row of the sorted list is shown on page `i / rowsPerPage`, at position `i % rowsPerPage`. */
  lemma RowOnItsPage(sorted: seq<Country>, rowsPerPage: nat, i: nat)
    requires 0 < rowsPerPage
    requires i < |sorted|
    ensures var w := VisibleWindow(sorted, i / rowsPerPage, rowsPerPage);
            i % rowsPerPage < |w| && w[i % rowsPerPage] == sorted[i]
  {
    var page := i / rowsPerPage;
    assert PageStart(page, rowsPerPage) + i % rowsPerPage == i;
    VisibleWindowSpec(sorted, page, rowsPerPage);
  }

  /** The navigation target of a row click. */
  function RowPath(c: Country): (p: string)
    ensures |p| == |CountriesPrefix| + |c.iso3|
    ensures p[..|CountriesPrefix|] == CountriesPrefix
    ensures p[|CountriesPrefix|..] == c.iso3
  {
    CountriesPrefix + c.iso3
  }

  /** The inverse of `RowPath`: the code after the `/countries/` prefix, if the path has that prefix. */
  function PathCode(path: string): (r: Option<string>)
    ensures r.Some? <==> |CountriesPrefix| <= |path| && path[..|CountriesPrefix|] == CountriesPrefix
    ensures r.Some? ==> CountriesPrefix + r.value == path
  {
    if |CountriesPrefix| <= |path| && path[..|CountriesPrefix|] == CountriesPrefix
    then
      assert path == path[..|CountriesPrefix|] + path[|CountriesPrefix|..];
      Some(path[|CountriesPrefix|..])
    else None
  }

  /**
    The click path loses nothing: the row's code is recovered from it, so rows
    with different codes navigate to different paths.
   */
  lemma RowPathRoundTrip(a: Country, b: Country)
    ensures PathCode(RowPath(a)) == Some(a.iso3)
    ensures RowPath(a) == RowPath(b) <==> a.iso3 == b.iso3
  {
    if RowPath(a) == RowPath(b) {
      assert a.iso3 == RowPath(a)[|CountriesPrefix|..] == RowPath(b)[|CountriesPrefix|..] == b.iso3;
    }
  }

  /** The header for `col` shows as active exactly when it is the sort key. */
  function HeaderActive(orderBy: string, col: string): (active: bool)
  {
    orderBy == col
  }

  /** Headers other than the active one show the ascending arrow. */
  function HeaderDirection(orderBy: string, order: Order, col: string): (d: Order)
    ensures HeaderActive(orderBy, col) ==> d == order
    ensures d == Desc ==> HeaderActive(orderBy, col) && order == Desc
  {
    if orderBy == col then order else Asc
  }

  /**
    At most one header shows as active, and one does exactly when the sort key
    is a header label.
   */
  lemma ActiveHeader(orderBy: string)
    ensures forall i, j :: 0 <= i < j < |Headers| ==> !(HeaderActive(orderBy, Headers[i]) && HeaderActive(orderBy, Headers[j]))
    ensures (exists i :: 0 <= i < |Headers| && HeaderActive(orderBy, Headers[i])) <==> orderBy in Headers
  {
  }

  /** Only the headers `id`, `iso3` and `emoji` name a field; no header names the initial key `name`. */
  lemma HeaderKeys()
    ensures forall col :: col in Headers ==> (col in FieldNames <==> col == "id" || col == "iso3" || col == "emoji")
    ensures forall col :: col in Headers ==> !HeaderActive("name", col)
  {
  }

  /**
    The sort state after a click on the header `property`: the active column
    clicked while ascending turns descending; every other click sorts
    ascending by `property`.
   */
  function NextSort(order: Order, orderBy: string, property: string): (r: (Order, string))
    ensures r.1 == property
    ensures r.0 == Desc <==> orderBy == property && order == Asc
  {
    if orderBy == property && order == Asc then (Desc, property) else (Asc, property)
  }

  /**
    After one click on a column, further clicks on it alternate between
    descending and ascending, and the clicked header is the one shown active
    with the new direction.
   */
  lemma NextSortAlternates(order: Order, orderBy: string, property: string)
    ensures var once := NextSort(order, orderBy, property);
            var twice := NextSort(once.0, once.1, property);
            && twice.0 != once.0
            && NextSort(twice.0, twice.1, property) == once
            && HeaderActive(once.1, property)
            && HeaderDirection(once.1, once.0, property) == once.0
  {
  }

  /** The page's state: the loaded rows and the sort and paging controls. */
  class TableState {
    var countries: seq<Country>
    var order: Order
    var orderBy: string
    var page: int
    var rowsPerPage: int

    constructor ()
      ensures countries == [] && order == Asc && orderBy == "name"
      ensures page == 0 && rowsPerPage == InitialRowsPerPage
    {
      countries := [];
      order := Asc;
      orderBy := "name";
      page := 0;
      rowsPerPage := InitialRowsPerPage;
    }

    /** Stores the rows of a successful listing response. */
    method SetCountries(data: seq<Country>)
      modifies this
      ensures countries == data
      ensures order == old(order) && orderBy == old(orderBy)
      ensures page == old(page) && rowsPerPage == old(rowsPerPage)
    {
      countries := data;
    }

    /** A click on the header `property`; the page index is left alone. */
    method HandleRequestSort(property: string)
      modifies this
      ensures (order, orderBy) == NextSort(old(order), old(orderBy), property)
      ensures countries == old(countries) && page == old(page) && rowsPerPage == old(rowsPerPage)
    {
      var isAsc := orderBy == property && order == Asc;
      order := if isAsc then Desc else Asc;
      orderBy := property;
    }

    method HandleChangePage(newPage: int)
      modifies this
      ensures page == newPage
      ensures countries == old(countries) && order == old(order) && orderBy == old(orderBy)
      ensures rowsPerPage == old(rowsPerPage)
    {
      page := newPage;
    }

    /** A new page size, already parsed to an integer; the page index goes back to 0. */
    method HandleChangeRowsPerPage(newSize: int)
      modifies this
      ensures rowsPerPage == newSize && page == 0
      ensures countries == old(countries) && order == old(order) && orderBy == old(orderBy)
    {
      rowsPerPage := newSize;
      page := 0;
    }

    /** The sorted copy the page renders from; `countries` itself is never reordered. */
    function SortedCountries(): (r: seq<Country>)
      reads this
      ensures AdmissibleSort(countries, r, order, orderBy)
    {
      SortCopyAdmissible(countries, order, orderBy);
      SortCopy(countries, order, orderBy)
    }

    function VisibleCountries(): (r: seq<Country>)
      reads this
      ensures 0 <= page && 0 <= rowsPerPage ==> |r| <= rowsPerPage
      ensures 0 <= page && 0 <= rowsPerPage && page * rowsPerPage >= |countries| ==> r == []
    {
      var sorted := SortedCountries();
      assert |sorted| == |multiset(sorted)| == |countries|;
      if 0 <= page && 0 <= rowsPerPage then
        VisibleWindowSpec(sorted, page, rowsPerPage);
        VisibleWindow(sorted, page, rowsPerPage)
      else
        VisibleWindow(sorted, page, rowsPerPage)
    }

    /** `[...countries].sort(...)`: copies the rows into a fresh array and sorts the copy in place. */
    method SortCountriesCopy() returns (sorted: array<Country>)
      ensures fresh(sorted)
      ensures sorted[..] == SortedCountries()
    {
      var rows := countries;
      sorted := new Country[|rows|](k requires 0 <= k < |rows| => rows[k]);
      assert sorted[..] == rows;
      SortInPlace(sorted, Comparator(order, orderBy));
    }

    /** The path a click on `row` navigates to. */
    method HandleRowClick(row: Country) returns (path: string)
      ensures path == RowPath(row)
    {
      path := RowPath(row);
    }
  }
}

/**
 * The rows of the `submissions` table and the pure computations the table
 * component performs on them: the name filter, the column comparator with the
 * sort it drives, and the removal of a deleted row.
 */
module Submissions {
  import Seqs
  import Text

  /** One row of the `submissions` table. */
  datatype Submission = Submission(
    id: string,        // uuid
    nama: string,
    absen: int,        // int4
    score: int,        // int4
    createdAt: string, // timestamptz, compared as its text
    testType: string
  )

  /** The filter record; its only key is `nama`. */
  datatype Filters = Filters(nama: string)

  /** `keyof Filters`. */
  datatype FilterField = FilterNama

  /** `keyof Submission`: the columns a sort can be keyed on. */
  datatype Field = Id | Nama | Absen | Score | CreatedAt | TestType

  /** The value a row holds in one column. */
  datatype Key = NumKey(n: int) | StrKey(s: string)

  function KeyOf(r: Submission, f: Field): Key
  {
    match f
    case Id => StrKey(r.id)
    case Nama => StrKey(r.nama)
    case Absen => NumKey(r.absen)
    case Score => NumKey(r.score)
    case CreatedAt => StrKey(r.createdAt)
    case TestType => StrKey(r.testType)
  }

  // ---------------------------------------------------------------------------
  // Filters

  function FilterValue(filters: Filters, field: FilterField): string
  {
    match field
    case FilterNama => filters.nama
  }

  /** `{ ...prevFilters, [field]: value }`. */
  function WithFilter(filters: Filters, field: FilterField, value: string): (r: Filters)
    ensures FilterValue(r, field) == value
  {
    match field
    case FilterNama => filters.(nama := value)
  }

  /** The callback given to `data.filter`: an empty name filter keeps every row,
      otherwise the lower-cased name must contain the lower-cased filter text. */
  predicate Matches(filters: Filters, row: Submission)
  {
    if filters.nama != "" then Text.Includes(Text.Lower(row.nama), Text.Lower(filters.nama))
    else true
  }

  function Matcher(filters: Filters): Submission -> bool
  {
    (row: Submission) => Matches(filters, row)
  }

  /** The rows `filterData` shows: the rows of `data` that match, in their order. */
  function Filtered(data: seq<Submission>, filters: Filters): (r: seq<Submission>)
    ensures Seqs.IsSubsequence(r, data)
    ensures forall x :: multiset(r)[x] == if Matches(filters, x) then multiset(data)[x] else 0
    ensures filters.nama != "" ==>
              forall i :: 0 <= i < |r| ==>
                Text.HasSubstring(Text.Lower(r[i].nama), Text.Lower(filters.nama))
    ensures filters.nama == "" ==> r == data
  {
    var r := Seqs.Filter(Matcher(filters), data);
    Seqs.FilterIsSubsequence(Matcher(filters), data);
    assert forall x :: multiset(r)[x] == if Matches(filters, x) then multiset(data)[x] else 0 by {
      forall x ensures multiset(r)[x] == if Matches(filters, x) then multiset(data)[x] else 0 {
        Seqs.FilterCount(Matcher(filters), data, x);
      }
    }
    assert filters.nama != "" ==>
             forall i :: 0 <= i < |r| ==>
               Text.HasSubstring(Text.Lower(r[i].nama), Text.Lower(filters.nama)) by {
      forall i | 0 <= i < |r|
        ensures filters.nama != "" ==>
                  Text.HasSubstring(Text.Lower(r[i].nama), Text.Lower(filters.nama))
      {
        Text.IncludesIff(Text.Lower(r[i].nama), Text.Lower(filters.nama));
      }
    }
    assert filters.nama == "" ==> r == data by {
      if filters.nama == "" {
        Seqs.FilterKeepsAll(Matcher(filters), data);
      }
    }
    r
  }

  /** The filter ignores the case of the filter text: two texts that lower-case
      alike select the same rows. */
  lemma FilteredIgnoresCase(data: seq<Submission>, a: string, b: string)
    requires Text.Lower(a) == Text.Lower(b)
    ensures Filtered(data, Filters(a)) == Filtered(data, Filters(b))
  {
    assert |a| == |Text.Lower(a)| == |Text.Lower(b)| == |b|;
    Seqs.FilterExtensional(Matcher(Filters(a)), Matcher(Filters(b)), data);
  }

  // ---------------------------------------------------------------------------
  // Deletion

  function NotId(id: string): Submission -> bool
  {
    (row: Submission) => row.id != id
  }

  /** `list.filter(item => item.id !== id)`. */
  function WithoutId(s: seq<Submission>, id: string): (r: seq<Submission>)
    ensures Seqs.IsSubsequence(r, s)
    ensures forall x :: multiset(r)[x] == if x.id == id then 0 else multiset(s)[x]
    ensures forall i :: 0 <= i < |r| ==> r[i].id != id
    ensures (forall i :: 0 <= i < |s| ==> s[i].id != id) ==> r == s
  {
    var r := Seqs.Filter(NotId(id), s);
    Seqs.FilterIsSubsequence(NotId(id), s);
    assert forall x :: multiset(r)[x] == if x.id == id then 0 else multiset(s)[x] by {
      forall x ensures multiset(r)[x] == if x.id == id then 0 else multiset(s)[x] {
        Seqs.FilterCount(NotId(id), s, x);
      }
    }
    assert (forall i :: 0 <= i < |s| ==> s[i].id != id) ==> r == s by {
      if forall i :: 0 <= i < |s| ==> s[i].id != id {
        Seqs.FilterKeepsAll(NotId(id), s);
      }
    }
    r
  }

  /** Removing a row from a display that holds a subset of the full list
      keeps it a subset of the full list with that row removed. */
  lemma WithoutIdKeepsInclusion(view: seq<Submission>, data: seq<Submission>, id: string)
    requires multiset(view) <= multiset(data)
    ensures multiset(WithoutId(view, id)) <= multiset(WithoutId(data, id))
  {
    var v, d := WithoutId(view, id), WithoutId(data, id);
    forall x ensures multiset(v)[x] <= multiset(d)[x] {
      assert multiset(view)[x] <= multiset(data)[x];
    }
  }

  /** Deleting commutes with filtering: removing a row from a display that
      shows the filtered rows leaves it showing the filtered rows of the full
      list with that row removed. */
  lemma WithoutIdCommutesWithFilter(view: seq<Submission>, data: seq<Submission>,
                                    filters: Filters, id: string)
    requires multiset(view) == multiset(Filtered(data, filters))
    ensures multiset(WithoutId(view, id)) == multiset(Filtered(WithoutId(data, id), filters))
  {
    var v, d := WithoutId(view, id), WithoutId(data, id);
    forall x ensures multiset(v)[x] == multiset(Filtered(d, filters))[x] {
      assert multiset(view)[x] == multiset(Filtered(data, filters))[x];
    }
  }

  // ---------------------------------------------------------------------------
  // Sorting

  /** The comparator `a < b ? -1 : a > b ? 1 : 0`. */
  function Order(less: bool, greater: bool): int
  {
    if less then -1 else if greater then 1 else 0
  }

  /** The comparator `handleSort` passes to `sort`, applied to column `f`:
      numbers by value, strings by JavaScript's string `<`. */
  function Compare(a: Submission, b: Submission, f: Field): int
  {
    match f
    case Id => Order(Text.StrLess(a.id, b.id), Text.StrLess(b.id, a.id))
    case Nama => Order(Text.StrLess(a.nama, b.nama), Text.StrLess(b.nama, a.nama))
    case Absen => Order(a.absen < b.absen, a.absen > b.absen)
    case Score => Order(a.score < b.score, a.score > b.score)
    case CreatedAt => Order(Text.StrLess(a.createdAt, b.createdAt), Text.StrLess(b.createdAt, a.createdAt))
    case TestType => Order(Text.StrLess(a.testType, b.testType), Text.StrLess(b.testType, a.testType))
  }

  /** On strings the comparator returns 0 only for equal strings and is
      antisymmetric. */
  lemma StrOrder(x: string, y: string)
    ensures Order(Text.StrLess(x, y), Text.StrLess(y, x)) == 0 <==> x == y
    ensures Order(Text.StrLess(y, x), Text.StrLess(x, y)) == -Order(Text.StrLess(x, y), Text.StrLess(y, x))
  {
    Text.StrLessIrreflexive(x);
    Text.StrLessTotal(x, y);
    Text.StrLessAsymmetric(x, y);
  }

  /** On strings the comparator's "not after" is transitive. */
  lemma StrOrderTransitive(x: string, y: string, z: string)
    requires Order(Text.StrLess(x, y), Text.StrLess(y, x)) <= 0
    requires Order(Text.StrLess(y, z), Text.StrLess(z, y)) <= 0
    ensures Order(Text.StrLess(x, z), Text.StrLess(z, x)) <= 0
  {
    Text.StrLessTotal(x, y);
    Text.StrLessTotal(y, z);
    Text.StrLessAsymmetric(x, z);
    Text.StrLessTransitive(x, y, z);
  }

  /** The comparator reports "equal" exactly when the two rows hold the same
      value in the column. */
  lemma CompareZero(a: Submission, b: Submission, f: Field)
    ensures Compare(a, b, f) == 0 <==> KeyOf(a, f) == KeyOf(b, f)
  {
    match f
    case Id => StrOrder(a.id, b.id);
    case Nama => StrOrder(a.nama, b.nama);
    case Absen =>
    case Score =>
    case CreatedAt => StrOrder(a.createdAt, b.createdAt);
    case TestType => StrOrder(a.testType, b.testType);
  }

  /** The comparator is antisymmetric. */
  lemma CompareFlip(a: Submission, b: Submission, f: Field)
    ensures Compare(b, a, f) == -Compare(a, b, f)
  {
    match f
    case Id => StrOrder(a.id, b.id);
    case Nama => StrOrder(a.nama, b.nama);
    case Absen =>
    case Score =>
    case CreatedAt => StrOrder(a.createdAt, b.createdAt);
    case TestType => StrOrder(a.testType, b.testType);
  }

  /** "Not after" is transitive. */
  lemma CompareTransitive(a: Submission, b: Submission, c: Submission, f: Field)
    requires Compare(a, b, f) <= 0 && Compare(b, c, f) <= 0
    ensures Compare(a, c, f) <= 0
  {
    match f
    case Id => StrOrderTransitive(a.id, b.id, c.id);
    case Nama => StrOrderTransitive(a.nama, b.nama, c.nama);
    case Absen =>
    case Score =>
    case CreatedAt => StrOrderTransitive(a.createdAt, b.createdAt, c.createdAt);
    case TestType => StrOrderTransitive(a.testType, b.testType, c.testType);
  }

  /** Non-decreasing in column `f` under the comparator. */
  ghost predicate Sorted(s: seq<Submission>, f: Field)
  {
    forall i, j :: 0 <= i < j < |s| ==> Compare(s[i], s[j], f) <= 0
  }

  /** Inserts `x` before the first row it does not come after. */
  function Insert(x: Submission, s: seq<Submission>, f: Field): (r: seq<Submission>)
    ensures multiset(r) == multiset(s) + multiset{x}
  {
    if |s| == 0 then [x]
    else if Compare(x, s[0], f) <= 0 then [x] + s
    else
      assert s == [s[0]] + s[1..];
      [s[0]] + Insert(x, s[1..], f)
  }

  /** `h` comes after no row of `t`. */
  ghost predicate NotAfterAny(h: Submission, t: seq<Submission>, f: Field)
  {
    forall j :: 0 <= j < |t| ==> Compare(h, t[j], f) <= 0
  }

  lemma SortedCons(h: Submission, t: seq<Submission>, f: Field)
    requires Sorted(t, f) && NotAfterAny(h, t, f)
    ensures Sorted([h] + t, f)
  {
    var r := [h] + t;
    forall i, j | 0 <= i < j < |r| ensures Compare(r[i], r[j], f) <= 0 {
      assert r[j] == t[j - 1];
      if i > 0 {
        assert r[i] == t[i - 1];
      }
    }
  }

  /** A row that comes after no row of `s` and not after `x` comes after no
      row of `Insert(x, s, f)`. */
  lemma NotAfterInsert(h: Submission, x: Submission, s: seq<Submission>, f: Field)
    requires NotAfterAny(h, s, f) && Compare(h, x, f) <= 0
    ensures NotAfterAny(h, Insert(x, s, f), f)
  {
    var t := Insert(x, s, f);
    forall j | 0 <= j < |t| ensures Compare(h, t[j], f) <= 0 {
      assert t[j] in multiset(t);
      if t[j] != x {
        assert t[j] in multiset(s);
        var k :| 0 <= k < |s| && s[k] == t[j];
      }
    }
  }

  lemma {:induction false} InsertSorted(x: Submission, s: seq<Submission>, f: Field)
    requires Sorted(s, f)
    ensures Sorted(Insert(x, s, f), f)
  {
    if |s| == 0 {
    } else if Compare(x, s[0], f) <= 0 {
      forall j | 0 <= j < |s| ensures Compare(x, s[j], f) <= 0 {
        if j > 0 {
          CompareTransitive(x, s[0], s[j], f);
        }
      }
      SortedCons(x, s, f);
    } else {
      CompareFlip(x, s[0], f);
      InsertSorted(x, s[1..], f);
      NotAfterInsert(s[0], x, s[1..], f);
      SortedCons(s[0], Insert(x, s[1..], f), f);
    }
  }

  /** `[...filteredData].sort(comparator)`: a stable sort by column `f`. The
      result is a non-decreasing permutation of the input. */
  function SortBy(s: seq<Submission>, f: Field): (r: seq<Submission>)
    ensures multiset(r) == multiset(s)
    ensures Sorted(r, f)
  {
    if |s| == 0 then []
    else
      var t := SortBy(s[1..], f);
      InsertSorted(s[0], t, f);
      assert s == [s[0]] + s[1..];
      Insert(s[0], t, f)
  }

  function HasKey(f: Field, k: Key): Submission -> bool
  {
    (row: Submission) => KeyOf(row, f) == k
  }

  lemma {:induction false} InsertStable(x: Submission, s: seq<Submission>, f: Field, k: Key)
    ensures Seqs.Filter(HasKey(f, k), Insert(x, s, f)) == Seqs.Filter(HasKey(f, k), [x] + s)
  {
    var p := HasKey(f, k);
    if |s| > 0 && Compare(x, s[0], f) > 0 {
      CompareZero(x, s[0], f);
      InsertStable(x, s[1..], f, k);
      Seqs.FilterAppend(p, [s[0]], Insert(x, s[1..], f));
      Seqs.FilterAppend(p, [x], s[1..]);
      Seqs.FilterAppend(p, [x], s);
      Seqs.FilterAppend(p, [s[0]], s[1..]);
      assert s == [s[0]] + s[1..];
    }
  }

  /** The sort is stable: the rows holding any one value in the column keep
      their relative order. */
  lemma {:induction false} SortByStable(s: seq<Submission>, f: Field, k: Key)
    ensures Seqs.Filter(HasKey(f, k), SortBy(s, f)) == Seqs.Filter(HasKey(f, k), s)
  {
    if |s| > 0 {
      var p := HasKey(f, k);
      var t := SortBy(s[1..], f);
      SortByStable(s[1..], f, k);
      InsertStable(s[0], t, f, k);
      Seqs.FilterAppend(p, [s[0]], t);
      Seqs.FilterAppend(p, [s[0]], s[1..]);
      assert s == [s[0]] + s[1..];
    }
  }

  /** A list already in order is left as it is, so sorting twice by the same
      column gives the same list as sorting once. */
  lemma {:induction false} SortBySorted(s: seq<Submission>, f: Field)
    requires Sorted(s, f)
    ensures SortBy(s, f) == s
  {
    if |s| > 0 {
      SortBySorted(s[1..], f);
      assert s == [s[0]] + s[1..];
    }
  }
}

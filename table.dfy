/**
 * The `SubmissionsTable` component as a state machine: its four pieces of
 * state and the handlers that replace them. Each handler runs as one atomic
 * update; the outcome of the remote call it depends on is a parameter.
 */
module Table {
  import Seqs
  import opened Submissions

  datatype Option<T> = None | Some(value: T)

  /** What the bulk read returned: the `{ data, error }` response, or an
      exception thrown while awaiting it. */
  datatype FetchResult =
    | FetchResponse(rows: Option<seq<Submission>>, error: Option<string>)
    | FetchThrew

  /** What the delete-by-id call returned: the `{ error }` response, or an
      exception thrown while awaiting it. */
  datatype DeleteResult =
    | DeleteResponse(error: Option<string>)
    | DeleteThrew

  class SubmissionsTable {
    var data: seq<Submission>
    var filteredData: seq<Submission>
    var filters: Filters
    var loading: bool

    /** Every displayed row is one of the loaded rows (as many times at most). */
    ghost predicate Valid()
      reads this
    {
      multiset(filteredData) <= multiset(data)
    }

    /** The display holds exactly the loaded rows that match the current
        filter, in some order. */
    ghost predicate ShowsFilter()
      reads this
    {
      multiset(filteredData) == multiset(Filtered(data, filters))
    }

    /** The initial state of the `useState` hooks. */
    constructor ()
      ensures data == [] && filteredData == [] && filters == Filters("") && loading
      ensures Valid() && ShowsFilter()
    {
      data := [];
      filteredData := [];
      filters := Filters("");
      loading := true;
    }

    /** `fetchData` once the read has settled: on a response without error both
        lists become the fetched rows (none when the response holds no rows);
        on an error response or an exception they are left as they were.
        Loading ends on every path. */
    method FetchData(result: FetchResult)
      requires Valid()
      modifies this
      ensures Valid()
      ensures !loading && filters == old(filters)
      ensures result.FetchResponse? && result.error.None? ==>
                data == (if result.rows.Some? then result.rows.value else []) &&
                filteredData == data
      ensures !(result.FetchResponse? && result.error.None?) ==>
                data == old(data) && filteredData == old(filteredData)
      ensures old(ShowsFilter()) && filters.nama == "" ==> ShowsFilter()
    {
      match result
      case FetchThrew =>
        loading := false;
      case FetchResponse(rows, error) =>
        if error.Some? {
          loading := false;
          return;
        }
        var fetched := if rows.Some? then rows.value else [];
        data := fetched;
        filteredData := fetched;
        loading := false;
    }

    /** `handleFilterChange`: only `field` of the filter record changes, and the
        display is recomputed from the full list with the new record. */
    method HandleFilterChange(field: FilterField, value: string)
      requires Valid()
      modifies this
      ensures filters == WithFilter(old(filters), field, value)
      ensures FilterValue(filters, field) == value
      ensures filteredData == Filtered(data, filters)
      ensures data == old(data) && loading == old(loading)
      ensures Valid() && ShowsFilter()
    {
      var newFilters := WithFilter(filters, field, value);
      FilterData(newFilters);
      filters := newFilters;
    }

    /** `filterData`: the display becomes the rows of the full list that match
        `f`, in their original order; whatever the display held before,
        including an earlier sort, is discarded. */
    method FilterData(f: Filters)
      requires Valid()
      modifies this`filteredData
      ensures filteredData == Filtered(data, f)
      ensures Seqs.IsSubsequence(filteredData, data)
      ensures f.nama == "" ==> filteredData == data
      ensures Valid()
    {
      filteredData := Filtered(data, f);
      assert forall x :: multiset(filteredData)[x] <= multiset(data)[x];
    }

    /** `handleSort`: the display is reordered by `field`, non-decreasing under
        the comparator; the same rows stay, and the full list is untouched. */
    method HandleSort(field: Field)
      requires Valid()
      modifies this`filteredData
      ensures filteredData == SortBy(old(filteredData), field)
      ensures Sorted(filteredData, field)
      ensures multiset(filteredData) == multiset(old(filteredData))
      ensures Valid()
      ensures old(ShowsFilter()) ==> ShowsFilter()
    {
      filteredData := SortBy(filteredData, field);
    }

    /** `handleDelete` once the remote delete has settled: when it succeeded,
        every row with `id` leaves both lists and the other rows keep their
        order; when it returned an error or threw, nothing changes. */
    method HandleDelete(id: string, result: DeleteResult)
      requires Valid()
      modifies this`data, this`filteredData
      ensures result == DeleteResponse(None) ==>
                data == WithoutId(old(data), id) &&
                filteredData == WithoutId(old(filteredData), id)
      ensures result != DeleteResponse(None) ==>
                data == old(data) && filteredData == old(filteredData)
      ensures Valid()
      ensures old(ShowsFilter()) ==> ShowsFilter()
    {
      match result
      case DeleteThrew =>
      case DeleteResponse(error) =>
        if error.Some? {
          return;
        }
        WithoutIdKeepsInclusion(filteredData, data, id);
        if ShowsFilter() {
          WithoutIdCommutesWithFilter(filteredData, data, filters, id);
        }
        data := WithoutId(data, id);
        filteredData := WithoutId(filteredData, id);
    }
  }
}

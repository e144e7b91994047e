/**
 * The state of the `App` component of src/App.tsx and its handlers. Each
 * `useState` variable is a field; each handler is a method that updates the
 * fields and then runs, in their declaration order, the effects whose
 * dependencies it changed, each as an explicit recompute step.
 */
module TableApp {
  import opened JsValues
  import opened OrderedMaps
  import opened Utils
  import opened Pipeline
  import JsSort

  class TableView {
    /** The parsed file: the loaded records, in file order. */
    var data: seq<Record>
    /** The records with every edit applied, by identity. */
    var editedRowData: RowMap
    /** The edited records the filter lets through. */
    var rowData: RowMap
    /** The visible records in display order. */
    var rows: seq<Row>
    var firstVisibleRow: int
    var orderKey: Option<string>
    var orderDirection: Direction
    var filter: FilterSpec
    var isDataLoaded: bool
    /** `x.localeCompare(y) <= 0`, for the sort. */
    const leLocale: (string, string) -> bool

    /**
     * Every derived field agrees with the fields it is derived from, as it
     * does once the effects have run after an event.
     */
    ghost predicate Valid()
      reads this
    {
      && JsSort.TotalPreorder(leLocale)
      && DistinctKeys(editedRowData)
      && DistinctKeys(filter)
      && (orderKey.None? ==> orderDirection == Unset)
      && rowData == FilterRows(editedRowData, filter)
      && rows == OrderRows(rowData, orderKey, orderDirection, leLocale)
    }

    /** The initial state: nothing loaded, no filter, no sort, scrolled to the top. */
    constructor (leLocale: (string, string) -> bool)
      requires JsSort.TotalPreorder(leLocale)
      ensures Valid()
      ensures this.leLocale == leLocale
      ensures data == [] && editedRowData == [] && rowData == [] && rows == []
      ensures firstVisibleRow == 0 && orderKey == None && orderDirection == Unset
      ensures filter == [] && !isDataLoaded
    {
      this.leLocale := leLocale;
      data, editedRowData, rowData, rows := [], [], [], [];
      firstVisibleRow := 0;
      orderKey, orderDirection := None, Unset;
      filter := [];
      isDataLoaded := false;
    }

    /** The effect that recomputes the visible rows when the edited rows or the filter change (src/App.tsx:71-87). */
    method FilterEffect()
      modifies this`rowData, this`firstVisibleRow
      ensures rowData == FilterRows(editedRowData, filter)
      ensures firstVisibleRow == if |filter| == 0 then old(firstVisibleRow) else 0
    {
      if |filter| == 0 {
        rowData := editedRowData;
        return;
      }
      rowData := FilterFold(editedRowData, filter);
      firstVisibleRow := 0;
    }

    /** The effect that reorders the rows when the sort or the visible rows change (src/App.tsx:90-106). */
    method OrderEffect()
      modifies this`rows, this`firstVisibleRow
      ensures rows == OrderRows(rowData, orderKey, orderDirection, leLocale)
      ensures firstVisibleRow == if orderKey.None? || orderDirection == Unset then old(firstVisibleRow) else 0
    {
      if orderKey.None? || orderDirection == Unset {
        rows := rowData;
        return;
      }
      rows := JsSort.Sort(rowData, Comparator(orderKey.value, orderDirection, leLocale));
      firstVisibleRow := 0;
    }

    /**
     * `handleFileLoaded` followed by the effect on the loaded data: the records
     * are keyed by identity, the edits and the filter are discarded and the
     * view returns to the top; the sort key and direction are kept.
     * `tokens[i]` is the uuid generated for record `i` if its id is falsy.
     */
    method Load(records: seq<Record>, tokens: seq<string>)
      requires Valid()
      requires |tokens| >= |records|
      modifies this`data, this`isDataLoaded, this`editedRowData, this`rowData, this`filter, this`rows, this`firstVisibleRow
      ensures Valid()
      ensures data == records && isDataLoaded
      ensures editedRowData == LoadRows(records, tokens)
      ensures filter == [] && rowData == editedRowData
      ensures orderKey == old(orderKey) && orderDirection == old(orderDirection)
      ensures rows == OrderRows(editedRowData, orderKey, orderDirection, leLocale)
      ensures firstVisibleRow == 0
    {
      var nextRowData := LoadRows(records, tokens);
      LoadRowsDistinctKeys(records, tokens);
      var key, dir := orderKey, orderDirection;
      ghost var nextRows := OrderRows(nextRowData, key, dir, leLocale);
      data, isDataLoaded := records, true;
      rowData, editedRowData, filter, firstVisibleRow := nextRowData, nextRowData, [], 0;
      FilterEffect();
      assert rowData == nextRowData && orderKey == key && orderDirection == dir;
      OrderEffect();
      assert rows == nextRows;
    }

    /**
     * `handleChangeRow`: the record at `id` becomes the old one
     * shallow-merged with `nextVal` (a new entry for an unknown `id`), then
     * the rows are filtered and ordered again; the view returns to the top
     * when a filter object or a sort is in effect.
     */
    method Edit(id: string, nextVal: Record)
      requires Valid()
      modifies this`editedRowData, this`rowData, this`rows, this`firstVisibleRow
      ensures Valid()
      ensures editedRowData == ApplyEdit(old(editedRowData), id, nextVal)
      ensures rowData == FilterRows(editedRowData, filter)
      ensures rows == OrderRows(rowData, orderKey, orderDirection, leLocale)
      ensures firstVisibleRow ==
        if |filter| == 0 && (orderKey.None? || orderDirection == Unset) then old(firstVisibleRow) else 0
    {
      ApplyEditDistinct(editedRowData, id, nextVal);
      editedRowData := ApplyEdit(editedRowData, id, nextVal);
      FilterEffect();
      OrderEffect();
    }

    /**
     * `onChangeFilter` once the debounce has fired: the
     * filter gets the new text for `key`, the rows are filtered and ordered
     * again and the view returns to the top.
     */
    method SetFilter(key: string, filterText: string)
      requires Valid()
      modifies this`filter, this`rowData, this`rows, this`firstVisibleRow
      ensures Valid()
      ensures filter == Put(old(filter), key, Some(filterText))
      ensures rowData == FilterRows(editedRowData, filter)
      ensures rows == OrderRows(rowData, orderKey, orderDirection, leLocale)
      ensures firstVisibleRow == 0
    {
      PutDistinct(filter, key, Some(filterText));
      filter := Put(filter, key, Some(filterText));
      FilterEffect();
      OrderEffect();
    }

    /** `handleOrderChange` followed by the effect on the order. */
    method ToggleOrder(nextOrderKey: string)
      requires Valid()
      modifies this`orderKey, this`orderDirection, this`rows, this`firstVisibleRow
      ensures Valid()
      ensures (orderKey, orderDirection) == HandleOrderChange(old(orderKey), old(orderDirection), nextOrderKey)
      ensures rows == OrderRows(rowData, orderKey, orderDirection, leLocale)
      ensures orderDirection == Unset ==> rows == rowData && firstVisibleRow == old(firstVisibleRow)
      ensures orderDirection != Unset ==> firstVisibleRow == 0
    {
      if orderKey == Some(nextOrderKey) {
        orderDirection := NextDirection(orderDirection);
      } else {
        orderKey := Some(nextOrderKey);
        orderDirection := Asc;
      }
      OrderEffect();
    }

    /** `onScroll`: only the first visible row changes. */
    method Scroll(scrollTop: real)
      requires Valid()
      modifies this`firstVisibleRow
      ensures Valid()
      ensures firstVisibleRow == FirstVisibleRow(scrollTop)
    {
      firstVisibleRow := FirstVisibleRow(scrollTop);
    }

    /** The rows rendered between the two spacers. */
    function RenderedRows(): (w: seq<Row>)
      reads this
      ensures |w| <= VisibleRows + 1
      ensures forall r :: r in w ==> r in rows
    {
      WindowSpec(rows, firstVisibleRow);
      Window(rows, firstVisibleRow)
    }

    /** The heights of the two spacer rows. */
    function Spacers(): (h: (int, int))
      reads this
      ensures h.1 >= 0
      ensures 0 <= firstVisibleRow <= |rows| ==> h.0 + ItemHeight * |RenderedRows()| + h.1 == ItemHeight * |rows|
    {
      HeightsSpec(rows, firstVisibleRow);
      (TopHeight(firstVisibleRow), BottomHeight(|rows|, firstVisibleRow))
    }

    /**
     * `isLoading`: in a consistent state, "Loading..." shows exactly when
     * records were loaded and the filter lets none of them through.
     */
    predicate Loading()
      reads this
      ensures Valid() ==> (Loading() <==> |data| > 0 && |rowData| == 0)
    {
      OrderPermutes(rowData, orderKey, orderDirection, leLocale);
      IsLoading(|rows|, |data|)
    }

    /**
     * Filtering and ordering never change an identity or a record: every
     * displayed `[id, record]` pair is an entry of the edited records.
     */
    lemma RowsComeFromEdited()
      requires Valid()
      ensures forall r :: r in rows ==> r in editedRowData
      ensures forall r :: r in rows ==> Lookup(editedRowData, r.0) == Some(r.1)
    {
      OrderPermutes(rowData, orderKey, orderDirection, leLocale);
      FilterRowsSpec(editedRowData, filter);
      forall r | r in rows ensures r in editedRowData && Lookup(editedRowData, r.0) == Some(r.1) {
        assert r in multiset(rows);
        assert r in rowData;
        var i :| 0 <= i < |editedRowData| && editedRowData[i] == r;
        LookupDistinct(editedRowData, i);
      }
    }
  }
}

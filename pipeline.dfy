/**
 * The pure derivations of src/App.tsx: keying the loaded records, merging
 * an edit, filtering the edited rows, the sort toggle and the sort, the
 * first visible row, the rendered window and its spacer heights, and the
 * loading flag.
 */
module Pipeline {
  import opened JsValues
  import opened OrderedMaps
  import opened Utils
  import JsSort

  /** Height in pixels of one rendered row (`itemHeight`). */
  const ItemHeight: int := 140
  /** Rows that fit in the scroll container (`visibleRows`). */
  const VisibleRows: int := 5

  /** One `[id, record]` entry of a row map. */
  type Row = (string, Record)
  /** A row map: record identity to record, in insertion order. */
  type RowMap = Entries<Record>

  // ---------------------------------------------------------------------
  // Load: the records folded into a row map by identity (src/App.tsx:55-60)
  // ---------------------------------------------------------------------

  /**
   * The identity a loaded record is stored under: its `id` when that is
   * truthy, otherwise the fresh token the uuid generator hands out for it.
   */
  function RowKey(rec: Record, token: string): string {
    var id := Field(rec, "id");
    if Truthy(id) then ToString(id) else token
  }

  /** The identity of each loaded record, in load order. */
  function LoadKeys(data: seq<Record>, tokens: seq<string>): seq<string>
    requires |tokens| >= |data|
  {
    seq(|data|, i requires 0 <= i < |data| => RowKey(data[i], tokens[i]))
  }

  /**
   * The row map built on load. `tokens[i]` is the uuid the generator would
   * return for record `i`; it is used only when that record's id is falsy.
   */
  function LoadRows(data: seq<Record>, tokens: seq<string>): RowMap
    requires |tokens| >= |data|
  {
    if data == [] then []
    else
      var n := |data| - 1;
      Put(LoadRows(data[..n], tokens), RowKey(data[n], tokens[n]), data[n])
  }

  /** `ks` without its later repetitions: each key where it first occurs. */
  function FirstOccurrences(ks: seq<string>): (r: seq<string>)
    ensures forall k :: k in r <==> k in ks
  {
    if ks == [] then []
    else
      var p := FirstOccurrences(ks[..|ks| - 1]);
      assert ks == ks[..|ks| - 1] + [ks[|ks| - 1]];
      if ks[|ks| - 1] in p then p else p + [ks[|ks| - 1]]
  }

  /** The index of the last record whose identity is `k`. */
  predicate LastWithKey(ks: seq<string>, j: int) {
    0 <= j < |ks| && forall j' :: j < j' < |ks| ==> ks[j'] != ks[j]
  }

  /** Load stores each identity once. */
  lemma {:induction false} LoadRowsDistinctKeys(data: seq<Record>, tokens: seq<string>)
    requires |tokens| >= |data|
    ensures DistinctKeys(LoadRows(data, tokens))
  {
    if data != [] {
      var n := |data| - 1;
      LoadRowsDistinctKeys(data[..n], tokens);
      PutDistinct(LoadRows(data[..n], tokens), RowKey(data[n], tokens[n]), data[n]);
    }
  }

  /** Load keeps the identities in the order in which they first appear in the file. */
  lemma {:induction false} LoadRowsKeyOrder(data: seq<Record>, tokens: seq<string>)
    requires |tokens| >= |data|
    ensures Keys(LoadRows(data, tokens)) == FirstOccurrences(LoadKeys(data, tokens))
  {
    if data != [] {
      var n := |data| - 1;
      LoadRowsKeyOrder(data[..n], tokens);
      assert LoadKeys(data[..n], tokens) == LoadKeys(data, tokens)[..n];
      PutKeys(LoadRows(data[..n], tokens), RowKey(data[n], tokens[n]), data[n]);
    }
  }

  /**
   * The record stored under an identity is the last loaded record with that
   * identity: a later duplicate overwrites an earlier one.
   */
  lemma {:induction false} LoadRowsLastWins(data: seq<Record>, tokens: seq<string>)
    requires |tokens| >= |data|
    ensures forall j :: LastWithKey(LoadKeys(data, tokens), j) ==>
      Lookup(LoadRows(data, tokens), LoadKeys(data, tokens)[j]) == Some(data[j])
  {
    if data != [] {
      var n := |data| - 1;
      var ks := LoadKeys(data, tokens);
      var prev := LoadRows(data[..n], tokens);
      LoadRowsLastWins(data[..n], tokens);
      assert LoadKeys(data[..n], tokens) == ks[..n];
      forall j | LastWithKey(ks, j)
        ensures Lookup(LoadRows(data, tokens), ks[j]) == Some(data[j])
      {
        PutLookup(prev, ks[n], data[n], ks[j]);
        if j < n {
          assert LastWithKey(ks[..n], j);
          assert (data[..n])[j] == data[j];
        }
      }
    }
  }

  /** Records with different non-zero numeric ids get different identities. */
  lemma NumericIdsGiveDistinctKeys(r1: Record, r2: Record, t1: string, t2: string)
    requires Field(r1, "id").Num? && Field(r2, "id").Num?
    requires Field(r1, "id").n != 0 && Field(r2, "id").n != 0
    requires Field(r1, "id") != Field(r2, "id")
    ensures RowKey(r1, t1) != RowKey(r2, t2)
  {
    if RowKey(r1, t1) == RowKey(r2, t2) {
      IntToStringInjective(Field(r1, "id").n, Field(r2, "id").n);
    }
  }

  /** With pairwise distinct identities no record is lost and the load order is kept. */
  lemma LoadRowsDistinct(data: seq<Record>, tokens: seq<string>)
    requires |tokens| >= |data|
    requires forall i, j :: 0 <= i < j < |data| ==> RowKey(data[i], tokens[i]) != RowKey(data[j], tokens[j])
    ensures LoadRows(data, tokens) == seq(|data|, i requires 0 <= i < |data| => (RowKey(data[i], tokens[i]), data[i]))
  {
    LoadRowsDistinctKeys(data, tokens);
    LoadRowsKeyOrder(data, tokens);
    LoadRowsLastWins(data, tokens);
    var ks := LoadKeys(data, tokens);
    var r := LoadRows(data, tokens);
    FirstOccurrencesOfDistinct(ks);
    forall i | 0 <= i < |data| ensures r[i] == (ks[i], data[i]) {
      assert LastWithKey(ks, i);
      assert r[i].0 == Keys(r)[i];
      LookupDistinct(r, i);
    }
  }

  lemma {:induction false} FirstOccurrencesOfDistinct(ks: seq<string>)
    requires forall i, j :: 0 <= i < j < |ks| ==> ks[i] != ks[j]
    ensures FirstOccurrences(ks) == ks
  {
    if ks != [] {
      FirstOccurrencesOfDistinct(ks[..|ks| - 1]);
    }
  }

  // ---------------------------------------------------------------------
  // Edit: handleChangeRow(id, nextVal)
  // ---------------------------------------------------------------------

  /** The old record with the patch spread over it; an unknown id contributes no fields (src/App.tsx:111). */
  function EditedRecord(m: RowMap, id: string, patch: Record): Record {
    Spread(RecordBefore(m, id), patch)
  }

  /** The edit of `handleChangeRow`: the row map with the merged record put at `id` (src/App.tsx:109-112). */
  function ApplyEdit(m: RowMap, id: string, patch: Record): RowMap {
    Put(m, id, EditedRecord(m, id, patch))
  }

  /** The record `id` had before the edit, or no fields at all for an unknown id. */
  function RecordBefore(m: RowMap, id: string): Record {
    match Lookup(m, id) case Some(r) => r case None => []
  }

  /**
   * An edit makes the record at `id` the old record shallow-merged with the
   * patch, leaves every other entry and the identity order alone, and for
   * an unknown `id` appends a new entry holding only the patch's fields.
   */
  lemma ApplyEditSpec(m: RowMap, id: string, patch: Record)
    requires DistinctKeys(patch)
    ensures Lookup(ApplyEdit(m, id, patch), id).Some?
    ensures forall k ::
      Field(Lookup(ApplyEdit(m, id, patch), id).value, k) == (if k in Keys(patch) then Field(patch, k) else Field(RecordBefore(m, id), k))
    ensures forall other :: other != id ==> Lookup(ApplyEdit(m, id, patch), other) == Lookup(m, other)
    ensures Keys(ApplyEdit(m, id, patch)) == if id in Keys(m) then Keys(m) else Keys(m) + [id]
  {
    PutKeys(m, id, EditedRecord(m, id, patch));
    PutLookup(m, id, EditedRecord(m, id, patch), id);
    forall other | other != id
      ensures Lookup(ApplyEdit(m, id, patch), other) == Lookup(m, other)
    {
      PutLookup(m, id, EditedRecord(m, id, patch), other);
    }
    forall k ensures Field(EditedRecord(m, id, patch), k) ==
      if k in Keys(patch) then Field(patch, k) else Field(RecordBefore(m, id), k)
    {
      SpreadLookup(RecordBefore(m, id), patch, k);
    }
  }

  /** An edit keeps the identities distinct. */
  lemma ApplyEditDistinct(m: RowMap, id: string, patch: Record)
    requires DistinctKeys(m)
    ensures DistinctKeys(ApplyEdit(m, id, patch))
  {
    PutDistinct(m, id, EditedRecord(m, id, patch));
  }

  /** Two successive one-field edits of the same row accumulate both fields; no other field changes. */
  lemma EditsAccumulate(m: RowMap, id: string, a: string, va: Value, b: string, vb: Value)
    requires a != b
    ensures var m2 := ApplyEdit(ApplyEdit(m, id, [(a, va)]), id, [(b, vb)]);
      && Lookup(m2, id).Some?
      && Field(Lookup(m2, id).value, a) == va
      && Field(Lookup(m2, id).value, b) == vb
      && forall k :: k != a && k != b ==> Field(Lookup(m2, id).value, k) == Field(RecordBefore(m, id), k)
  {
    var m1 := ApplyEdit(m, id, [(a, va)]);
    ApplyEditSpec(m, id, [(a, va)]);
    ApplyEditSpec(m1, id, [(b, vb)]);
    assert Keys([(a, va)]) == [a];
    assert Keys([(b, vb)]) == [b];
  }

  // ---------------------------------------------------------------------
  // Filter effect
  // ---------------------------------------------------------------------

  /** The reduce of the filter effect: keeps the entries the filter accepts (src/App.tsx:77-83). */
  function FilterFold(entries: RowMap, filter: FilterSpec): RowMap {
    if entries == [] then []
    else
      var n := |entries| - 1;
      var prev := FilterFold(entries[..n], filter);
      if FilterRowItem(filter, entries[n].1) then Put(prev, entries[n].0, entries[n].1) else prev
  }

  /** The visible rows: everything for an empty filter object, otherwise those the filter accepts. */
  function FilterRows(edited: RowMap, filter: FilterSpec): RowMap {
    if |filter| == 0 then edited else FilterFold(edited, filter)
  }

  /** Reference definition: the entries the filter accepts, in their order. */
  function Select(entries: RowMap, filter: FilterSpec): RowMap {
    if entries == [] then []
    else
      var n := |entries| - 1;
      Select(entries[..n], filter) + (if FilterRowItem(filter, entries[n].1) then [entries[n]] else [])
  }

  /** `a` is `b` with some entries left out and the rest in their order. */
  predicate IsSubsequence<T(==)>(a: seq<T>, b: seq<T>)
    decreases |b|
  {
    if a == [] then true
    else if b == [] then false
    else if a[|a| - 1] == b[|b| - 1] then IsSubsequence(a[..|a| - 1], b[..|b| - 1])
    else IsSubsequence(a, b[..|b| - 1])
  }

  /** An entry is selected exactly when it is one of the entries and the filter accepts it. */
  lemma {:induction false} SelectMembers(entries: RowMap, filter: FilterSpec)
    ensures forall e :: e in Select(entries, filter) <==> e in entries && FilterRowItem(filter, e.1)
  {
    if entries != [] {
      var n := |entries| - 1;
      SelectMembers(entries[..n], filter);
      assert entries == entries[..n] + [entries[n]];
    }
  }

  /** The selection keeps the order of the entries. */
  lemma {:induction false} SelectIsSubsequence(entries: RowMap, filter: FilterSpec)
    ensures IsSubsequence(Select(entries, filter), entries)
  {
    if entries != [] {
      var n := |entries| - 1;
      var prev := Select(entries[..n], filter);
      SelectIsSubsequence(entries[..n], filter);
      if FilterRowItem(filter, entries[n].1) {
        assert (prev + [entries[n]])[..|prev|] == prev;
      } else {
        assert Select(entries, filter) == prev;
        if prev != [] {
          SelectMembers(entries[..n], filter);
          assert prev[|prev| - 1] in prev;
          assert FilterRowItem(filter, prev[|prev| - 1].1);
        }
      }
    }
  }

  /** Selecting twice with the same filter selects nothing more and nothing less. */
  lemma {:induction false} SelectIdempotent(entries: RowMap, filter: FilterSpec)
    ensures Select(Select(entries, filter), filter) == Select(entries, filter)
  {
    if entries != [] {
      var n := |entries| - 1;
      var prev := Select(entries[..n], filter);
      SelectIdempotent(entries[..n], filter);
      SelectAppend(prev, if FilterRowItem(filter, entries[n].1) then [entries[n]] else [], filter);
    }
  }

  lemma {:induction false} SelectAppend(a: RowMap, b: RowMap, filter: FilterSpec)
    requires |b| <= 1
    ensures Select(a + b, filter) == Select(a, filter) + Select(b, filter)
  {
    if b != [] {
      assert (a + b)[..|a + b| - 1] == a;
    } else {
      assert a + b == a;
    }
  }

  /** A filter that accepts every entry selects all of them. */
  lemma {:induction false} SelectAll(entries: RowMap, filter: FilterSpec)
    requires forall i :: 0 <= i < |entries| ==> FilterRowItem(filter, entries[i].1)
    ensures Select(entries, filter) == entries
  {
    if entries != [] {
      var n := |entries| - 1;
      assert forall i :: 0 <= i < n ==> entries[..n][i] == entries[i];
      SelectAll(entries[..n], filter);
      assert FilterRowItem(filter, entries[n].1);
      assert entries == entries[..n] + [entries[n]];
    }
  }

  /** Over distinct identities, the reduce of the filter effect is the order-preserving selection. */
  lemma {:induction false} FilterFoldIsSelect(entries: RowMap, filter: FilterSpec)
    requires DistinctKeys(entries)
    ensures FilterFold(entries, filter) == Select(entries, filter)
  {
    if entries != [] {
      var n := |entries| - 1;
      var prev := Select(entries[..n], filter);
      FilterFoldIsSelect(entries[..n], filter);
      if FilterRowItem(filter, entries[n].1) {
        SelectMembers(entries[..n], filter);
        assert entries[n].0 !in Keys(prev);
        PutNew(prev, entries[n].0, entries[n].1);
      }
    }
  }

  /** With an empty filter object the visible rows are the edited rows. */
  lemma EmptyFilterShowsAll(edited: RowMap)
    ensures FilterRows(edited, []) == edited
  {
  }

  /**
   * A non-empty filter object gives the entries of the edited rows the
   * filter accepts, with their identities and records unchanged and in
   * insertion order.
   */
  lemma FilterRowsSpec(edited: RowMap, filter: FilterSpec)
    requires DistinctKeys(edited)
    ensures DistinctKeys(FilterRows(edited, filter))
    ensures forall e :: e in FilterRows(edited, filter) <==> e in edited && FilterRowItem(filter, e.1)
    ensures IsSubsequence(FilterRows(edited, filter), edited)
  {
    if |filter| != 0 {
      FilterFoldIsSelect(edited, filter);
      FilterFoldDistinct(edited, filter);
      SelectMembers(edited, filter);
      SelectIsSubsequence(edited, filter);
    } else {
      SelectAll(edited, []);
      SelectIsSubsequence(edited, []);
    }
  }

  lemma {:induction false} FilterFoldDistinct(entries: RowMap, filter: FilterSpec)
    ensures DistinctKeys(FilterFold(entries, filter))
  {
    if entries != [] {
      var n := |entries| - 1;
      FilterFoldDistinct(entries[..n], filter);
      if FilterRowItem(filter, entries[n].1) {
        PutDistinct(FilterFold(entries[..n], filter), entries[n].0, entries[n].1);
      }
    }
  }

  /** Filtering the visible rows again with the same filter changes nothing. */
  lemma FilterRowsIdempotent(edited: RowMap, filter: FilterSpec)
    requires DistinctKeys(edited)
    ensures FilterRows(FilterRows(edited, filter), filter) == FilterRows(edited, filter)
  {
    if |filter| != 0 {
      FilterFoldIsSelect(edited, filter);
      FilterFoldDistinct(edited, filter);
      FilterFoldIsSelect(FilterFold(edited, filter), filter);
      SelectIdempotent(edited, filter);
    }
  }

  /** A filter whose entries are all '', `null` or `undefined` shows every edited row. */
  lemma InactiveFilterShowsAll(edited: RowMap, filter: FilterSpec)
    requires DistinctKeys(edited)
    requires forall i :: 0 <= i < |filter| ==> !IsActive(filter[i].1)
    ensures FilterRows(edited, filter) == edited
  {
    if |filter| != 0 {
      FilterFoldIsSelect(edited, filter);
      forall i | 0 <= i < |edited| ensures FilterRowItem(filter, edited[i].1) {
        InactiveFilterAcceptsAll(filter, edited[i].1);
      }
      SelectAll(edited, filter);
    }
  }

  // ---------------------------------------------------------------------
  // Sort toggle and sort effect
  // ---------------------------------------------------------------------

  /** `orderDirection`: 'ASC', 'DESC' or `null`. */
  datatype Direction = Asc | Desc | Unset

  /** A click on the current key moves unset to ASC, ASC to DESC and DESC to unset (src/App.tsx:30). */
  function NextDirection(d: Direction): Direction {
    match d
    case Unset => Asc
    case Asc => Desc
    case Desc => Unset
  }

  /** `handleOrderChange`: the new sort key and direction (src/App.tsx:28-35). */
  function HandleOrderChange(orderKey: Option<string>, dir: Direction, next: string): (Option<string>, Direction) {
    if orderKey == Some(next) then (orderKey, NextDirection(dir)) else (Some(next), Asc)
  }

  /**
   * Clicking a key other than the current one selects it, ascending;
   * clicking the current key cycles null, ASC, DESC, null; so three clicks
   * on the current key return to the starting direction.
   */
  lemma OrderToggleSpec(orderKey: Option<string>, dir: Direction, next: string)
    ensures orderKey != Some(next) ==> HandleOrderChange(orderKey, dir, next) == (Some(next), Asc)
    ensures orderKey == Some(next) && dir == Unset ==> HandleOrderChange(orderKey, dir, next) == (Some(next), Asc)
    ensures orderKey == Some(next) && dir == Asc ==> HandleOrderChange(orderKey, dir, next) == (Some(next), Desc)
    ensures orderKey == Some(next) && dir == Desc ==> HandleOrderChange(orderKey, dir, next) == (Some(next), Unset)
    ensures HandleOrderChange(orderKey, dir, next).0 == Some(next)
  {
  }

  lemma ThreeClicksReturn(k: string, dir: Direction)
    ensures var s1 := HandleOrderChange(Some(k), dir, k);
      var s2 := HandleOrderChange(s1.0, s1.1, k);
      HandleOrderChange(s2.0, s2.1, k) == (Some(k), dir)
  {
  }

  /** The text form of the sort key's field, which a row is sorted by (src/App.tsx:99-100). */
  function SortText(row: Row, key: string): string {
    ToString(Field(row.1, key))
  }

  /**
   * The sort comparator, as "may stay in front of": `leLocale(x, y)` stands
   * for `x.localeCompare(y) <= 0`. ASC compares the second row against the
   * first, DESC the first against the second (src/App.tsx:98-100).
   */
  function Comparator(key: string, dir: Direction, leLocale: (string, string) -> bool): (Row, Row) -> bool {
    (a: Row, b: Row) =>
      if dir == Asc then leLocale(SortText(b, key), SortText(a, key))
      else leLocale(SortText(a, key), SortText(b, key))
  }

  /** `rows`: the visible entries, sorted when a key and a direction are set. */
  function OrderRows(rowData: RowMap, orderKey: Option<string>, dir: Direction, leLocale: (string, string) -> bool): seq<Row> {
    if orderKey.None? || dir == Unset then rowData
    else JsSort.Sort(rowData, Comparator(orderKey.value, dir, leLocale))
  }

  lemma ComparatorPreorder(key: string, dir: Direction, leLocale: (string, string) -> bool)
    requires JsSort.TotalPreorder(leLocale)
    ensures JsSort.TotalPreorder(Comparator(key, dir, leLocale))
  {
    var c := Comparator(key, dir, leLocale);
    forall x: Row, y: Row ensures c(x, y) || c(y, x) {
      assert leLocale(SortText(x, key), SortText(y, key)) || leLocale(SortText(y, key), SortText(x, key));
    }
    forall x: Row, y: Row, z: Row | c(x, y) && c(y, z) ensures c(x, z) {
      if dir == Asc {
        assert leLocale(SortText(z, key), SortText(y, key)) && leLocale(SortText(y, key), SortText(x, key));
      } else {
        assert leLocale(SortText(x, key), SortText(y, key)) && leLocale(SortText(y, key), SortText(z, key));
      }
    }
  }

  /** Without a key or a direction the rows are the visible entries in insertion order. */
  lemma UnorderedKeepsInsertionOrder(rowData: RowMap, orderKey: Option<string>, dir: Direction, leLocale: (string, string) -> bool)
    requires orderKey.None? || dir == Unset
    ensures OrderRows(rowData, orderKey, dir, leLocale) == rowData
  {
  }

  /** Ordering only rearranges the `[id, record]` pairs: none is added, dropped or changed. */
  lemma OrderPermutes(rowData: RowMap, orderKey: Option<string>, dir: Direction, leLocale: (string, string) -> bool)
    ensures multiset(OrderRows(rowData, orderKey, dir, leLocale)) == multiset(rowData)
  {
    if orderKey.Some? && dir != Unset {
      JsSort.SortPermutes(rowData, Comparator(orderKey.value, dir, leLocale));
    }
  }

  /**
   * ASC puts the rows in non-increasing locale order of the key's text, the
   * reverse of DESC, which puts them in non-decreasing order.
   */
  lemma OrderDirectionSpec(rowData: RowMap, key: string, dir: Direction, leLocale: (string, string) -> bool)
    requires JsSort.TotalPreorder(leLocale)
    requires dir != Unset
    ensures var rows := OrderRows(rowData, Some(key), dir, leLocale);
      forall i, j :: 0 <= i < j < |rows| ==>
        if dir == Asc then leLocale(SortText(rows[j], key), SortText(rows[i], key))
        else leLocale(SortText(rows[i], key), SortText(rows[j], key))
  {
    var c := Comparator(key, dir, leLocale);
    ComparatorPreorder(key, dir, leLocale);
    JsSort.SortSorted(rowData, c);
    var rows := OrderRows(rowData, Some(key), dir, leLocale);
    forall i, j | 0 <= i < j < |rows|
      ensures if dir == Asc then leLocale(SortText(rows[j], key), SortText(rows[i], key))
        else leLocale(SortText(rows[i], key), SortText(rows[j], key))
    {
      assert c(rows[i], rows[j]);
    }
  }

  // ---------------------------------------------------------------------
  // Scroll window
  // ---------------------------------------------------------------------

  /** The scroll offset divided by the row height, rounded down; not clamped to the number of rows (src/App.tsx:42). */
  function FirstVisibleRow(scrollTop: real): int {
    (scrollTop / ItemHeight as real).Floor
  }

  /** The first visible row is the row under the top edge of the scrolled container. */
  lemma FirstVisibleRowSpec(scrollTop: real)
    ensures var first := FirstVisibleRow(scrollTop);
      (ItemHeight * first) as real <= scrollTop < (ItemHeight * (first + 1)) as real
    ensures scrollTop >= 0.0 ==> FirstVisibleRow(scrollTop) >= 0
  {
  }

  /** The rendered rows: a slice of `visibleRows + 1` rows from the first visible one (src/App.tsx:175-176). */
  function Window(rows: seq<Row>, first: int): seq<Row> {
    Slice(rows, first, first + VisibleRows + 1)
  }

  /** `getTopHeight`: one row height per row scrolled past (src/App.tsx:122). */
  function TopHeight(first: int): int {
    ItemHeight * first
  }

  /** `getBottomHeight`: the height of the rows after the window, never negative (src/App.tsx:124-127). */
  function BottomHeight(rowCount: nat, first: int): int {
    var bottomHeight := ItemHeight * ((rowCount - 1) - (first + VisibleRows));
    if bottomHeight < 0 then 0 else bottomHeight
  }

  /**
   * The window holds at most `visibleRows + 1` rows and is the contiguous run
   * of `rows` starting at the first visible row (for a non-negative one).
   */
  lemma WindowSpec(rows: seq<Row>, first: int)
    ensures |Window(rows, first)| <= VisibleRows + 1
    ensures var lo := RelativeIndex(first, |rows|);
      lo + |Window(rows, first)| <= |rows| && Window(rows, first) == rows[lo..lo + |Window(rows, first)|]
    ensures 0 <= first && first + VisibleRows + 1 <= |rows| ==>
      Window(rows, first) == rows[first..first + VisibleRows + 1]
  {
    SliceShape(rows, first, first + VisibleRows + 1);
  }

  /**
   * The bottom spacer is never negative; the top spacer is one row height per
   * row scrolled past; with the first visible row inside the list, the
   * spacers and the rendered rows add up to the height of the whole list.
   */
  lemma HeightsSpec(rows: seq<Row>, first: int)
    ensures BottomHeight(|rows|, first) >= 0
    ensures TopHeight(first) == ItemHeight * first
    ensures 0 <= first <= |rows| ==>
      TopHeight(first) + ItemHeight * |Window(rows, first)| + BottomHeight(|rows|, first) == ItemHeight * |rows|
    ensures first > |rows| ==>
      Window(rows, first) == [] && TopHeight(first) + BottomHeight(|rows|, first) > ItemHeight * |rows|
  {
    if 0 <= first <= |rows| {
      if first + VisibleRows + 1 <= |rows| {
        assert |Window(rows, first)| == VisibleRows + 1;
      } else {
        assert |Window(rows, first)| == |rows| - first;
      }
    }
  }

  /** `isLoading`: no rows to render although records were loaded. */
  predicate IsLoading(rowCount: nat, dataCount: nat) {
    rowCount == 0 && dataCount > 0
  }

  /** The "No data" placeholder: not loading, no rows, and a file was loaded. */
  predicate ShowsNoData(rowCount: nat, dataCount: nat, isDataLoaded: bool) {
    !IsLoading(rowCount, dataCount) && rowCount == 0 && isDataLoaded
  }

  /**
   * "Loading..." and "No data" never show together, and "No data" shows only
   * for a loaded file with no records; a filter that hides every row shows
   * "Loading...".
   */
  lemma PlaceholderSpec(rowCount: nat, dataCount: nat, isDataLoaded: bool)
    ensures !(IsLoading(rowCount, dataCount) && ShowsNoData(rowCount, dataCount, isDataLoaded))
    ensures ShowsNoData(rowCount, dataCount, isDataLoaded) <==> rowCount == 0 && dataCount == 0 && isDataLoaded
    ensures rowCount == 0 && dataCount > 0 ==> IsLoading(rowCount, dataCount)
  {
  }

  /** The columns: the fields of the first loaded record, none before a load (src/App.tsx:120). */
  function HeaderKeys(data: seq<Record>): seq<string> {
    if |data| > 0 then Keys(data[0]) else []
  }
}

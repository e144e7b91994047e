/**
 * src/Row.tsx: one rendered row. Each header key gets one cell whose editor
 * is chosen from the key and the type and shape of the value, first match
 * wins; an editor reports a change as a one-field partial record.
 */
module RowCells {
  import opened JsValues
  import opened OrderedMaps
  import opened Utils
  import Pipeline

  /** The cell a key gets, with the value handed to its editor. */
  datatype CellKind =
    | ReadOnly(text: string)
    | Checkbox(checked: bool)
    | NumberInput(number: int)
    | DateInput(date: string)
    | TextArea(text: string)
    | EmailInput(address: string)
    | TextInput(text: string)
    | EmptyCell

  /** Strings longer than this get a multi-line editor (src/Row.tsx:40). */
  const MaxLineLength: int := 40

  /** What React renders for a bare value (src/Row.tsx:24): strings and numbers as text, booleans, `null` and `undefined` as nothing. */
  function RenderedText(v: Value): string {
    match v
    case Str(s) => s
    case Num(n) => IntToString(n)
    case _ => ""
  }

  /**
   * The editor for the cell of `key` holding `value`. `dateParses(s)` says
   * whether `Date.parse` gives a number for `s` (src/Row.tsx:36).
   */
  function Classify(key: string, value: Value, dateParses: string -> bool): CellKind {
    if key == "id" then ReadOnly(RenderedText(value))
    else
      match value
      case Bool(b) => Checkbox(b)
      case Num(n) => NumberInput(n)
      case Str(s) =>
        if dateParses(s) then DateInput(s)
        else if |s| > MaxLineLength then TextArea(s)
        else if ValidateEmail(s) then EmailInput(s)
        else TextInput(s)
      case _ => EmptyCell
  }

  /**
   * Each kind of cell, with the exact condition under which it is chosen:
   * `id` is always read-only; otherwise a boolean gets a checkbox, a number a
   * number input; a date-parseable string a date input (however long, even
   * an e-mail address); else a string over 40 characters a text area; else
   * an e-mail address an e-mail input; else a plain text input; anything
   * else an empty cell. Each editor is handed the value itself.
   */
  lemma ClassifySpec(key: string, value: Value, dateParses: string -> bool)
    ensures var c := Classify(key, value, dateParses);
      && (c.ReadOnly? <==> key == "id")
      && (c.Checkbox? <==> key != "id" && value.Bool?)
      && (c.Checkbox? ==> c.checked == value.b)
      && (c.NumberInput? <==> key != "id" && value.Num?)
      && (c.NumberInput? ==> c.number == value.n)
      && (c.DateInput? <==> key != "id" && value.Str? && dateParses(value.s))
      && (c.TextArea? <==> key != "id" && value.Str? && !dateParses(value.s) && |value.s| > MaxLineLength)
      && (c.EmailInput? <==> key != "id" && value.Str? && !dateParses(value.s) && |value.s| <= MaxLineLength && ValidateEmail(value.s))
      && (c.TextInput? <==> key != "id" && value.Str? && !dateParses(value.s) && |value.s| <= MaxLineLength && !ValidateEmail(value.s))
      && (c.EmptyCell? <==> key != "id" && (value.Null? || value.Absent?))
      && (value.Str? && !c.ReadOnly? ==> c in {DateInput(value.s), TextArea(value.s), EmailInput(value.s), TextInput(value.s)})
  {
  }

  /** `id` is shown read-only, as the text React renders for its value, whatever the value's type. */
  lemma IdIsReadOnly(value: Value, dateParses: string -> bool)
    ensures Classify("id", value, dateParses) == ReadOnly(RenderedText(value))
  {
  }

  /** A date-parseable string gets a date input even when it is long and is an e-mail address. */
  lemma DateWins(key: string, s: string, dateParses: string -> bool)
    requires key != "id" && dateParses(s)
    ensures Classify(key, Str(s), dateParses) == DateInput(s)
  {
  }

  /** One cell per header key, in header order (src/Row.tsx:20-21). */
  function Cells(headerKeys: seq<string>, data: Record, dateParses: string -> bool): seq<(string, CellKind)> {
    seq(|headerKeys|, i requires 0 <= i < |headerKeys| => (headerKeys[i], Classify(headerKeys[i], Field(data, headerKeys[i]), dateParses)))
  }

  /**
   * Every row gets the columns of the first loaded record, whatever fields
   * it has itself: one cell per field of that record, none for a field only
   * this row has, and an empty (or, for `id`, blank read-only) cell for a
   * column this row lacks.
   */
  lemma RowCellsFollowHeader(data: seq<Record>, r: Record, dateParses: string -> bool)
    ensures var cells := Cells(Pipeline.HeaderKeys(data), r, dateParses);
      && |cells| == (if |data| > 0 then |data[0]| else 0)
      && (forall i :: 0 <= i < |cells| ==> cells[i].0 == data[0][i].0)
      && (forall k, i :: k in Keys(r) && (data == [] || k !in Keys(data[0])) && 0 <= i < |cells| ==> cells[i].0 != k)
      && (forall i :: 0 <= i < |cells| && Lookup(r, cells[i].0).None? ==>
            cells[i].1 == if cells[i].0 == "id" then ReadOnly("") else EmptyCell)
  {
    var cells := Cells(Pipeline.HeaderKeys(data), r, dateParses);
    forall k, i | k in Keys(r) && (data == [] || k !in Keys(data[0])) && 0 <= i < |cells|
      ensures cells[i].0 != k
    {
      assert cells[i].0 == Keys(data[0])[i];
    }
  }

  /** `handleChange`: the row's id and a partial record holding only the changed field, as passed to `onChange` (src/Row.tsx:14-16). */
  function HandleChange(id: string, key: string, nextValue: Value): (call: (string, Record)) {
    (id, [(key, nextValue)])
  }

  /**
   * A cell's change reaches the row it belongs to, with exactly one field:
   * after the edit that field of that row holds the new value, the row's
   * other fields and every other row are unchanged.
   */
  lemma CellChangeSpec(m: Pipeline.RowMap, id: string, key: string, nextValue: Value)
    requires Lookup(m, id).Some?
    ensures var call := HandleChange(id, key, nextValue);
      && call.0 == id && Keys(call.1) == [key]
      && var m' := Pipeline.ApplyEdit(m, call.0, call.1);
      && Keys(m') == Keys(m)
      && Lookup(m', id).Some?
      && Field(Lookup(m', id).value, key) == nextValue
      && (forall k :: k != key ==> Field(Lookup(m', id).value, k) == Field(Lookup(m, id).value, k))
      && (forall other :: other != id ==> Lookup(m', other) == Lookup(m, other))
  {
    var call := HandleChange(id, key, nextValue);
    assert Keys(call.1) == [key];
    LookupFound(m, id);
    Pipeline.ApplyEditSpec(m, id, call.1);
  }
}

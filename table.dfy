/**
 * The insert-table dialog and command: Confirm is enabled only for a row
 * count in 1..500 and a column count in 1..50.
 *
 * Confirm dispatches Lexical's own `INSERT_TABLE_COMMAND`, not the
 * `INSERT_NEW_TABLE_COMMAND` this file's plugin registers; the editor mounts
 * the table plugin of `@lexical/react`, which handles the former. So the
 * handler below never sees the dialog's payload, which `DialogBypassesHandler`
 * states.
 *
 * `Number(...)` of an input's text is a real number or NaN (`None`); for
 * text other than decimal digits it is a parameter of the model.
 */
module Table {
  import opened Wrappers
  import JsText

  const MaxRows: int := 500
  const MaxColumns: int := 50

  /** A JavaScript number is truthy unless it is 0 or NaN. */
  predicate Truthy(x: Option<real>) {
    x.Some? && x.value != 0.0
  }

  /** `row && row > 0 && row <= 500 && column && column > 0 && column <= 50`. */
  predicate ConfirmEnabled(row: Option<real>, column: Option<real>) {
    Truthy(row) && row.value > 0.0 && row.value <= MaxRows as real
    && Truthy(column) && column.value > 0.0 && column.value <= MaxColumns as real
  }

  /** For whole numbers the rule is the inclusive range check on both counts; NaN disables it. */
  lemma ConfirmRule(rows: int, columns: int)
    ensures ConfirmEnabled(Some(rows as real), Some(columns as real)) <==> 1 <= rows <= 500 && 1 <= columns <= 50
    ensures !ConfirmEnabled(None, Some(columns as real)) && !ConfirmEnabled(Some(rows as real), None)
  {
  }

  /**
   * `Number(s)` for text made of decimal digits only: the empty text is 0,
   * so an emptied input disables Confirm like a 0.
   */
  function NumberOfDigits(s: string): (x: Option<real>)
    requires JsText.AllDigits(s)
    ensures x.Some? && x.value >= 0.0
  {
    Some(JsText.DigitsValue(s) as real)
  }

  /** The initial `'5'` and `'5'` enable Confirm; an empty input, 501 rows or 51 columns disable it; 500 by 50 is enabled. */
  lemma DialogCases()
    ensures ConfirmEnabled(NumberOfDigits("5"), NumberOfDigits("5"))
    ensures forall c :: !ConfirmEnabled(NumberOfDigits(""), c) && !ConfirmEnabled(c, NumberOfDigits(""))
    ensures ConfirmEnabled(Some(500.0), Some(50.0))
    ensures !ConfirmEnabled(Some(501.0), Some(50.0)) && !ConfirmEnabled(Some(500.0), Some(51.0))
  {
    assert JsText.DigitsValue("5") == 5 by {
      assert "5"[..0] == "";
    }
  }

  /** The two commands that insert a table. */
  datatype Command = InsertTableCommand | InsertNewTableCommand

  /** `InsertTableCommandPayload`: the counts as typed, and an optional header flag. */
  datatype Payload = Payload(columns: string, rows: string, includeHeaders: Option<bool>)

  /** Confirm: the command it dispatches, with the typed counts and no header flag. Closing the dialog afterwards is not modelled. */
  function OnConfirm(rows: string, columns: string): (r: (Command, Payload))
    ensures r.1.rows == rows && r.1.columns == columns && r.1.includeHeaders.None?
  {
    (InsertTableCommand, Payload(columns, rows, None))
  }

  /** What the handler inserts: a table of `Number(rows)` by `Number(columns)` cells. */
  datatype Inserted = Inserted(rows: Option<real>, columns: Option<real>, includeHeaders: Option<bool>)

  /** The `INSERT_NEW_TABLE_COMMAND` handler: inserts the table and reports the command handled. */
  function InsertNewTable(p: Payload, number: string -> Option<real>): (bool, Inserted) {
    (true, Inserted(number(p.rows), number(p.columns), p.includeHeaders))
  }

  /** Dispatch to this plugin: only its own command reaches its handler (`None`: not handled here). */
  function Dispatch(command: Command, p: Payload, number: string -> Option<real>): (r: Option<(bool, Inserted)>)
    ensures r.Some? <==> command == InsertNewTableCommand
  {
    if command == InsertNewTableCommand then Some(InsertNewTable(p, number)) else None
  }

  /**
   * A confirmed dialog never reaches this handler; were its payload sent as
   * `INSERT_NEW_TABLE_COMMAND`, the handler would claim it and insert a
   * whole-numbered table of 1..500 rows by 1..50 columns with no header flag.
   */
  lemma DialogBypassesHandler(rows: string, columns: string, number: string -> Option<real>)
    requires JsText.AllDigits(rows) && JsText.AllDigits(columns)
    requires number(rows) == NumberOfDigits(rows) && number(columns) == NumberOfDigits(columns)
    requires ConfirmEnabled(NumberOfDigits(rows), NumberOfDigits(columns))
    ensures Dispatch(OnConfirm(rows, columns).0, OnConfirm(rows, columns).1, number).None?
    ensures var r := Dispatch(InsertNewTableCommand, OnConfirm(rows, columns).1, number);
      r.Some? && r.value.0
      && r.value.1.rows.Some? && 1.0 <= r.value.1.rows.value <= 500.0
      && r.value.1.rows.value == r.value.1.rows.value.Floor as real
      && r.value.1.columns.Some? && 1.0 <= r.value.1.columns.value <= 50.0
      && r.value.1.columns.value == r.value.1.columns.value.Floor as real
      && r.value.1.includeHeaders.None?
  {
  }
}

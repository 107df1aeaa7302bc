/**
 One row of a record page's Fields table becomes a field descriptor
 (`parse_field_row`, netsuite_scraper.py:15-28), and the rows below the
 header become the record's field list (netsuite_scraper.py:75-81).
 A row is given as the texts of its `td` cells, in order.
 */
module Fields {
  import opened Options
  import opened Text
  import opened Seqs

  /** The metadata of one field of a record type. */
  datatype FieldDescriptor = FieldDescriptor(
    internalId: string,
    fieldType: string,
    nlsapiSubmitField: string,
    labelText: string,
    required: bool,
    help: string)

  /** The texts of the `td` cells of one table row. */
  type Row = seq<string>

  /** A row needs at least this many cells to describe a field. */
  const MinCells: nat := 6

  /** `s` equals `true` when upper and lower case are not told apart. */
  predicate IsTrueIgnoringCase(s: string) {
    |s| == 4 && forall i :: 0 <= i < 4 ==> s[i] == "true"[i] || s[i] == "TRUE"[i]
  }

  /** `s.lower() == 'true'` holds exactly for the case variants of `true`. */
  lemma LowerIsTrue(s: string)
    ensures Lower(s) == "true" <==> IsTrueIgnoringCase(s)
  {
    if |s| == 4 {
      assert Lower(s) == "true" <==> forall i :: 0 <= i < 4 ==> LowerChar(s[i]) == "true"[i];
    }
  }

  /** `parse_field_row`: nothing for a row of fewer than six cells,
      otherwise the stripped texts of cells 0 to 3 and 5, and `required`
      from cell 4. */
  function ParseFieldRow(row: Row): (r: Option<FieldDescriptor>)
    ensures r.None? <==> |row| < MinCells
    ensures r.Some? ==> (r.value.required <==> IsTrueIgnoringCase(Strip(row[4])))
  {
    if |row| < MinCells then None
    else
      LowerIsTrue(Strip(row[4]));
      Some(FieldDescriptor(
        internalId := Strip(row[0]),
        fieldType := Strip(row[1]),
        nlsapiSubmitField := Strip(row[2]),
        labelText := Strip(row[3]),
        required := Lower(Strip(row[4])) == "true",
        help := Strip(row[5])))
  }

  /** Cells after the sixth never change the descriptor, and each text
      field is its cell's text without surrounding whitespace. */
  lemma ParseFieldRowCells(row: Row)
    requires |row| >= MinCells
    ensures ParseFieldRow(row) == ParseFieldRow(row[..MinCells])
    ensures var f := ParseFieldRow(row).value;
      && f.internalId == Strip(row[0]) && f.fieldType == Strip(row[1])
      && f.nlsapiSubmitField == Strip(row[2]) && f.labelText == Strip(row[3])
      && f.help == Strip(row[5])
  {
  }

  /** Number of rows too short to describe a field. */
  function ShortRows(rows: seq<Row>): nat {
    if |rows| == 0 then 0
    else (if |rows[0]| < MinCells then 1 else 0) + ShortRows(rows[1..])
  }

  /** Rows too short to describe a field are the ones `parse_field_row` rejects. */
  lemma {:induction false} ShortRowsAreMisses(rows: seq<Row>)
    ensures ShortRows(rows) == Misses(rows, ParseFieldRow)
  {
    if |rows| > 0 {
      ShortRowsAreMisses(rows[1..]);
    }
  }

  /** The loop of netsuite_scraper.py:78-81: one descriptor per row of at
      least six cells, in row order; shorter rows are dropped silently. */
  function ParseRows(rows: seq<Row>): (fields: seq<FieldDescriptor>)
    ensures |fields| == |rows| - ShortRows(rows)
  {
    ShortRowsAreMisses(rows);
    FilterMap(rows, ParseFieldRow)
  }

  /** Every row of six or more cells contributes its descriptor, every
      descriptor comes from such a row, and the order of the rows is kept. */
  lemma ParseRowsSpec(rows: seq<Row>, more: seq<Row>)
    ensures forall k :: 0 <= k < |rows| && |rows[k]| >= MinCells ==> ParseFieldRow(rows[k]).value in ParseRows(rows)
    ensures forall f :: f in ParseRows(rows) ==> exists k :: 0 <= k < |rows| && |rows[k]| >= MinCells && ParseFieldRow(rows[k]) == Some(f)
    ensures ParseRows(rows + more) == ParseRows(rows) + ParseRows(more)
  {
    FilterMapMembers(rows, ParseFieldRow);
    FilterMapAppend(rows, more, ParseFieldRow);
  }

  /** `rows[1:]`: the rows below the header, none if there is no row at all. */
  function DropHeader(rows: seq<Row>): (body: seq<Row>)
    ensures |rows| > 0 ==> [rows[0]] + body == rows
    ensures |rows| == 0 ==> body == []
  {
    if |rows| == 0 then [] else rows[1..]
  }

  /** The field count of a table: the rows minus the header minus the short rows. */
  lemma TableFieldCount(rows: seq<Row>)
    requires |rows| > 0
    ensures |ParseRows(DropHeader(rows))| == |rows| - 1 - ShortRows(rows[1..])
  {
  }
}

/**
 The document-independent skeleton of `extract_record_data`
 (netsuite_scraper.py:31-91): find the record name, derive the record's
 internal id, locate the Fields heading and the table after it, and parse
 the table's rows.

 A parsed page is a flat sequence of elements in document order. Each
 element has a tag name, a text, and, for a table, the cell texts of its
 rows (header row first). Fetching and parsing the HTML is not modelled.
 */
module Records {
  import opened Options
  import opened Text
  import opened Seqs
  import opened Urls
  import opened Fields

  /** One element of the parsed page. `rows` is empty except for tables. */
  datatype Element = Element(tag: string, text: string, rows: seq<Row>)

  /** The parsed page, elements in document order. */
  type Document = seq<Element>

  /** What a record page yields. */
  datatype RecordEntry = RecordEntry(
    recordName: string,
    recordInternalId: string,
    fields: seq<FieldDescriptor>)

  /** The label that introduces an internal id in the page text. */
  const IdLabel: string := "Internal ID:"

  predicate IsH1(e: Element) {
    e.tag == "h1"
  }

  /** An `h2`, `h3` or `h4` whose text mentions `Fields` (netsuite_scraper.py:63). */
  predicate IsFieldsHeading(e: Element) {
    (e.tag == "h2" || e.tag == "h3" || e.tag == "h4") && Contains(e.text, "Fields")
  }

  predicate IsTable(e: Element) {
    e.tag == "table"
  }

  /** A text that mentions the internal id label (netsuite_scraper.py:53). */
  predicate HasIdLabel(e: Element) {
    Contains(e.text, IdLabel)
  }

  /** The page has a main heading. */
  ghost predicate HasH1(doc: Document) {
    exists i :: 0 <= i < |doc| && IsH1(doc[i])
  }

  /** Some Fields heading is followed, somewhere later in the page, by a table. */
  ghost predicate HasFieldsTable(doc: Document) {
    exists h, t :: 0 <= h < t < |doc| && IsFieldsHeading(doc[h]) && IsTable(doc[t])
  }

  /** The label's first and last characters are not whitespace. */
  lemma IdLabelEnds()
    ensures |IdLabel| > 0 && !IsSpace(IdLabel[0]) && !IsSpace(IdLabel[|IdLabel| - 1])
  {
  }

  /** `text.split('Internal ID:')[-1].strip()`: what follows the last label,
      without surrounding whitespace; it never holds the label itself. */
  function IdAfterLabel(text: string): (id: string)
    ensures !Contains(id, IdLabel)
    ensures |id| <= |text|
  {
    var tail := AfterLast(text, IdLabel);
    IdLabelEnds();
    StripKeepsWord(tail, IdLabel);
    Strip(tail)
  }

  /** The record's internal id (netsuite_scraper.py:50-60): taken from the
      URL, unless some element mentions the label, in which case the text
      after the label in the first such element wins. */
  function RecordInternalId(doc: Document, url: string): (id: string)
    ensures (forall i :: 0 <= i < |doc| ==> !HasIdLabel(doc[i])) ==> id == UrlRecordId(url)
    ensures (exists i :: 0 <= i < |doc| && HasIdLabel(doc[i])) ==> !Contains(id, IdLabel)
  {
    match FirstFrom(doc, 0, HasIdLabel)
    case None => UrlRecordId(url)
    case Some(i) =>
      var text := Strip(doc[i].text);
      IdLabelEnds();
      StripKeepsWord(doc[i].text, IdLabel);
      if Contains(text, IdLabel) then IdAfterLabel(text) else UrlRecordId(url)
  }

  /** When some element carries the label, the id is read from the first
      such element, whose stripped text always still holds the label. */
  lemma RecordInternalIdSpec(doc: Document, url: string)
    ensures forall i :: IsFirstFrom(doc, 0, HasIdLabel, i) ==>
              RecordInternalId(doc, url) == IdAfterLabel(Strip(doc[i].text))
  {
    var first := FirstFrom(doc, 0, HasIdLabel);
    if first.Some? {
      var i0 := first.value;
      IdLabelEnds();
      StripKeepsWord(doc[i0].text, IdLabel);
      assert RecordInternalId(doc, url) == IdAfterLabel(Strip(doc[i0].text));
      forall i | IsFirstFrom(doc, 0, HasIdLabel, i) ensures i == i0 {
        FirstFromUnique(doc, 0, HasIdLabel, i);
      }
    }
  }

  /** Index of the table the fields are read from: the first table after the
      first Fields heading (netsuite_scraper.py:63-72). */
  function FieldsTable(doc: Document): (t: Option<nat>)
    ensures t.Some? ==> t.value < |doc| && IsTable(doc[t.value])
    ensures t.Some? ==> exists h :: 0 <= h < t.value && IsFieldsHeading(doc[h])
  {
    match FirstFrom(doc, 0, IsFieldsHeading)
    case None => None
    case Some(h) => FirstFrom(doc, h + 1, IsTable)
  }

  /** A table is found exactly when some Fields heading has a table after
      it, and the one found is the first table after the first heading. */
  lemma FieldsTableSpec(doc: Document)
    ensures FieldsTable(doc).Some? <==> HasFieldsTable(doc)
    ensures forall h, t :: IsFirstFrom(doc, 0, IsFieldsHeading, h) && IsFirstFrom(doc, h + 1, IsTable, t) ==>
              FieldsTable(doc) == Some(t)
  {
    var first := FirstFrom(doc, 0, IsFieldsHeading);
    if first.Some? {
      var h0 := first.value;
      forall h, t | 0 <= h < t < |doc| && IsFieldsHeading(doc[h]) && IsTable(doc[t])
        ensures FirstFrom(doc, h0 + 1, IsTable).Some?
      {
        assert h0 <= h;
        assert h0 + 1 <= t;
      }
      forall h, t | IsFirstFrom(doc, 0, IsFieldsHeading, h) && IsFirstFrom(doc, h + 1, IsTable, t)
        ensures FieldsTable(doc) == Some(t)
      {
        FirstFromUnique(doc, 0, IsFieldsHeading, h);
        FirstFromUnique(doc, h + 1, IsTable, t);
      }
    }
  }

  /** `extract_record_data` once the page is parsed: no record without a
      main heading, a Fields heading, or a table after it; otherwise the
      stripped heading text, the internal id, and the parsed table rows
      below the header. */
  function ExtractRecord(doc: Document, url: string): (r: Option<RecordEntry>)
    ensures r.Some? <==> (exists i :: 0 <= i < |doc| && IsH1(doc[i])) && FieldsTable(doc).Some?
    ensures r.Some? ==> r.value.fields == [] || |r.value.fields| < |doc[FieldsTable(doc).value].rows|
  {
    match FirstFrom(doc, 0, IsH1)
    case None => None
    case Some(n) =>
      var name := Strip(doc[n].text);
      var id := RecordInternalId(doc, url);
      match FieldsTable(doc)
      case None => None
      case Some(t) => Some(RecordEntry(name, id, ParseRows(DropHeader(doc[t].rows))))
  }

  /** A record is produced exactly when the page has a main heading and a
      Fields heading with a table somewhere after it; its internal id is the
      one `RecordInternalId` derives. */
  lemma ExtractRecordFound(doc: Document, url: string)
    ensures ExtractRecord(doc, url).Some? <==> HasH1(doc) && HasFieldsTable(doc)
    ensures ExtractRecord(doc, url).Some? ==> ExtractRecord(doc, url).value.recordInternalId == RecordInternalId(doc, url)
  {
    FieldsTableSpec(doc);
  }

  /** The record name is the text of the first main heading, stripped. */
  lemma ExtractRecordName(doc: Document, url: string, n: nat)
    requires IsFirstFrom(doc, 0, IsH1, n)
    ensures ExtractRecord(doc, url).Some? ==> ExtractRecord(doc, url).value.recordName == Strip(doc[n].text)
  {
    FirstFromUnique(doc, 0, IsH1, n);
  }

  /** The fields are those of the first table after the first Fields
      heading: one per row below the header with six or more cells, so
      their number is the row count less the header less the short rows. */
  lemma ExtractRecordFields(doc: Document, url: string, h: nat, t: nat)
    requires HasH1(doc)
    requires IsFirstFrom(doc, 0, IsFieldsHeading, h) && IsFirstFrom(doc, h + 1, IsTable, t)
    ensures ExtractRecord(doc, url).Some?
    ensures ExtractRecord(doc, url).value.fields == ParseRows(DropHeader(doc[t].rows))
    ensures |ExtractRecord(doc, url).value.fields| ==
              if |doc[t].rows| == 0 then 0 else |doc[t].rows| - 1 - ShortRows(doc[t].rows[1..])
  {
    FieldsTableSpec(doc);
    assert FieldsTable(doc) == Some(t);
    if |doc[t].rows| > 0 {
      TableFieldCount(doc[t].rows);
    }
  }

  /** A page of three elements: a main heading, a Fields heading, a table,
      and no internal id label anywhere, yields its record from exactly
      those three, with the id the URL gives. */
  lemma ThreeElementPage(doc: Document, url: string)
    requires |doc| == 3
    requires IsH1(doc[0]) && IsFieldsHeading(doc[1]) && IsTable(doc[2])
    requires forall i :: 0 <= i < |doc| ==> !HasIdLabel(doc[i])
    ensures ExtractRecord(doc, url) == Some(RecordEntry(Strip(doc[0].text), UrlRecordId(url), ParseRows(DropHeader(doc[2].rows))))
  {
    FirstFromUnique(doc, 0, IsH1, 0);
    FirstFromUnique(doc, 0, IsFieldsHeading, 1);
    FirstFromUnique(doc, 2, IsTable, 2);
  }

  /** A table of a header row, a row of six cells and a row of four cells
      gives one descriptor, from the six-cell row. */
  lemma OneFullRow(header: Row, full: Row, short: Row)
    requires |full| == MinCells && |short| < MinCells
    ensures ParseRows(DropHeader([header, full, short])) == [ParseFieldRow(full).value]
  {
    assert DropHeader([header, full, short]) == [full] + [short];
    ParseRowsSpec([full], [short]);
    assert ParseRows([short]) == [];
    assert [full][1..] == [];
  }

  /** A page with a main heading, an `h3` Fields heading, and a table of a
      header row, a row of six cells and a row of four cells yields one
      descriptor, from the six-cell row, and takes its id from the URL. */
  lemma OneFieldPage(name: string, heading: string, header: Row, full: Row, short: Row, url: string)
    requires Contains(heading, "Fields")
    requires |full| == 6 && |short| == 4
    requires !Contains(name, IdLabel) && !Contains(heading, IdLabel)
    ensures var doc := [Element("h1", name, []), Element("h3", heading, []), Element("table", [], [header, full, short])];
      ExtractRecord(doc, url) == Some(RecordEntry(Strip(name), UrlRecordId(url), [ParseFieldRow(full).value]))
  {
    var doc := [Element("h1", name, []), Element("h3", heading, []), Element("table", [], [header, full, short])];
    assert IsH1(doc[0]) && IsFieldsHeading(doc[1]) && IsTable(doc[2]);
    assert forall i :: 0 <= i < |doc| ==> !HasIdLabel(doc[i]);
    ThreeElementPage(doc, url);
    OneFullRow(header, full, short);
  }
}

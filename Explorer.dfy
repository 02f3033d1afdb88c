/**
 * The older explorer page (views/scripts/index.js): a data file is loaded,
 * a constituency chosen from the sorted list of those in the file, and its
 * petitions shown in a sortable, filterable table without topics, which can
 * be exported as CSV.
 */
module Explorer {
  import opened Petitions
  import opened Strings
  import Salience
  import opened Table
  import Localities

  // ---------------------------------------------------------------------------
  // Lookups and salience
  // ---------------------------------------------------------------------------

  /**
   * `getUKTotal`: `rawPetitionsData[id]?.attributes?.signature_count`, which is
   * `undefined` for an unknown petition or a missing count; a count of 0 stays 0.
   */
  function GetUKTotal(store: PetitionStore, id: PetitionId): (r: Option<int>)
    ensures r.Some? <==> id in store && store[id].signatureCount.Some?
    ensures r.Some? ==> r.value == store[id].signatureCount.value
  {
    match Lookup(store, id)
    case None => None
    case Some(p) => p.signatureCount
  }

  /** The two pages differ only on a count of 0: this page keeps it, the locality page reads it as missing. */
  lemma UKTotalVariants(store: PetitionStore, id: PetitionId)
    ensures GetUKTotal(store, id) == Some(0) ==> Localities.GetUKTotal(store, id) == None
    ensures GetUKTotal(store, id) != Some(0) ==> Localities.GetUKTotal(store, id) == GetUKTotal(store, id)
  {
  }

  /** The salience of `populateTable`: `ukTotal > 0 ? (count / ukTotal) / (1 / 650) : 0`. */
  function RowSalience(store: PetitionStore, count: int, id: PetitionId): (s: real)
    ensures id in store && store[id].signatureCount.Some? && store[id].signatureCount.value > 0 ==>
      s * (store[id].signatureCount.value as real) == (count as real) * Salience.Constituencies
    ensures !(id in store && store[id].signatureCount.Some? && store[id].signatureCount.value > 0) ==> s == 0.0
  {
    Salience.Ratio(count, GetUKTotal(store, id))
  }

  /** An `undefined` total and a total of 0 both give salience 0, so both pages compute the same salience. */
  lemma SalienceVariantsAgree(store: PetitionStore, count: int, id: PetitionId)
    ensures RowSalience(store, count, id) == Localities.LocalSalience(store, count, id)
  {
    var total := GetUKTotal(store, id);
    if total.Some? && total.value > 0 {
      var t := total.value as real;
      assert RowSalience(store, count, id) * t == Localities.LocalSalience(store, count, id) * t;
    }
  }

  // ---------------------------------------------------------------------------
  // Rows (populateTable)
  // ---------------------------------------------------------------------------

  /** The cells `populateTable` fills for one entry: the same as the locality page's, without a topic. */
  function CellsOf(store: PetitionStore, e: IndexEntry): RowCells
  {
    var details := Lookup(store, e.id);
    var total := GetUKTotal(store, e.id);
    RowCells(
      e.action,
      e.count,
      RowSalience(store, e.count, e.id),
      "",
      if details.Some? && details.value.createdAt.Some? then details.value.createdAt.value else "",
      if total.Some? then total.value else 0,
      details.Some? && details.value.hasGovernmentResponse,
      details.Some? && details.value.hasDebate)
  }

  function RowCellsOf(store: PetitionStore): IndexEntry -> RowCells
  {
    e => CellsOf(store, e)
  }

  /**
   * One element of `currentDisplayed`: `ukTotal` as `getUKTotal` returned it,
   * `state` null when missing or empty, `created` the raw ISO date if any.
   */
  datatype DisplayedEntry = DisplayedEntry(
    petition: string,
    count: int,
    created: Option<string>,
    salience: real,
    ukTotal: Option<int>,
    state: Option<string>,
    hasWrittenResponse: bool,
    hasDebate: bool)

  function EntryOf(store: PetitionStore, e: IndexEntry): DisplayedEntry
  {
    var details := Lookup(store, e.id);
    DisplayedEntry(
      e.action,
      e.count,
      if details.Some? then details.value.createdAt else None,
      RowSalience(store, e.count, e.id),
      GetUKTotal(store, e.id),
      if details.Some? && details.value.state.Some? && details.value.state.value != "" then details.value.state else None,
      details.Some? && details.value.hasGovernmentResponse,
      details.Some? && details.value.hasDebate)
  }

  function Entries(store: PetitionStore, es: seq<IndexEntry>): seq<DisplayedEntry>
  {
    seq(|es|, k requires 0 <= k < |es| => EntryOf(store, es[k]))
  }

  lemma EntriesSnoc(store: PetitionStore, es: seq<IndexEntry>, n: nat)
    requires n < |es|
    ensures Entries(store, es[..n + 1]) == Entries(store, es[..n]) + [EntryOf(store, es[n])]
  {
  }

  /**
   * The `forEach` of `populateTable` over the sorted entries: a main row whose
   * detail id carries the running `detailRowCounter`, its hidden detail row,
   * and an element pushed onto `currentDisplayed`.
   */
  method BuildRows(store: PetitionStore, es: seq<IndexEntry>) returns (rows: seq<TableRow>, shown: seq<DisplayedEntry>)
    ensures rows == Layout(es, RowCellsOf(store))
    ensures shown == Entries(store, es)
  {
    var cellsOf := RowCellsOf(store);
    rows, shown := [], [];
    var detailRowCounter := 0;
    while detailRowCounter < |es|
      invariant detailRowCounter <= |es|
      invariant rows == Layout(es[..detailRowCounter], cellsOf)
      invariant shown == Entries(store, es[..detailRowCounter])
    {
      var e := es[detailRowCounter];
      var detailRowId := DetailRowId(e.id, detailRowCounter);
      LayoutSnoc(es, cellsOf, detailRowCounter);
      EntriesSnoc(store, es, detailRowCounter);
      rows := rows + [Main(cellsOf(e), detailRowId, true), Detail(detailRowId, false)];
      shown := shown + [EntryOf(store, e)];
      detailRowCounter := detailRowCounter + 1;
    }
    assert es[..|es|] == es;
  }

  /** The test `applyFilters` applies to one row of this page: the shared tests, and no topic test. */
  function KeepFor(f: Filters): RowCells -> bool
  {
    c => CommonKeeps(f, c)
  }

  /** The table `populateTable` leaves for a constituency's entries, after its call of `applyFilters`. */
  ghost function Populated(store: PetitionStore, filters: Filters, entries: seq<IndexEntry>): seq<TableRow>
  {
    Filtered(Layout(SortByCountDesc(entries), RowCellsOf(store)), KeepFor(filters))
  }

  /**
   * The rows as first laid out: main rows at the even positions, counts never
   * increasing from one to the next, and no two of them with the same
   * detail-row id, because the counter in the id grows by one per entry.
   */
  lemma PopulatedOrder(store: PetitionStore, filters: Filters, entries: seq<IndexEntry>)
    ensures |Populated(store, filters, entries)| == 2 * |entries|
    ensures forall k :: 0 <= k < |entries| ==>
      Populated(store, filters, entries)[2 * k].Main? && Populated(store, filters, entries)[2 * k + 1].Detail?
    ensures forall k1, k2 :: 0 <= k1 < k2 < |entries| ==>
      Populated(store, filters, entries)[2 * k1].cells.count >= Populated(store, filters, entries)[2 * k2].cells.count
    ensures forall k1, k2 :: 0 <= k1 < k2 < |entries| ==>
      Populated(store, filters, entries)[2 * k1].detailId != Populated(store, filters, entries)[2 * k2].detailId
  {
    var es := SortByCountDesc(entries);
    var laid := Layout(es, RowCellsOf(store));
    var body := Populated(store, filters, entries);
    forall k1, k2 | 0 <= k1 < k2 < |entries|
      ensures body[2 * k1].cells.count >= body[2 * k2].cells.count
      ensures body[2 * k1].detailId != body[2 * k2].detailId
    {
      assert body[2 * k1].cells == laid[2 * k1].cells && body[2 * k2].cells == laid[2 * k2].cells;
      DetailRowIdInjective(es[k1].id, k1, es[k2].id, k2);
    }
  }

  /**
   * `populateTable`: without data the table is left empty; otherwise the
   * entries sorted by count, descending, laid out and recorded in
   * `currentDisplayed`, then `applyFilters`.
   */
  method PopulateRows(store: PetitionStore, filters: Filters, data: Option<seq<IndexEntry>>)
    returns (body: seq<TableRow>, displayed: seq<DisplayedEntry>)
    ensures WellFormed(body)
    ensures data.None? ==> body == [] && displayed == []
    ensures data.Some? ==> body == Populated(store, filters, data.value)
    ensures data.Some? ==> displayed == Entries(store, SortByCountDesc(data.value))
  {
    body := [];
    displayed := [];
    if data.None? {
      return;
    }
    var es := SortByCountDesc(data.value);
    body, displayed := BuildRows(store, es);
    LayoutWellFormed(es, RowCellsOf(store));
    body := ApplyDisplay(body, KeepFor(filters));
  }

  /** `body` holds the rows of `populated`, its main rows re-ordered by signature count, descending. */
  ghost predicate SortedPopulation(body: seq<TableRow>, populated: seq<TableRow>)
  {
    && (forall x :: x in body <==> x in populated)
    && Mains(body) == SortBy(Mains(populated), CountKey, Desc)
    && OrderedBy(Mains(body), CountKey, Desc)
    && DetailsFollow(populated, body)
  }

  /**
   * The table part of the constituency `change` handler: `populateTable` with
   * the constituency's entries, then `sortTable` on the signature column,
   * descending. An unknown constituency leaves the table empty.
   */
  method SelectRows(store: PetitionStore, filters: Filters, index: ConstituencyIndex, constituency: string)
    returns (body: seq<TableRow>, displayed: seq<DisplayedEntry>)
    ensures WellFormed(body)
    ensures constituency !in index ==> body == [] && displayed == []
    ensures constituency in index ==> SortedPopulation(body, Populated(store, filters, index[constituency]))
    ensures constituency in index ==> displayed == Entries(store, SortByCountDesc(index[constituency]))
  {
    body, displayed := PopulateRows(store, filters, if constituency in index then Some(index[constituency]) else None);
    if constituency in index {
      body := SortTableBody(body, CountKey, Desc);
    }
  }

  /** Columns of the header that `sortTable` knows (`headerCellIndexMap`): this table has no topic column. */
  const HeaderCellIndexMap: seq<nat> := [0, 1, 2, 3, 4, 5, 8]

  // ---------------------------------------------------------------------------
  // CSV export
  // ---------------------------------------------------------------------------

  /** `replace(/"/g, '""')`: every double quote doubled. */
  function DoubleQuotes(s: string): (r: string)
    ensures |r| == |s| + Occurrences('"', s)
    ensures forall c :: c != '"' ==> (c in r <==> c in s)
  {
    if s == [] then []
    else (if s[0] == '"' then "\"\"" else [s[0]]) + DoubleQuotes(s[1..])
  }

  /** A field enclosed in double quotes, its own quotes doubled (section 2, rule 7 of RFC 4180). */
  function QuoteField(s: string): string
  {
    "\"" + DoubleQuotes(s) + "\""
  }

  /**
   * Reading a quoted field back after its opening quote: a pair of quotes
   * stands for one, a lone quote closes the field. Gives the field and the
   * text after the closing quote, or `None` when the field is never closed.
   */
  function ReadQuotedRest(s: string): Option<(string, string)>
  {
    if s == [] then None
    else if s[0] == '"' then
      if |s| >= 2 && s[1] == '"' then
        match ReadQuotedRest(s[2..])
        case None => None
        case Some((f, rest)) => Some((['"'] + f, rest))
      else
        Some(([], s[1..]))
    else
      match ReadQuotedRest(s[1..])
      case None => None
      case Some((f, rest)) => Some(([s[0]] + f, rest))
  }

  /** Reading a quoted field at the start of `s`. */
  function ReadQuotedField(s: string): Option<(string, string)>
  {
    if s != [] && s[0] == '"' then ReadQuotedRest(s[1..]) else None
  }

  /** The doubled text, its closing quote and anything not starting with a quote reads back as the text. */
  lemma {:induction false} ReadQuotedRestRoundTrip(x: string, rest: string)
    requires rest == [] || rest[0] != '"'
    ensures ReadQuotedRest(DoubleQuotes(x) + "\"" + rest) == Some((x, rest))
    decreases |x|
  {
    var s := DoubleQuotes(x) + "\"" + rest;
    if x == [] {
      assert s == "\"" + rest;
      assert s[1..] == rest;
    } else {
      ReadQuotedRestRoundTrip(x[1..], rest);
      var tail := DoubleQuotes(x[1..]) + "\"" + rest;
      if x[0] == '"' {
        assert s == "\"\"" + tail;
        assert s[2..] == tail;
        assert x == ['"'] + x[1..];
      } else {
        assert s == [x[0]] + tail;
        assert s[1..] == tail;
        assert x == [x[0]] + x[1..];
      }
    }
  }

  /** Quoting round trip: whatever the text holds (quotes, commas, line breaks), its field reads back as it. */
  lemma QuoteFieldRoundTrip(x: string, rest: string)
    requires rest == [] || rest[0] != '"'
    ensures ReadQuotedField(QuoteField(x) + rest) == Some((x, rest))
  {
    var s := QuoteField(x) + rest;
    assert s[1..] == DoubleQuotes(x) + "\"" + rest;
    ReadQuotedRestRoundTrip(x, rest);
  }

  /**
   * The formatting the export relies on and the model leaves open:
   * `toFixed(2)` of the salience, the value that text parses back to, and
   * `formatDateUK` of a non-empty date.
   */
  datatype Formats = Formats(toFixed2: real -> string, parsedFixed2: real -> real, formatDate: string -> string)

  /** `${value ?? "N/A"}` for the UK total. */
  function TotalText(ukTotal: Option<int>): (r: string)
    ensures ukTotal.None? <==> r == "N/A"
    ensures ukTotal.Some? ==> r == IntToString(ukTotal.value)
  {
    if ukTotal.Some? then
      var digits := IntToString(ukTotal.value);
      assert digits[0] != 'N';
      digits
    else "N/A"
  }

  /** `${value ?? "N/A"}` for the state. */
  function StateText(state: Option<string>): (r: string)
    ensures state.None? ==> r == "N/A"
    ensures state.Some? ==> r == state.value
  {
    if state.Some? then state.value else "N/A"
  }

  function YesNo(b: bool): (r: string)
    ensures r == "Yes" <==> b
    ensures r == "No" <==> !b
  {
    if b then "Yes" else "No"
  }

  /** `formatDateUK`: 'N/A' without a date. */
  function DateText(fmt: Formats, created: Option<string>): (r: string)
    ensures created.None? || created.value == "" ==> r == "N/A"
  {
    if created.None? || created.value == "" then "N/A" else fmt.formatDate(created.value)
  }

  /** The text after the petition field of a CSV line. */
  function CsvTail(e: DisplayedEntry, fmt: Formats): string
  {
    "," + IntToString(e.count)
    + ",\"" + Salience.CategoryOf(fmt.parsedFixed2(e.salience)).Text() + "\""
    + "," + fmt.toFixed2(e.salience)
    + "," + TotalText(e.ukTotal)
    + "," + StateText(e.state)
    + "," + YesNo(e.hasWrittenResponse)
    + "," + YesNo(e.hasDebate)
    + ",\"" + DateText(fmt, e.created) + "\""
  }

  /** The CSV line of one displayed entry. */
  function CsvRow(e: DisplayedEntry, fmt: Formats): string
  {
    QuoteField(e.petition) + CsvTail(e, fmt)
  }

  /** The first field of a CSV line reads back as the petition, followed by the rest of the line. */
  lemma CsvRowPetition(e: DisplayedEntry, fmt: Formats)
    ensures ReadQuotedField(CsvRow(e, fmt)) == Some((e.petition, CsvTail(e, fmt)))
  {
    QuoteFieldRoundTrip(e.petition, CsvTail(e, fmt));
  }

  /** A missing UK total or state prints 'N/A', a total of 0 prints '0', the flags 'Yes'/'No'. */
  lemma CsvNullsAndFlags()
    ensures TotalText(None) == "N/A" && TotalText(Some(0)) == "0" && TotalText(Some(1234)) == "1234"
    ensures StateText(None) == "N/A"
    ensures YesNo(true) == "Yes" && YesNo(false) == "No"
  {
  }

  /** The nine column names of the export. */
  const CsvColumns: seq<string> := ["Petition", "Count", "Local Salience", "Actual:Expected Salience", "UK Total",
    "State", "Written Response?", "Debated?", "Created"]

  /** `fields.join(",")`. */
  function JoinFields(fields: seq<string>): string
  {
    if fields == [] then ""
    else if |fields| == 1 then fields[0]
    else JoinFields(fields[..|fields| - 1]) + "," + fields[|fields| - 1]
  }

  lemma {:induction false} JoinFieldsSingleLine(fields: seq<string>)
    requires forall k :: 0 <= k < |fields| ==> '\n' !in fields[k]
    ensures '\n' !in JoinFields(fields)
    decreases |fields|
  {
    if |fields| > 1 {
      JoinFieldsSingleLine(fields[..|fields| - 1]);
    }
  }

  /** The header line: the column names separated by commas. */
  const CsvHeader: string := JoinFields(CsvColumns)

  lemma CsvHeaderSingleLine()
    ensures '\n' !in CsvHeader
  {
    JoinFieldsSingleLine(CsvColumns);
  }

  /** `rows.join("\n")`. */
  function JoinLines(rows: seq<string>): string
  {
    if rows == [] then ""
    else if |rows| == 1 then rows[0]
    else JoinLines(rows[..|rows| - 1]) + "\n" + rows[|rows| - 1]
  }

  /** `s.split("\n")`: the pieces between line breaks; a text without any is one piece. */
  function SplitLines(s: string): (r: seq<string>)
    ensures |r| >= 1
  {
    if s == [] then [""]
    else
      var pre := SplitLines(s[..|s| - 1]);
      if s[|s| - 1] == '\n' then pre + [""]
      else pre[..|pre| - 1] + [pre[|pre| - 1] + [s[|s| - 1]]]
  }

  lemma {:induction false} SplitLinesSingle(b: string)
    requires '\n' !in b
    ensures SplitLines(b) == [b]
    decreases |b|
  {
    if b != [] {
      SplitLinesSingle(b[..|b| - 1]);
      assert b == b[..|b| - 1] + [b[|b| - 1]];
    }
  }

  /** Splitting text that ends in a line break and a line without one gives the pieces before it and that line. */
  lemma {:induction false} SplitLinesAppend(a: string, b: string)
    requires '\n' !in b
    ensures SplitLines(a + "\n" + b) == SplitLines(a) + [b]
    decreases |b|
  {
    var s := a + "\n" + b;
    if b == [] {
      assert s[..|s| - 1] == a;
    } else {
      var b' := b[..|b| - 1];
      SplitLinesAppend(a, b');
      assert s[..|s| - 1] == a + "\n" + b';
      assert b == b' + [b[|b| - 1]];
    }
  }

  /** Splitting joined lines gives back the lines that follow the first piece. */
  lemma {:induction false} SplitJoin(a: string, rows: seq<string>)
    requires rows != []
    requires forall k :: 0 <= k < |rows| ==> '\n' !in rows[k]
    ensures SplitLines(a + "\n" + JoinLines(rows)) == SplitLines(a) + rows
    decreases |rows|
  {
    var last := rows[|rows| - 1];
    if |rows| == 1 {
      SplitLinesAppend(a, last);
    } else {
      var pre := rows[..|rows| - 1];
      assert forall k :: 0 <= k < |pre| ==> pre[k] == rows[k];
      SplitJoin(a, pre);
      SplitJoinStep(a, pre, last);
      assert rows == pre + [last];
    }
  }

  lemma SplitJoinStep(a: string, pre: seq<string>, last: string)
    requires pre != [] && '\n' !in last
    requires SplitLines(a + "\n" + JoinLines(pre)) == SplitLines(a) + pre
    ensures SplitLines(a + "\n" + JoinLines(pre + [last])) == SplitLines(a) + (pre + [last])
  {
    var rows := pre + [last];
    assert rows[..|rows| - 1] == pre;
    JoinLinesSnoc(a, rows);
    SplitLinesAppend(a + "\n" + JoinLines(pre), last);
  }

  lemma JoinLinesSnoc(a: string, rows: seq<string>)
    requires |rows| >= 2
    ensures a + "\n" + JoinLines(rows) == (a + "\n" + JoinLines(rows[..|rows| - 1])) + "\n" + rows[|rows| - 1]
  {
  }

  function CsvRows(displayed: seq<DisplayedEntry>, fmt: Formats): (rows: seq<string>)
    ensures |rows| == |displayed|
    ensures forall k :: 0 <= k < |displayed| ==> rows[k] == CsvRow(displayed[k], fmt)
  {
    seq(|displayed|, k requires 0 <= k < |displayed| => CsvRow(displayed[k], fmt))
  }

  /** The export handler: nothing when no rows are displayed, else the header line and one line per entry. */
  function ExportCsv(displayed: seq<DisplayedEntry>, fmt: Formats): (csv: Option<string>)
    ensures csv.None? <==> displayed == []
  {
    if displayed == [] then None
    else Some(CsvHeader + "\n" + JoinLines(CsvRows(displayed, fmt)))
  }

  /** No line break in any text of an entry's line. */
  predicate SingleLine(e: DisplayedEntry, fmt: Formats)
  {
    && '\n' !in e.petition
    && '\n' !in fmt.toFixed2(e.salience)
    && '\n' !in StateText(e.state)
    && '\n' !in DateText(fmt, e.created)
  }

  lemma CsvRowSingleLine(e: DisplayedEntry, fmt: Formats)
    requires SingleLine(e, fmt)
    ensures '\n' !in CsvRow(e, fmt)
  {
    var category := Salience.CategoryOf(fmt.parsedFixed2(e.salience));
    assert '\n' !in category.Text();
    assert '\n' !in YesNo(e.hasWrittenResponse) && '\n' !in YesNo(e.hasDebate);
    assert '\n' !in TotalText(e.ukTotal);
  }

  /**
   * The export has one line more than there are displayed entries: the header,
   * then each entry's line in order, as long as no text of an entry holds a
   * line break.
   */
  lemma ExportLines(displayed: seq<DisplayedEntry>, fmt: Formats)
    requires displayed != []
    requires forall k :: 0 <= k < |displayed| ==> SingleLine(displayed[k], fmt)
    ensures ExportCsv(displayed, fmt).Some?
    ensures SplitLines(ExportCsv(displayed, fmt).value) == [CsvHeader] + CsvRows(displayed, fmt)
    ensures |SplitLines(ExportCsv(displayed, fmt).value)| == |displayed| + 1
  {
    var rows := CsvRows(displayed, fmt);
    forall k | 0 <= k < |rows|
      ensures '\n' !in rows[k]
    {
      CsvRowSingleLine(displayed[k], fmt);
    }
    SplitJoin(CsvHeader, rows);
    CsvHeaderSingleLine();
    SplitLinesSingle(CsvHeader);
  }

  // ---------------------------------------------------------------------------
  // The page
  // ---------------------------------------------------------------------------

  /** What the JSON data file gives: `signaturesByConstituency` and `rawPetitionsData`, each possibly absent. */
  datatype DataFile = DataFile(index: Option<ConstituencyIndex>, raw: Option<RawPetitions>)

  /** `populateConstituencySelector(Object.keys(signaturesByConstituency))`: the names in ascending order. */
  method ConstituencyOptions(index: ConstituencyIndex) returns (options: seq<string>)
    ensures StrictlySorted(options)
    ensures forall c :: c in options <==> c in index
  {
    var constituencies := Localities.ElementsOf(index.Keys);
    options := SortedDistinct(constituencies);
  }

  /** The page's globals and the table body. */
  class ExplorerPage {
    var store: PetitionStore
    var index: ConstituencyIndex
    var constituencyOptions: seq<string>
    var body: seq<TableRow>
    var displayed: seq<DisplayedEntry>
    var sort: SortState
    var filters: Filters

    ghost predicate Valid()
      reads this
    {
      WellFormed(body)
    }

    /** The page before a file is loaded. */
    constructor ()
      ensures Valid()
      ensures store == map[] && index == map[] && constituencyOptions == []
      ensures body == [] && displayed == [] && sort == InitialSort && filters == Localities.NoFilters
    {
      store := map[];
      index := map[];
      constituencyOptions := [];
      body := [];
      displayed := [];
      sort := InitialSort;
      filters := Localities.NoFilters;
    }

    /**
     * The file input's `change` handler: no file or a file that does not parse
     * changes nothing; otherwise the index and the normalised store replace the
     * old ones and the selector lists the constituencies. The table is left as it was.
     */
    method LoadFile(file: Option<DataFile>)
      requires Valid()
      modifies this`store, this`index, this`constituencyOptions
      ensures Valid()
      ensures file.None? ==> store == old(store) && index == old(index) && constituencyOptions == old(constituencyOptions)
      ensures file.Some? ==> store == Normalise(file.value.raw)
      ensures file.Some? ==> index == if file.value.index.Some? then file.value.index.value else map[]
      ensures file.Some? ==> StrictlySorted(constituencyOptions) && forall c :: c in constituencyOptions <==> c in index
    {
      if file.Some? {
        index := if file.value.index.Some? then file.value.index.value else map[];
        store := Normalise(file.value.raw);
        constituencyOptions := ConstituencyOptions(index);
      }
    }

    /** `applyFilters`: every main row shown exactly when it passes, every linked detail row hidden. */
    method ApplyFilters()
      requires Valid()
      modifies this`body
      ensures Valid()
      ensures body == Filtered(old(body), KeepFor(filters))
    {
      body := ApplyDisplay(body, KeepFor(filters));
    }

    /** A filter control changes, then `applyFilters` runs. */
    method ChangeFilters(f: Filters)
      requires Valid()
      modifies this`filters, this`body
      ensures Valid()
      ensures filters == f
      ensures body == Filtered(old(body), KeepFor(f))
    {
      filters := f;
      ApplyFilters();
    }

    /**
     * `sortTable` for the column at `columnIndex`, `key` giving each main row's
     * value in that column: an index outside `headerCellIndexMap` changes nothing.
     */
    method SortTable(columnIndex: int, key: TableRow -> real, dir: Direction)
      requires Valid()
      modifies this`body
      ensures Valid()
      ensures !(0 <= columnIndex < |HeaderCellIndexMap|) ==> body == old(body)
      ensures 0 <= columnIndex < |HeaderCellIndexMap| ==>
        && (forall x :: x in body <==> x in old(body))
        && Mains(body) == SortBy(Mains(old(body)), key, dir)
        && DetailsFollow(old(body), body)
    {
      if 0 <= columnIndex < |HeaderCellIndexMap| {
        body := SortTableBody(body, key, dir);
      }
    }

    /** A click on the header of column `index`: the sort state moves on and the table is sorted by it. */
    method ClickHeader(index: int, key: TableRow -> real)
      requires Valid()
      modifies this`sort, this`body
      ensures Valid()
      ensures sort == Click(old(sort), index)
      ensures !(0 <= index < |HeaderCellIndexMap|) ==> body == old(body)
      ensures 0 <= index < |HeaderCellIndexMap| ==>
        && (forall x :: x in body <==> x in old(body))
        && Mains(body) == SortBy(Mains(old(body)), key, sort.direction)
        && DetailsFollow(old(body), body)
    {
      sort := Click(sort, index);
      SortTable(index, key, sort.direction);
    }

    /**
     * The constituency `change` handler: the sort state back to the signature
     * column descending, the table populated with the constituency's entries,
     * then sorted by that column. The filters are kept.
     */
    method SelectConstituency(constituency: string)
      requires Valid()
      modifies this`body, this`displayed, this`sort
      ensures Valid()
      ensures sort == InitialSort
      ensures constituency !in index ==> body == [] && displayed == []
      ensures constituency in index ==> SortedPopulation(body, Populated(store, filters, index[constituency]))
      ensures constituency in index ==> displayed == Entries(store, SortByCountDesc(index[constituency]))
    {
      sort := InitialSort;
      var rows, shown := SelectRows(store, filters, index, constituency);
      body, displayed := rows, shown;
    }

    /** The export button: the CSV text of the displayed entries, or nothing when there are none. */
    method Export(fmt: Formats) returns (csv: Option<string>)
      ensures csv.None? <==> displayed == []
      ensures csv.Some? ==> csv.value == CsvHeader + "\n" + JoinLines(CsvRows(displayed, fmt))
    {
      csv := ExportCsv(displayed, fmt);
    }
  }
}

/**
 * The petitions table both pages build: the header click that chooses the sort
 * column and direction, the rows `populateTable` lays out (a main row followed
 * by its hidden detail row, linked through `data-detail-row-id`), the filter
 * tests the two `applyFilters` share, the display pass over the rows, and the
 * re-append of rows after `sortTable` has ordered them.
 *
 * The table body is a sequence of rows; `appendChild` of a row already in the
 * body moves it to the end, and `document.getElementById` returns the first
 * row carrying the id.
 */
module Table {
  import opened Petitions
  import opened Strings
  import Salience

  // ---------------------------------------------------------------------------
  // Sort state of the header (setupSortableColumns)
  // ---------------------------------------------------------------------------

  datatype Direction = Asc | Desc

  /** `currentSortColumn` and `currentSortDirection`. */
  datatype SortState = SortState(column: int, direction: Direction)

  /** The state before any header click: the signature-count column, descending. */
  const InitialSort := SortState(1, Desc)

  /** A click on the header of column `index`: the same column flips direction, another column starts descending. */
  function Click(s: SortState, index: int): (r: SortState)
    ensures r.column == index
    ensures s.column == index ==> r.direction != s.direction
    ensures s.column != index ==> r.direction == Desc
  {
    if s.column == index then
      SortState(index, if s.direction == Desc then Asc else Desc)
    else
      SortState(index, Desc)
  }

  /** Two clicks on the sorted column give back the state before them. */
  lemma ClickTwiceRestores(s: SortState)
    ensures Click(Click(s, s.column), s.column) == s
  {
  }

  /** A click on another column then back on the first one sorts that column descending. */
  lemma ClickElsewhereThenBack(s: SortState, other: int)
    requires other != s.column
    ensures Click(Click(s, other), s.column) == SortState(s.column, Desc)
  {
  }

  // ---------------------------------------------------------------------------
  // Rows
  // ---------------------------------------------------------------------------

  /** What the filters read from the cells of one main row. */
  datatype RowCells = RowCells(
    petition: string,       // text of the link in the petition cell
    count: int,             // the signatures cell
    salience: real,         // data-salience of the category cell
    topicText: string,      // the topic cell ('' on the page without topics)
    created: string,        // data-value of the created cell, '' when unknown
    ukTotal: int,           // data-value of the UK-total cell, 0 when unknown
    writtenResponse: bool,  // the written-response cell shows a tick
    debated: bool)          // the debated cell shows a tick

  /** A main row, with the id of its detail row ('' when it has none), or a detail row. */
  datatype TableRow =
    | Main(cells: RowCells, detailId: string, shown: bool)
    | Detail(id: string, shown: bool)

  ghost predicate Distinct<T>(s: seq<T>)
  {
    forall i, j :: 0 <= i < j < |s| ==> s[i] != s[j]
  }

  /**
   * A table body as `populateTable` leaves it and every later pass keeps it:
   * no row twice, no two main rows pointing at the same detail id, no two
   * detail rows with the same id.
   */
  ghost predicate WellFormed(body: seq<TableRow>)
  {
    && Distinct(body)
    && (forall i, j ::
          0 <= i < |body| && 0 <= j < |body| && body[i].Main? && body[j].Main? && body[i].detailId == body[j].detailId
          ==> i == j)
    && (forall i, j ::
          0 <= i < |body| && 0 <= j < |body| && body[i].Detail? && body[j].Detail? && body[i].id == body[j].id
          ==> i == j)
  }

  /** `details-row-${petitionId}-${detailRowCounter}`. */
  function DetailRowId(petitionId: PetitionId, counter: nat): string
  {
    "details-row-" + petitionId + "-" + NatToString(counter)
  }

  /** The text after the last '-' of a string. */
  function AfterLastDash(s: string): string
  {
    if s == [] || s[|s| - 1] == '-' then [] else AfterLastDash(s[..|s| - 1]) + [s[|s| - 1]]
  }

  lemma {:induction false} AfterLastDashOf(a: string, d: string)
    requires |a| > 0 && a[|a| - 1] == '-' && '-' !in d
    ensures AfterLastDash(a + d) == d
    decreases |d|
  {
    if d == [] {
      assert a + d == a;
    } else {
      var s := a + d;
      assert s[..|s| - 1] == a + d[..|d| - 1];
      AfterLastDashOf(a, d[..|d| - 1]);
      assert d == d[..|d| - 1] + [d[|d| - 1]];
    }
  }

  /** Different petitions or different counter values never share a detail-row id. */
  lemma {:induction false} DetailRowIdInjective(p1: PetitionId, k1: nat, p2: PetitionId, k2: nat)
    ensures DetailRowId(p1, k1) == DetailRowId(p2, k2) ==> p1 == p2 && k1 == k2
  {
    if DetailRowId(p1, k1) == DetailRowId(p2, k2) {
      var s := DetailRowId(p1, k1);
      var a1, a2 := "details-row-" + p1 + "-", "details-row-" + p2 + "-";
      var d1, d2 := NatToString(k1), NatToString(k2);
      assert s == a1 + d1 && s == a2 + d2;
      AfterLastDashOf(a1, d1);
      AfterLastDashOf(a2, d2);
      NatToStringInjective(k1, k2);
      assert a1 == s[..|s| - |d1|] == a2;
      assert p1 == a1[12..|a1| - 1] && p2 == a2[12..|a2| - 1];
    }
  }

  // ---------------------------------------------------------------------------
  // Layout (populateTable)
  // ---------------------------------------------------------------------------

  /** Whether `a` may stand before `b` in a list sorted in direction `dir`. */
  predicate Precedes(dir: Direction, a: real, b: real)
  {
    if dir == Asc then a <= b else b <= a
  }

  ghost predicate OrderedBy<T>(s: seq<T>, key: T -> real, dir: Direction)
  {
    forall i, j :: 0 <= i < j < |s| ==> Precedes(dir, key(s[i]), key(s[j]))
  }

  /** Puts `x` after every element that may stand before it. */
  function InsertBy<T>(x: T, s: seq<T>, key: T -> real, dir: Direction): (r: seq<T>)
    ensures |r| == |s| + 1
    ensures multiset(r) == multiset(s) + multiset{x}
  {
    if s == [] then [x]
    else if Precedes(dir, key(s[0]), key(x)) then
      assert s == [s[0]] + s[1..];
      [s[0]] + InsertBy(x, s[1..], key, dir)
    else
      [x] + s
  }

  /** Inserting into a sorted list keeps it sorted. */
  lemma {:induction false} InsertByOrdered<T>(x: T, s: seq<T>, key: T -> real, dir: Direction)
    requires OrderedBy(s, key, dir)
    ensures OrderedBy(InsertBy(x, s, key, dir), key, dir)
    decreases |s|
  {
    if s != [] && Precedes(dir, key(s[0]), key(x)) {
      InsertByOrdered(x, s[1..], key, dir);
      var rest := InsertBy(x, s[1..], key, dir);
      var r := [s[0]] + rest;
      HeadPrecedesInsert(s[0], x, s[1..], key, dir);
      forall i, j | 0 <= i < j < |r|
        ensures Precedes(dir, key(r[i]), key(r[j]))
      {
        if i > 0 {
          assert r[i] == rest[i - 1] && r[j] == rest[j - 1];
        }
      }
    }
  }

  /** An element that may precede `x` and all of `t` may precede all of `InsertBy(x, t)`. */
  lemma HeadPrecedesInsert<T>(h: T, x: T, t: seq<T>, key: T -> real, dir: Direction)
    requires Precedes(dir, key(h), key(x))
    requires forall k :: 0 <= k < |t| ==> Precedes(dir, key(h), key(t[k]))
    ensures forall k :: 0 <= k < |InsertBy(x, t, key, dir)| ==> Precedes(dir, key(h), key(InsertBy(x, t, key, dir)[k]))
  {
    var r := InsertBy(x, t, key, dir);
    forall k | 0 <= k < |r|
      ensures Precedes(dir, key(h), key(r[k]))
    {
      var y := r[k];
      assert y in multiset(r);
      if y != x {
        assert y in multiset(t);
        var m :| 0 <= m < |t| && t[m] == y;
      }
    }
  }

  /**
   * `Array.prototype.sort` with a comparator that orders by `key` in direction
   * `dir`: a stable sort, here an insertion sort.
   */
  function SortBy<T>(s: seq<T>, key: T -> real, dir: Direction): (r: seq<T>)
    ensures OrderedBy(r, key, dir)
    ensures |r| == |s|
    ensures multiset(r) == multiset(s)
  {
    if s == [] then []
    else
      var sorted := SortBy(s[..|s| - 1], key, dir);
      assert s == s[..|s| - 1] + [s[|s| - 1]];
      InsertByOrdered(s[|s| - 1], sorted, key, dir);
      InsertBy(s[|s| - 1], sorted, key, dir)
  }

  function EntryCount(e: IndexEntry): real
  {
    e.count as real
  }

  /** `Object.entries(data).sort((a, b) => b[1].count - a[1].count)`. */
  function SortByCountDesc(es: seq<IndexEntry>): (r: seq<IndexEntry>)
    ensures |r| == |es| && multiset(r) == multiset(es)
    ensures forall i, j :: 0 <= i < j < |r| ==> r[i].count >= r[j].count
  {
    var r := SortBy(es, EntryCount, Desc);
    assert forall i, j :: 0 <= i < j < |r| ==> Precedes(Desc, EntryCount(r[i]), EntryCount(r[j]));
    r
  }

  /** Inserting after a list whose every element may stand before `x` appends `x`. */
  lemma {:induction false} InsertByAfterAll<T>(x: T, s: seq<T>, key: T -> real, dir: Direction)
    requires forall y :: y in s ==> Precedes(dir, key(y), key(x))
    ensures InsertBy(x, s, key, dir) == s + [x]
    decreases |s|
  {
    if s != [] {
      InsertByAfterAll(x, s[1..], key, dir);
      assert s == [s[0]] + s[1..];
    }
  }

  /** The sort is stable in the sense that a list already in order is left exactly as it is. */
  lemma {:induction false} SortByOrdered<T>(s: seq<T>, key: T -> real, dir: Direction)
    requires OrderedBy(s, key, dir)
    ensures SortBy(s, key, dir) == s
    decreases |s|
  {
    if s != [] {
      var pre, x := s[..|s| - 1], s[|s| - 1];
      assert SortBy(s, key, dir) == InsertBy(x, SortBy(pre, key, dir), key, dir);
      PrefixOrdered(s, key, dir);
      SortByOrdered(pre, key, dir);
      InsertLastOrdered(s, key, dir);
    }
  }

  lemma InsertLastOrdered<T>(s: seq<T>, key: T -> real, dir: Direction)
    requires OrderedBy(s, key, dir) && s != []
    ensures InsertBy(s[|s| - 1], s[..|s| - 1], key, dir) == s
  {
    LastFollows(s, key, dir);
    InsertByAfterAll(s[|s| - 1], s[..|s| - 1], key, dir);
    assert s == s[..|s| - 1] + [s[|s| - 1]];
  }

  lemma PrefixOrdered<T>(s: seq<T>, key: T -> real, dir: Direction)
    requires OrderedBy(s, key, dir) && s != []
    ensures OrderedBy(s[..|s| - 1], key, dir)
  {
    var pre := s[..|s| - 1];
    assert forall m :: 0 <= m < |pre| ==> pre[m] == s[m];
  }

  lemma LastFollows<T>(s: seq<T>, key: T -> real, dir: Direction)
    requires OrderedBy(s, key, dir) && s != []
    ensures forall y :: y in s[..|s| - 1] ==> Precedes(dir, key(y), key(s[|s| - 1]))
  {
    var pre := s[..|s| - 1];
    forall y | y in pre
      ensures Precedes(dir, key(y), key(s[|s| - 1]))
    {
      var m :| 0 <= m < |pre| && pre[m] == y;
      assert s[m] == y;
    }
  }

  /** Inserting an element not yet present keeps the elements distinct. */
  lemma {:induction false} InsertByDistinct<T>(x: T, s: seq<T>, key: T -> real, dir: Direction)
    requires Distinct(s) && x !in s
    ensures Distinct(InsertBy(x, s, key, dir))
    decreases |s|
  {
    if s != [] && Precedes(dir, key(s[0]), key(x)) {
      var rest := InsertBy(x, s[1..], key, dir);
      InsertByDistinct(x, s[1..], key, dir);
      assert s == [s[0]] + s[1..];
      forall y | y in rest
        ensures y != s[0]
      {
        assert y in multiset(rest);
      }
      ConsDistinct(s[0], rest);
    } else if s != [] {
      ConsDistinct(x, s);
    }
  }

  lemma ConsDistinct<T>(h: T, t: seq<T>)
    requires Distinct(t) && h !in t
    ensures Distinct([h] + t)
  {
    var r := [h] + t;
    forall i, j | 0 <= i < j < |r|
      ensures r[i] != r[j]
    {
      if i == 0 {
        assert r[j] == t[j - 1] && r[j] in t;
      } else {
        assert r[i] == t[i - 1] && r[j] == t[j - 1];
      }
    }
  }

  /** Sorting keeps distinct elements distinct. */
  lemma {:induction false} SortByDistinct<T>(s: seq<T>, key: T -> real, dir: Direction)
    requires Distinct(s)
    ensures Distinct(SortBy(s, key, dir))
    decreases |s|
  {
    if s != [] {
      var pre, x := s[..|s| - 1], s[|s| - 1];
      assert s == pre + [x];
      assert forall i, j :: 0 <= i < j < |pre| ==> pre[i] == s[i] && pre[j] == s[j];
      SortByDistinct(pre, key, dir);
      var sorted := SortBy(pre, key, dir);
      forall m | 0 <= m < |pre|
        ensures pre[m] != x
      {
        assert s[m] == pre[m] && s[|s| - 1] == x;
      }
      assert x !in multiset(sorted);
      InsertByDistinct(x, sorted, key, dir);
    }
  }

  // ---------------------------------------------------------------------------
  // Sort keys of the numeric columns (sortTable)
  // ---------------------------------------------------------------------------

  /** The 'number' value of the signatures cell: its text without commas. */
  function CountKey(r: TableRow): real
  {
    if r.Main? then r.cells.count as real else 0.0
  }

  /** The 'salience' value of the category cell (`data-salience`) and the 'number' value of the ratio cell (`data-value`). */
  function SalienceKey(r: TableRow): real
  {
    if r.Main? then r.cells.salience else 0.0
  }

  /** The 'number' value of the UK-total cell (`data-value`). */
  function UkTotalKey(r: TableRow): real
  {
    if r.Main? then r.cells.ukTotal as real else 0.0
  }

  /**
   * The rows `populateTable` appends for the sorted entries: for the k-th entry
   * a shown main row with detail id `DetailRowId(id, k)`, then the hidden detail
   * row with that id.
   */
  function Layout(es: seq<IndexEntry>, cellsOf: IndexEntry -> RowCells): (body: seq<TableRow>)
    ensures |body| == 2 * |es|
    ensures forall k :: 0 <= k < |es| ==>
      && body[2 * k] == Main(cellsOf(es[k]), DetailRowId(es[k].id, k), true)
      && body[2 * k + 1] == Detail(DetailRowId(es[k].id, k), false)
  {
    if es == [] then []
    else
      var n := |es| - 1;
      var id := DetailRowId(es[n].id, n);
      var pre := Layout(es[..n], cellsOf);
      assert forall k :: 0 <= k < n ==> es[..n][k] == es[k];
      pre + [Main(cellsOf(es[n]), id, true), Detail(id, false)]
  }

  /** Laying out one more entry appends its main row and its detail row. */
  lemma LayoutSnoc(es: seq<IndexEntry>, cellsOf: IndexEntry -> RowCells, n: nat)
    requires n < |es|
    ensures Layout(es[..n + 1], cellsOf) ==
      Layout(es[..n], cellsOf) + [Main(cellsOf(es[n]), DetailRowId(es[n].id, n), true), Detail(DetailRowId(es[n].id, n), false)]
  {
    assert es[..n + 1][..n] == es[..n];
  }

  lemma LayoutAt(es: seq<IndexEntry>, cellsOf: IndexEntry -> RowCells, i: nat)
    requires i < 2 * |es|
    ensures Layout(es, cellsOf)[i] ==
      if i % 2 == 0 then Main(cellsOf(es[i / 2]), DetailRowId(es[i / 2].id, i / 2), true)
      else Detail(DetailRowId(es[i / 2].id, i / 2), false)
  {
    var k := i / 2;
    assert i == 2 * k || i == 2 * k + 1;
  }

  /** The laid-out body is well formed: each detail-row id is used by one main row and one detail row. */
  lemma LayoutWellFormed(es: seq<IndexEntry>, cellsOf: IndexEntry -> RowCells)
    ensures WellFormed(Layout(es, cellsOf))
  {
    var b := Layout(es, cellsOf);
    forall i, j | 0 <= i < |b| && 0 <= j < |b| && i != j
      ensures b[i] != b[j]
      ensures b[i].Main? && b[j].Main? ==> b[i].detailId != b[j].detailId
      ensures b[i].Detail? && b[j].Detail? ==> b[i].id != b[j].id
    {
      LayoutAt(es, cellsOf, i);
      LayoutAt(es, cellsOf, j);
      DetailRowIdInjective(es[i / 2].id, i / 2, es[j / 2].id, j / 2);
    }
  }

  /** The main rows of a body, in order. */
  function Mains(body: seq<TableRow>): (r: seq<TableRow>)
    ensures forall x :: x in r <==> x in body && x.Main?
  {
    if body == [] then []
    else
      assert body == body[..|body| - 1] + [body[|body| - 1]];
      Mains(body[..|body| - 1]) + (if body[|body| - 1].Main? then [body[|body| - 1]] else [])
  }

  lemma {:induction false} MainsConcat(a: seq<TableRow>, b: seq<TableRow>)
    ensures Mains(a + b) == Mains(a) + Mains(b)
    decreases |b|
  {
    if b == [] {
      assert a + b == a;
    } else {
      var n := |b| - 1;
      assert (a + b)[..|a + b| - 1] == a + b[..n];
      MainsConcat(a, b[..n]);
    }
  }

  /** The displayed order: counts never increase from one main row (the even positions) to the next. */
  lemma LayoutOrdered(es: seq<IndexEntry>, cellsOf: IndexEntry -> RowCells)
    requires forall e :: cellsOf(e).count == e.count
    ensures forall k1, k2 :: 0 <= k1 < k2 < |es| ==>
      Layout(SortByCountDesc(es), cellsOf)[2 * k1].cells.count >=
      Layout(SortByCountDesc(es), cellsOf)[2 * k2].cells.count
  {
  }

  // ---------------------------------------------------------------------------
  // Filter tests shared by both pages (applyFilters)
  // ---------------------------------------------------------------------------

  /** The values of the written-response and debated filters: 'all', 'yes', 'no'. */
  datatype AnswerFilter = AnyAnswer | OnlyYes | OnlyNo

  /** The filter controls; `minSignatures` is `parseInt(value) || 0`, `createdAfter` an ISO date or ''. */
  datatype Filters = Filters(
    name: string,
    minSignatures: int,
    createdAfter: string,
    band: Salience.BandFilter,
    written: AnswerFilter,
    debated: AnswerFilter,
    topic: string)

  /** The petition-name test: the lower-cased link text includes the lower-cased filter text. */
  predicate NameKeeps(filter: string, petition: string)
  {
    Contains(LowerAscii(petition), LowerAscii(filter))
  }

  predicate CountKeeps(minSignatures: int, count: int)
  {
    !(count < minSignatures)
  }

  /** The created-date test: with a date set, a row without one or with an earlier one is hidden. */
  predicate DateKeeps(createdAfter: string, created: string)
  {
    && !(createdAfter != "" && created != "" && Less(created, createdAfter))
    && !(createdAfter != "" && created == "")
  }

  predicate AnswerKeeps(f: AnswerFilter, has: bool)
  {
    !(f == OnlyYes && !has) && !(f == OnlyNo && has)
  }

  /** The tests every page applies to a row. */
  predicate CommonKeeps(f: Filters, c: RowCells)
  {
    && NameKeeps(f.name, c.petition)
    && CountKeeps(f.minSignatures, c.count)
    && DateKeeps(f.createdAfter, c.created)
    && Salience.BandKeeps(f.band, c.salience)
    && AnswerKeeps(f.written, c.writtenResponse)
    && AnswerKeeps(f.debated, c.debated)
  }

  /** An empty name filter hides nothing. */
  lemma NameKeepsEmpty(petition: string)
    ensures NameKeeps("", petition)
  {
  }

  /**
   * The date test on ISO timestamps: no date set keeps every row; with a date
   * set, a missing date hides the row, a timestamp below the date hides it, and
   * a timestamp on that day (it starts with the date) keeps it.
   */
  lemma DateKeepsCases(createdAfter: string, created: string)
    ensures createdAfter == "" ==> DateKeeps(createdAfter, created)
    ensures createdAfter != "" && created == "" ==> !DateKeeps(createdAfter, created)
    ensures createdAfter != "" && Less(created, createdAfter) ==> !DateKeeps(createdAfter, created)
    ensures createdAfter <= created ==> DateKeeps(createdAfter, created)
  {
    if createdAfter <= created {
      PrefixNotLess(createdAfter, created);
    }
  }

  /** 'yes' keeps exactly the rows with the tick, 'no' exactly those without, 'all' every row. */
  lemma AnswerKeepsCases(has: bool)
    ensures AnswerKeeps(OnlyYes, has) <==> has
    ensures AnswerKeeps(OnlyNo, has) <==> !has
    ensures AnswerKeeps(AnyAnswer, has)
  {
  }

  /**
   * The tests both `applyFilters` run on a main row: `display` starts true and
   * each failing test sets it to false; nothing sets it back.
   */
  method CommonDisplay(f: Filters, c: RowCells) returns (display: bool)
    ensures display <==> CommonKeeps(f, c)
  {
    display := true;
    var nameFilter := LowerAscii(f.name);
    var petitionName := LowerAscii(c.petition);
    if nameFilter != "" && !Contains(petitionName, nameFilter) {
      display := false;
    }
    assert display == NameKeeps(f.name, c.petition);
    if c.count < f.minSignatures {
      display := false;
    }
    assert display == (NameKeeps(f.name, c.petition) && CountKeeps(f.minSignatures, c.count));
    if f.createdAfter != "" && c.created != "" {
      if Less(c.created, f.createdAfter) {
        display := false;
      }
    } else if f.createdAfter != "" && c.created == "" {
      display := false;
    }
    ghost var passed := NameKeeps(f.name, c.petition) && CountKeeps(f.minSignatures, c.count)
      && DateKeeps(f.createdAfter, c.created);
    assert display == passed;
    if f.band == Salience.MoreBand && c.salience <= 1.01 {
      display := false;
    } else if f.band == Salience.LessBand && c.salience >= 0.99 {
      display := false;
    } else if f.band == Salience.AboutBand && (c.salience > 1.01 || c.salience < 0.99) {
      display := false;
    }
    passed := passed && Salience.BandKeeps(f.band, c.salience);
    assert display == passed;
    if f.written == OnlyYes && !c.writtenResponse {
      display := false;
    } else if f.written == OnlyNo && c.writtenResponse {
      display := false;
    }
    passed := passed && AnswerKeeps(f.written, c.writtenResponse);
    assert display == passed;
    if f.debated == OnlyYes && !c.debated {
      display := false;
    } else if f.debated == OnlyNo && c.debated {
      display := false;
    }
  }

  // ---------------------------------------------------------------------------
  // The display pass (applyFilters)
  // ---------------------------------------------------------------------------

  /** Some main row among the first `n` points at detail id `id` (an empty id points nowhere). */
  ghost predicate LinkedBefore(body: seq<TableRow>, n: nat, id: string)
    requires n <= |body|
  {
    id != "" && exists m :: 0 <= m < n && body[m].Main? && body[m].detailId == id
  }

  /**
   * The body after the display pass: each main row shown exactly when `keep`
   * holds of its cells, each detail row some main row points at hidden, and
   * every other row as it was.
   */
  ghost function Filtered(body: seq<TableRow>, keep: RowCells -> bool): (r: seq<TableRow>)
    ensures |r| == |body|
  {
    seq(|body|, k requires 0 <= k < |body| =>
      match body[k]
      case Main(c, d, _) => Main(c, d, keep(c))
      case Detail(id, s) => Detail(id, s && !LinkedBefore(body, |body|, id)))
  }

  /** `document.getElementById(id)` among the rows: the first detail row with the id, or `|body|`. */
  function FindDetail(body: seq<TableRow>, id: string): (j: nat)
    ensures j <= |body|
    ensures j < |body| ==> body[j].Detail? && body[j].id == id
    ensures forall k :: 0 <= k < j ==> !(body[k].Detail? && body[k].id == id)
  {
    if body == [] then 0
    else if body[0].Detail? && body[0].id == id then 0
    else
      var j := FindDetail(body[1..], id);
      assert forall k :: 1 <= k < 1 + j ==> body[k] == body[1..][k - 1];
      1 + j
  }

  /** In a well-formed body the detail row found is the only one with the id. */
  lemma FindDetailUnique(body: seq<TableRow>, id: string, k: nat)
    requires WellFormed(body)
    requires k < |body| && body[k].Detail? && body[k].id == id
    ensures FindDetail(body, id) == k
  {
  }

  /** Rows with the same kinds and ids at every position have their detail rows at the same place. */
  lemma {:induction false} FindDetailSameIds(a: seq<TableRow>, b: seq<TableRow>, id: string)
    requires |a| == |b|
    requires forall k :: 0 <= k < |a| ==> (a[k].Detail? <==> b[k].Detail?) && (a[k].Detail? ==> a[k].id == b[k].id)
    ensures FindDetail(a, id) == FindDetail(b, id)
    decreases |a|
  {
    if a != [] && !(a[0].Detail? && a[0].id == id) {
      FindDetailSameIds(a[1..], b[1..], id);
    }
  }

  /** The body after the loop has handled its first `n` rows. */
  ghost function DisplayedUpTo(body: seq<TableRow>, keep: RowCells -> bool, n: nat): (r: seq<TableRow>)
    requires n <= |body|
    ensures |r| == |body|
  {
    seq(|body|, k requires 0 <= k < |body| =>
      match body[k]
      case Main(c, d, s) => if k < n then Main(c, d, keep(c)) else body[k]
      case Detail(id, s) => Detail(id, s && !LinkedBefore(body, n, id)))
  }

  lemma DisplayedNone(body: seq<TableRow>, keep: RowCells -> bool)
    ensures DisplayedUpTo(body, keep, 0) == body
  {
    var a := DisplayedUpTo(body, keep, 0);
    forall k | 0 <= k < |body|
      ensures a[k] == body[k]
    {
      assert body[k].Detail? ==> !LinkedBefore(body, 0, body[k].id);
    }
  }

  lemma DisplayedAll(body: seq<TableRow>, keep: RowCells -> bool)
    ensures DisplayedUpTo(body, keep, |body|) == Filtered(body, keep)
  {
    var a, b := DisplayedUpTo(body, keep, |body|), Filtered(body, keep);
    assert forall k :: 0 <= k < |body| ==> a[k] == b[k];
  }

  /** A detail row met by the loop changes nothing. */
  lemma DisplayStepDetail(body: seq<TableRow>, keep: RowCells -> bool, i: nat)
    requires i < |body| && body[i].Detail?
    ensures DisplayedUpTo(body, keep, i + 1) == DisplayedUpTo(body, keep, i)
  {
    forall id ensures LinkedBefore(body, i + 1, id) == LinkedBefore(body, i, id) {
    }
  }

  /** A main row without a detail id only gets its display set. */
  lemma DisplayStepPlain(body: seq<TableRow>, keep: RowCells -> bool, i: nat)
    requires i < |body| && body[i].Main? && body[i].detailId == ""
    ensures DisplayedUpTo(body, keep, i + 1) ==
      DisplayedUpTo(body, keep, i)[i := Main(body[i].cells, "", keep(body[i].cells))]
  {
    forall id ensures LinkedBefore(body, i + 1, id) == LinkedBefore(body, i, id) {
    }
  }

  /** A main row with a detail id gets its display set and hides the detail row `getElementById` finds, if any. */
  lemma DisplayStepLinked(body: seq<TableRow>, keep: RowCells -> bool, i: nat)
    requires WellFormed(body)
    requires i < |body| && body[i].Main? && body[i].detailId != ""
    ensures
      var d := body[i].detailId;
      var nb := DisplayedUpTo(body, keep, i)[i := Main(body[i].cells, d, keep(body[i].cells))];
      && (FindDetail(nb, d) < |nb| ==> nb[FindDetail(nb, d) := Detail(d, false)] == DisplayedUpTo(body, keep, i + 1))
      && (FindDetail(nb, d) == |nb| ==> nb == DisplayedUpTo(body, keep, i + 1))
  {
    var d := body[i].detailId;
    var nb := DisplayedUpTo(body, keep, i)[i := Main(body[i].cells, d, keep(body[i].cells))];
    var j := FindDetail(nb, d);
    FindDetailSameIds(nb, body, d);
    forall id | id != d
      ensures LinkedBefore(body, i + 1, id) == LinkedBefore(body, i, id)
    {
    }
    assert LinkedBefore(body, i + 1, d);
    if j < |nb| {
      forall k | 0 <= k < |body| && body[k].Detail? && body[k].id == d
        ensures k == j
      {
        FindDetailUnique(body, d, k);
      }
    }
  }

  /**
   * The loop of `applyFilters` over the main rows: set each row's display from
   * `keep`, and hide the detail row it points at.
   */
  method ApplyDisplay(body: seq<TableRow>, keep: RowCells -> bool) returns (nb: seq<TableRow>)
    requires WellFormed(body)
    ensures nb == Filtered(body, keep)
    ensures WellFormed(nb)
  {
    nb := body;
    var i := 0;
    DisplayedNone(body, keep);
    while i < |body|
      invariant 0 <= i <= |body|
      invariant nb == DisplayedUpTo(body, keep, i)
    {
      if body[i].Main? {
        var d := body[i].detailId;
        if d != "" {
          DisplayStepLinked(body, keep, i);
        } else {
          DisplayStepPlain(body, keep, i);
        }
        nb := nb[i := Main(body[i].cells, d, keep(body[i].cells))];
        if d != "" {
          var j := FindDetail(nb, d);
          if j < |nb| {
            nb := nb[j := Detail(d, false)];
          }
        }
      } else {
        DisplayStepDetail(body, keep, i);
      }
      i := i + 1;
    }
    DisplayedAll(body, keep);
    FilteredWellFormed(body, keep);
  }

  /** The display pass keeps the body well formed. */
  lemma FilteredWellFormed(body: seq<TableRow>, keep: RowCells -> bool)
    requires WellFormed(body)
    ensures WellFormed(Filtered(body, keep))
  {
    var r := Filtered(body, keep);
    forall i, j | 0 <= i < |r| && 0 <= j < |r| && i != j
      ensures r[i] != r[j]
    {
      assert r[i].Main? <==> body[i].Main?;
      assert r[j].Main? <==> body[j].Main?;
    }
  }

  /** After the pass a main row is shown exactly when it passes, and every linked detail row is hidden. */
  lemma FilteredShows(body: seq<TableRow>, keep: RowCells -> bool, k: nat)
    requires k < |body|
    ensures body[k].Main? ==> Filtered(body, keep)[k].shown == keep(body[k].cells)
    ensures body[k].Main? && body[k].detailId != "" ==>
      forall j :: 0 <= j < |body| && body[j].Detail? && body[j].id == body[k].detailId ==>
        !Filtered(body, keep)[j].shown
  {
    if body[k].Main? && body[k].detailId != "" {
      assert LinkedBefore(body, |body|, body[k].detailId);
    }
  }

  // ---------------------------------------------------------------------------
  // Re-append after sorting (sortTable)
  // ---------------------------------------------------------------------------

  /** The sequence without `x`. */
  function Without(s: seq<TableRow>, x: TableRow): (r: seq<TableRow>)
    ensures forall y :: y in r <==> y in s && y != x
  {
    if s == [] then [] else (if s[0] == x then [] else [s[0]]) + Without(s[1..], x)
  }

  /** The sequence without the elements of `xs`. */
  function WithoutAll(s: seq<TableRow>, xs: set<TableRow>): (r: seq<TableRow>)
    ensures forall y :: y in r <==> y in s && y !in xs
  {
    if s == [] then [] else (if s[0] in xs then [] else [s[0]]) + WithoutAll(s[1..], xs)
  }

  lemma {:induction false} WithoutConcat(a: seq<TableRow>, b: seq<TableRow>, x: TableRow)
    ensures Without(a + b, x) == Without(a, x) + Without(b, x)
    decreases |a|
  {
    if a == [] {
      assert a + b == b;
    } else {
      assert (a + b)[0] == a[0] && (a + b)[1..] == a[1..] + b;
      WithoutConcat(a[1..], b, x);
    }
  }

  lemma {:induction false} WithoutAbsent(s: seq<TableRow>, x: TableRow)
    requires x !in s
    ensures Without(s, x) == s
    decreases |s|
  {
    if s != [] {
      WithoutAbsent(s[1..], x);
      assert s == [s[0]] + s[1..];
    }
  }

  lemma {:induction false} WithoutOfWithoutAll(s: seq<TableRow>, xs: set<TableRow>, x: TableRow)
    ensures Without(WithoutAll(s, xs), x) == WithoutAll(s, xs + {x})
    decreases |s|
  {
    if s != [] {
      WithoutOfWithoutAll(s[1..], xs, x);
      var head := if s[0] in xs then [] else [s[0]];
      WithoutConcat(head, WithoutAll(s[1..], xs), x);
    }
  }

  lemma {:induction false} WithoutAllNone(s: seq<TableRow>)
    ensures WithoutAll(s, {}) == s
    decreases |s|
  {
    if s != [] {
      WithoutAllNone(s[1..]);
      assert s == [s[0]] + s[1..];
    }
  }

  lemma {:induction false} WithoutAllDistinct(s: seq<TableRow>, xs: set<TableRow>)
    requires Distinct(s)
    ensures Distinct(WithoutAll(s, xs))
    decreases |s|
  {
    if s != [] {
      WithoutAllDistinct(s[1..], xs);
      assert s[0] !in s[1..];
    }
  }

  /** `appendChild(x)` on a body that may already hold `x`: it leaves its place and goes last. */
  function AppendChild(body: seq<TableRow>, x: TableRow): seq<TableRow>
  {
    Without(body, x) + [x]
  }

  /** The detail row `getElementById(id)` finds, if any. */
  function DetailOf(body: seq<TableRow>, id: string): (r: Option<TableRow>)
    ensures r.Some? ==> r.value in body && r.value.Detail? && r.value.id == id
    ensures r.None? ==> forall x :: x in body && x.Detail? ==> x.id != id
  {
    var j := FindDetail(body, id);
    if j < |body| then Some(body[j]) else None
  }

  /** What `sortTable` appends for one main row: the row, then its detail row when it has one. */
  function Group(body: seq<TableRow>, row: TableRow): seq<TableRow>
    requires row.Main?
  {
    if row.detailId != "" && DetailOf(body, row.detailId).Some? then
      [row, DetailOf(body, row.detailId).value]
    else
      [row]
  }

  /** The groups of the sorted rows, one after another. */
  function Paired(body: seq<TableRow>, rows: seq<TableRow>): seq<TableRow>
    requires forall r :: r in rows ==> r.Main?
  {
    if rows == [] then []
    else Paired(body, rows[..|rows| - 1]) + Group(body, rows[|rows| - 1])
  }

  ghost function Elems(s: seq<TableRow>): set<TableRow>
  {
    set x | x in s
  }

  /** The rows in the order the sorted rows were given, followed by those not moved. */
  ghost function Reappended(body: seq<TableRow>, rows: seq<TableRow>): seq<TableRow>
    requires forall r :: r in rows ==> r.Main?
  {
    WithoutAll(body, Elems(Paired(body, rows))) + Paired(body, rows)
  }

  /** `rows` are the main rows of the body, each once, in the order the comparator chose. */
  ghost predicate SortedRowsOf(body: seq<TableRow>, rows: seq<TableRow>)
  {
    && Distinct(rows)
    && forall x :: x in rows <==> x in body && x.Main?
  }

  /** What a group of `Paired` can hold: a main row from `rows`, or the detail row one of them points at. */
  lemma {:induction false} PairedElems(body: seq<TableRow>, rows: seq<TableRow>, x: TableRow)
    requires forall r :: r in rows ==> r.Main?
    ensures x in Paired(body, rows) && x.Main? ==> x in rows
    ensures x in Paired(body, rows) && x.Detail? ==> x in body && exists r :: r in rows && r.detailId == x.id
    decreases |rows|
  {
    if rows != [] {
      var pre, r := rows[..|rows| - 1], rows[|rows| - 1];
      assert rows == pre + [r];
      PairedElems(body, pre, x);
    }
  }

  /** The next group shares no row with the groups before it. */
  lemma GroupFresh(body: seq<TableRow>, rows: seq<TableRow>, i: nat)
    requires WellFormed(body) && SortedRowsOf(body, rows)
    requires i < |rows|
    ensures forall r :: r in rows ==> r.Main?
    ensures forall x :: x in Group(body, rows[i]) ==> x !in Paired(body, rows[..i])
  {
    var r := rows[i];
    forall m | 0 <= m < i
      ensures rows[m] != r && rows[m].detailId != r.detailId
    {
      var a :| 0 <= a < |body| && body[a] == rows[m];
      var b :| 0 <= b < |body| && body[b] == r;
      assert a != b;
    }
    forall x | x in Group(body, r)
      ensures x !in Paired(body, rows[..i])
    {
      PairedElems(body, rows[..i], x);
    }
  }

  lemma ElemsSnoc(s: seq<TableRow>, x: TableRow)
    ensures Elems(s + [x]) == Elems(s) + {x}
  {
  }

  /** Appending a row not yet moved takes it out of the unmoved part and puts it after the moved ones. */
  lemma MoveRow(body: seq<TableRow>, done: seq<TableRow>, x: TableRow)
    requires x !in done && x in body
    requires forall y :: y in done ==> y in body
    ensures AppendChild(WithoutAll(body, Elems(done)) + done, x) == WithoutAll(body, Elems(done + [x])) + (done + [x])
    ensures forall y :: y in WithoutAll(body, Elems(done + [x])) + (done + [x]) <==> y in body
  {
    WithoutConcat(WithoutAll(body, Elems(done)), done, x);
    WithoutAbsent(done, x);
    WithoutOfWithoutAll(body, Elems(done), x);
    ElemsSnoc(done, x);
    MovedMembers(body, done + [x]);
  }

  /** The unmoved rows and the moved ones together are the rows of the body. */
  lemma MovedMembers(body: seq<TableRow>, done: seq<TableRow>)
    requires forall y :: y in done ==> y in body
    ensures forall y :: y in WithoutAll(body, Elems(done)) + done <==> y in body
  {
  }

  /** Rearranging the rows of a well-formed body does not change which detail row an id finds. */
  lemma SameRowsSameDetail(body: seq<TableRow>, s: seq<TableRow>, id: string)
    requires WellFormed(body)
    requires forall x :: x in s <==> x in body
    ensures DetailOf(s, id) == DetailOf(body, id)
  {
    var j, k := FindDetail(s, id), FindDetail(body, id);
    if k < |body| {
      assert body[k] in body;
      var p :| 0 <= p < |s| && s[p] == body[k];
      assert j <= p;
      assert s[j] in s;
      var q :| 0 <= q < |body| && body[q] == s[j];
      assert q == k;
    }
  }

  /** The next prefix of the groups, and every grouped row comes from the body. */
  lemma PairedNext(body: seq<TableRow>, rows: seq<TableRow>, i: nat)
    requires SortedRowsOf(body, rows) && i < |rows|
    ensures forall r :: r in rows ==> r.Main?
    ensures Paired(body, rows[..i + 1]) == Paired(body, rows[..i]) + Group(body, rows[i])
    ensures forall x :: x in Paired(body, rows[..i]) ==> x in body
  {
    assert rows[..i + 1][..i] == rows[..i] && rows[..i + 1][i] == rows[i];
    forall x | x in Paired(body, rows[..i])
      ensures x in body
    {
      PairedElems(body, rows[..i], x);
    }
  }

  /** Before the loop nothing has moved. */
  lemma ReappendedNone(body: seq<TableRow>, rows: seq<TableRow>)
    requires forall r :: r in rows ==> r.Main?
    ensures Reappended(body, rows[..0]) == body
  {
    assert Paired(body, rows[..0]) == [];
    assert Elems([]) == {};
    WithoutAllNone(body);
  }

  /** The body after the rows of `done` have been appended in that order. */
  ghost function Moved(body: seq<TableRow>, done: seq<TableRow>): seq<TableRow>
  {
    WithoutAll(body, Elems(done)) + done
  }

  /** The loop appends the next row: the rows stay those of the body and the detail row it finds is the body's. */
  lemma AppendRowStep(body: seq<TableRow>, rows: seq<TableRow>, i: nat)
    requires WellFormed(body) && SortedRowsOf(body, rows) && i < |rows|
    ensures forall r :: r in rows ==> r.Main?
    ensures Reappended(body, rows[..i]) == Moved(body, Paired(body, rows[..i]))
    ensures AppendChild(Moved(body, Paired(body, rows[..i])), rows[i]) == Moved(body, Paired(body, rows[..i]) + [rows[i]])
    ensures DetailOf(Moved(body, Paired(body, rows[..i]) + [rows[i]]), rows[i].detailId) == DetailOf(body, rows[i].detailId)
    ensures rows[i].detailId == "" || DetailOf(body, rows[i].detailId).None? ==>
      Moved(body, Paired(body, rows[..i]) + [rows[i]]) == Reappended(body, rows[..i + 1])
  {
    var r := rows[i];
    var done := Paired(body, rows[..i]);
    GroupFresh(body, rows, i);
    PairedNext(body, rows, i);
    MoveRow(body, done, r);
    SameRowsSameDetail(body, Moved(body, done + [r]), r.detailId);
    if r.detailId == "" || DetailOf(body, r.detailId).None? {
      assert Group(body, r) == [r];
    }
  }

  /** The detail row of the next row is in the body, not yet moved, and completes its group. */
  lemma DetailFresh(body: seq<TableRow>, rows: seq<TableRow>, i: nat)
    requires WellFormed(body) && SortedRowsOf(body, rows) && i < |rows|
    requires rows[i].Main? && rows[i].detailId != "" && DetailOf(body, rows[i].detailId).Some?
    ensures forall r :: r in rows ==> r.Main?
    ensures
      var done, dr := Paired(body, rows[..i]) + [rows[i]], DetailOf(body, rows[i].detailId).value;
      && dr !in done && dr in body
      && (forall y :: y in done ==> y in body)
      && done + [dr] == Paired(body, rows[..i + 1])
  {
    var r := rows[i];
    var dr := DetailOf(body, r.detailId).value;
    GroupFresh(body, rows, i);
    PairedNext(body, rows, i);
    assert Group(body, r) == [r, dr];
    assert dr in Group(body, r);
  }

  /** Then it appends the detail row found, which completes the group of the row. */
  lemma AppendDetailStep(body: seq<TableRow>, rows: seq<TableRow>, i: nat)
    requires WellFormed(body) && SortedRowsOf(body, rows) && i < |rows|
    requires rows[i].Main? && rows[i].detailId != "" && DetailOf(body, rows[i].detailId).Some?
    ensures forall r :: r in rows ==> r.Main?
    ensures AppendChild(Moved(body, Paired(body, rows[..i]) + [rows[i]]), DetailOf(body, rows[i].detailId).value)
      == Reappended(body, rows[..i + 1])
  {
    DetailFresh(body, rows, i);
    MoveRow(body, Paired(body, rows[..i]) + [rows[i]], DetailOf(body, rows[i].detailId).value);
  }

  /** One turn of the loop of `sortTable`: append row `i`, then the detail row it points at, if there is one. */
  method ReappendOne(body: seq<TableRow>, rows: seq<TableRow>, i: nat, nb: seq<TableRow>) returns (nb': seq<TableRow>)
    requires WellFormed(body) && SortedRowsOf(body, rows) && i < |rows|
    requires nb == Reappended(body, rows[..i])
    ensures nb' == Reappended(body, rows[..i + 1])
  {
    var r := rows[i];
    AppendRowStep(body, rows, i);
    ghost var moved := Moved(body, Paired(body, rows[..i]) + [r]);
    nb' := AppendChild(nb, r);
    assert nb' == moved;
    if r.detailId != "" {
      var j := FindDetail(nb', r.detailId);
      if j < |nb'| {
        assert DetailOf(body, r.detailId) == DetailOf(moved, r.detailId) == Some(nb'[j]);
        AppendDetailStep(body, rows, i);
        nb' := AppendChild(nb', nb'[j]);
      } else {
        assert DetailOf(body, r.detailId) == DetailOf(moved, r.detailId) == None;
      }
    }
  }

  /**
   * `sortTable`'s loop over the sorted rows: each row is appended, then the
   * detail row it points at, so every main row ends up directly followed by its
   * detail row, in the order of `rows`.
   */
  method Reappend(body: seq<TableRow>, rows: seq<TableRow>) returns (nb: seq<TableRow>)
    requires WellFormed(body) && SortedRowsOf(body, rows)
    ensures forall r :: r in rows ==> r.Main?
    ensures nb == Reappended(body, rows)
    ensures forall x :: x in nb <==> x in body
    ensures Distinct(nb) && Mains(nb) == rows && DetailsFollow(body, nb)
  {
    nb := body;
    var i := 0;
    ReappendedNone(body, rows);
    while i < |rows|
      invariant 0 <= i <= |rows|
      invariant nb == Reappended(body, rows[..i])
    {
      nb := ReappendOne(body, rows, i, nb);
      i := i + 1;
    }
    assert rows[..|rows|] == rows;
    ReappendedShape(body, rows);
  }

  /** The main rows of a body with no row twice are themselves without repetition. */
  lemma {:induction false} MainsDistinct(body: seq<TableRow>)
    requires Distinct(body)
    ensures Distinct(Mains(body))
    decreases |body|
  {
    if body != [] {
      var pre, x := body[..|body| - 1], body[|body| - 1];
      assert forall i, j :: 0 <= i < j < |pre| ==> pre[i] == body[i] && pre[j] == body[j];
      MainsDistinct(pre);
      if x.Main? {
        forall m | 0 <= m < |pre|
          ensures pre[m] != x
        {
          assert body[m] == pre[m];
        }
        DistinctConcat(Mains(pre), [x]);
      } else {
        assert Mains(body) == Mains(pre) + [];
      }
    }
  }

  /** A body holding the same rows as a well-formed one, each once, is well formed. */
  lemma SameRowsWellFormed(body: seq<TableRow>, nb: seq<TableRow>)
    requires WellFormed(body) && Distinct(nb)
    requires forall x :: x in nb <==> x in body
    ensures WellFormed(nb)
  {
    forall i, j | 0 <= i < |nb| && 0 <= j < |nb| && i != j
      ensures nb[i].Main? && nb[j].Main? ==> nb[i].detailId != nb[j].detailId
      ensures nb[i].Detail? && nb[j].Detail? ==> nb[i].id != nb[j].id
    {
      assert nb[i] in body && nb[j] in body;
      var i' :| 0 <= i' < |body| && body[i'] == nb[i];
      var j' :| 0 <= j' < |body| && body[j'] == nb[j];
      assert i' != j';
    }
  }

  /** Sorting the main rows of a well-formed body by a key gives an ordering `Reappend` accepts. */
  lemma SortByRowsOf(body: seq<TableRow>, key: TableRow -> real, dir: Direction)
    requires WellFormed(body)
    ensures SortedRowsOf(body, SortBy(Mains(body), key, dir))
  {
    MainsDistinct(body);
    SortByDistinct(Mains(body), key, dir);
    var r := SortBy(Mains(body), key, dir);
    forall x
      ensures x in r <==> x in body && x.Main?
    {
      assert x in r <==> x in multiset(r);
      assert x in Mains(body) <==> x in multiset(Mains(body));
    }
  }

  /**
   * `sortTable` on a numeric column: the main rows sorted by the column's value
   * in direction `dir`, each re-appended and followed by its detail row.
   */
  method SortTableBody(body: seq<TableRow>, key: TableRow -> real, dir: Direction) returns (nb: seq<TableRow>)
    requires WellFormed(body)
    ensures WellFormed(nb)
    ensures forall x :: x in nb <==> x in body
    ensures Mains(nb) == SortBy(Mains(body), key, dir)
    ensures OrderedBy(Mains(nb), key, dir)
    ensures DetailsFollow(body, nb)
  {
    var rows := SortBy(Mains(body), key, dir);
    SortByRowsOf(body, key, dir);
    nb := Reappend(body, rows);
    SameRowsWellFormed(body, nb);
  }

  lemma DistinctConcat(a: seq<TableRow>, b: seq<TableRow>)
    requires Distinct(a) && Distinct(b)
    requires forall x :: x in b ==> x !in a
    ensures Distinct(a + b)
  {
    var c := a + b;
    forall i, j | 0 <= i < j < |c|
      ensures c[i] != c[j]
    {
      if i < |a| && |a| <= j {
        assert c[j] == b[j - |a|] && c[j] in b;
      }
    }
  }

  lemma {:induction false} MainsNone(s: seq<TableRow>)
    requires forall x :: x in s ==> !x.Main?
    ensures Mains(s) == []
    decreases |s|
  {
    if s != [] {
      MainsNone(s[..|s| - 1]);
    }
  }

  lemma MainsOfGroup(body: seq<TableRow>, r: TableRow)
    requires r.Main?
    ensures Mains(Group(body, r)) == [r]
  {
    var g := Group(body, r);
    assert Mains([r]) == [r] by {
      assert [r][..0] == [];
    }
    if |g| == 2 {
      assert g[..1] == [r];
    }
  }

  /** The main rows of the groups are the sorted rows, in their order. */
  lemma {:induction false} PairedMains(body: seq<TableRow>, rows: seq<TableRow>)
    requires forall r :: r in rows ==> r.Main?
    ensures Mains(Paired(body, rows)) == rows
    decreases |rows|
  {
    if rows != [] {
      var pre, r := rows[..|rows| - 1], rows[|rows| - 1];
      PairedMains(body, pre);
      PairedMainsStep(body, rows);
    }
  }

  lemma PairedMainsStep(body: seq<TableRow>, rows: seq<TableRow>)
    requires rows != [] && forall x :: x in rows ==> x.Main?
    requires Mains(Paired(body, rows[..|rows| - 1])) == rows[..|rows| - 1]
    ensures Mains(Paired(body, rows)) == rows
  {
    var pre, r := rows[..|rows| - 1], rows[|rows| - 1];
    MainsConcat(Paired(body, pre), Group(body, r));
    MainsOfGroup(body, r);
    LastSplit(rows);
  }

  /** A non-empty sequence is its prefix followed by its last element. */
  lemma LastSplit<T>(s: seq<T>)
    requires s != []
    ensures s[..|s| - 1] + [s[|s| - 1]] == s
  {
  }

  /** Every main row of `s` whose detail row exists in `body` is directly followed by that detail row. */
  ghost predicate DetailsFollow(body: seq<TableRow>, s: seq<TableRow>)
  {
    forall k :: 0 <= k < |s| && s[k].Main? && s[k].detailId != "" && DetailOf(body, s[k].detailId).Some? ==>
      k + 1 < |s| && s[k + 1] == DetailOf(body, s[k].detailId).value
  }

  /** Inside the groups, a main row with a detail row is directly followed by it. */
  lemma {:induction false} PairedAdjacent(body: seq<TableRow>, rows: seq<TableRow>)
    requires forall r :: r in rows ==> r.Main?
    ensures DetailsFollow(body, Paired(body, rows))
    decreases |rows|
  {
    if rows != [] {
      var pre, r := rows[..|rows| - 1], rows[|rows| - 1];
      PairedAdjacent(body, pre);
      var p, g := Paired(body, pre), Group(body, r);
      var pg: seq<TableRow> := p + g;
      assert Paired(body, rows) == pg;
      forall k | 0 <= k < |pg| && pg[k].Main? && pg[k].detailId != "" && DetailOf(body, pg[k].detailId).Some?
        ensures k + 1 < |pg| && pg[k + 1] == DetailOf(body, pg[k].detailId).value
      {
        if k < |p| {
          assert pg[k] == p[k];
          assert k + 1 < |p|;
          assert pg[k + 1] == p[k + 1];
        } else {
          assert pg[k] == g[k - |p|];
          assert g[k - |p|].Main? && k == |p|;
          assert pg[k + 1] == g[1];
        }
      }
    }
  }

  lemma {:induction false} PairedDistinct(body: seq<TableRow>, rows: seq<TableRow>, i: nat)
    requires WellFormed(body) && SortedRowsOf(body, rows) && i <= |rows|
    ensures forall r :: r in rows ==> r.Main?
    ensures Distinct(Paired(body, rows[..i]))
    decreases i
  {
    if i > 0 {
      PairedDistinct(body, rows, i - 1);
      GroupFresh(body, rows, i - 1);
      PairedNext(body, rows, i - 1);
      DistinctConcat(Paired(body, rows[..i - 1]), Group(body, rows[i - 1]));
    }
  }

  /** Every row of the groups comes from the body, and no main row of the body stays outside them. */
  lemma PairedCovers(body: seq<TableRow>, rows: seq<TableRow>)
    requires SortedRowsOf(body, rows)
    ensures forall r :: r in rows ==> r.Main?
    ensures forall x :: x in Paired(body, rows) ==> x in body
    ensures forall x :: x in WithoutAll(body, Elems(Paired(body, rows))) ==> !x.Main?
  {
    var p := Paired(body, rows);
    forall x | x in p
      ensures x in body
    {
      PairedElems(body, rows, x);
    }
    PairedMains(body, rows);
    assert forall x :: x in rows ==> x in Mains(p);
  }

  /** `sortTable` keeps the same rows, each once. */
  lemma ReappendedRows(body: seq<TableRow>, rows: seq<TableRow>)
    requires WellFormed(body) && SortedRowsOf(body, rows)
    ensures forall r :: r in rows ==> r.Main?
    ensures forall x :: x in Reappended(body, rows) <==> x in body
    ensures Distinct(Reappended(body, rows))
  {
    var p := Paired(body, rows);
    assert rows[..|rows|] == rows;
    PairedDistinct(body, rows, |rows|);
    PairedCovers(body, rows);
    WithoutAllDistinct(body, Elems(p));
    DistinctConcat(WithoutAll(body, Elems(p)), p);
  }

  /** After `sortTable` the main rows stand in the order the comparator gave. */
  lemma ReappendedMains(body: seq<TableRow>, rows: seq<TableRow>)
    requires SortedRowsOf(body, rows)
    ensures forall r :: r in rows ==> r.Main?
    ensures Mains(Reappended(body, rows)) == rows
  {
    var p := Paired(body, rows);
    var u := WithoutAll(body, Elems(p));
    PairedCovers(body, rows);
    PairedMains(body, rows);
    MainsNone(u);
    MainsConcat(u, p);
  }

  /** After `sortTable` every main row that has a detail row is directly followed by it. */
  lemma ReappendedFollow(body: seq<TableRow>, rows: seq<TableRow>)
    requires SortedRowsOf(body, rows)
    ensures forall r :: r in rows ==> r.Main?
    ensures DetailsFollow(body, Reappended(body, rows))
  {
    var p := Paired(body, rows);
    var u := WithoutAll(body, Elems(p));
    var nb := u + p;
    PairedCovers(body, rows);
    PairedAdjacent(body, rows);
    forall k | 0 <= k < |nb| && nb[k].Main? && nb[k].detailId != "" && DetailOf(body, nb[k].detailId).Some?
      ensures k + 1 < |nb| && nb[k + 1] == DetailOf(body, nb[k].detailId).value
    {
      assert nb[k] !in u;
      assert k >= |u|;
      assert nb[k] == p[k - |u|] && nb[k + 1 - |u| + |u|] == nb[k + 1];
    }
  }

  /**
   * What `sortTable` leaves: the same rows, each once; the main rows in the
   * order the comparator gave; every main row that has a detail row directly
   * followed by it.
   */
  lemma ReappendedShape(body: seq<TableRow>, rows: seq<TableRow>)
    requires WellFormed(body) && SortedRowsOf(body, rows)
    ensures forall r :: r in rows ==> r.Main?
    ensures forall x :: x in Reappended(body, rows) <==> x in body
    ensures Distinct(Reappended(body, rows))
    ensures Mains(Reappended(body, rows)) == rows
    ensures DetailsFollow(body, Reappended(body, rows))
  {
    ReappendedRows(body, rows);
    ReappendedMains(body, rows);
    ReappendedFollow(body, rows);
  }
}

/**
 * The locality page (views/scripts/localities.js): for the constituency chosen,
 * a table of the petitions signed there with their local salience and topic,
 * a topic filter whose options come from the constituency's petitions, the
 * filters, and the sortable header.
 */
module Localities {
  import opened Petitions
  import opened Strings
  import Salience
  import opened Table

  /** The text standing for "no topic". */
  const NoTopic: string := "N/A"

  // ---------------------------------------------------------------------------
  // Lookups
  // ---------------------------------------------------------------------------

  /** `getUKTotal`: the petition's `signature_count`, or null when the petition is unknown or the count missing or 0. */
  function GetUKTotal(store: PetitionStore, id: PetitionId): (r: Option<int>)
    ensures r.Some? <==> id in store && store[id].signatureCount.Some? && store[id].signatureCount.value != 0
    ensures r.Some? ==> r.value == store[id].signatureCount.value
  {
    match Lookup(store, id)
    case None => None
    case Some(p) => if p.signatureCount.Some? && p.signatureCount.value != 0 then p.signatureCount else None
  }

  /** The salience `populateTable` computes for `count` local signatures of petition `id`. */
  function LocalSalience(store: PetitionStore, count: int, id: PetitionId): (s: real)
    ensures id in store && store[id].signatureCount.Some? && store[id].signatureCount.value > 0 ==>
      s * (store[id].signatureCount.value as real) == (count as real) * Salience.Constituencies
    ensures !(id in store && store[id].signatureCount.Some? && store[id].signatureCount.value > 0) ==> s == 0.0
    ensures count >= 0 ==> s >= 0.0
  {
    var total := GetUKTotal(store, id);
    if count >= 0 then
      Salience.RatioNonNegative(count, total);
      Salience.Ratio(count, total)
    else
      Salience.Ratio(count, total)
  }

  /** `petitionTopics[id] || 'N/A'`. */
  function TopicFor(topics: TopicStore, id: PetitionId): (t: string)
    ensures t != ""
    ensures id in topics && topics[id] != "" ==> t == topics[id]
    ensures !(id in topics && topics[id] != "") ==> t == NoTopic
  {
    if id in topics && topics[id] != "" then topics[id] else NoTopic
  }

  // ---------------------------------------------------------------------------
  // Topic options
  // ---------------------------------------------------------------------------

  /** Entry `e` of a constituency brings topic `t` to its topic filter. */
  predicate TopicOfEntry(topics: TopicStore, e: IndexEntry, t: string)
  {
    e.id in topics && topics[e.id] == t && t != "" && t != NoTopic
  }

  /**
   * The loop of the constituency `change` handler that collects the topics of
   * the petitions signed in the constituency, skipping '' and 'N/A'.
   */
  method RelevantTopics(index: ConstituencyIndex, topics: TopicStore, constituency: string) returns (r: set<string>)
    ensures constituency !in index ==> r == {}
    ensures constituency in index ==>
      forall t :: t in r <==> exists k :: 0 <= k < |index[constituency]| && TopicOfEntry(topics, index[constituency][k], t)
    ensures NoTopic !in r && "" !in r
  {
    r := {};
    if constituency in index {
      var entries := index[constituency];
      for i := 0 to |entries|
        invariant forall t :: t in r <==> exists k :: 0 <= k < i && TopicOfEntry(topics, entries[k], t)
      {
        var id := entries[i].id;
        if id in topics {
          var topic := topics[id];
          if topic != "" && topic != NoTopic {
            r := r + {topic};
          }
        }
      }
    }
  }

  /** The options of the topic filter once a constituency is chosen: `populateTopicFilter` of its relevant topics. */
  method ConstituencyTopicOptions(index: ConstituencyIndex, topics: TopicStore, constituency: string) returns (options: seq<string>)
    ensures |options| >= 1 && options[0] == "all" && StrictlySorted(options[1..])
    ensures forall t :: t in options[1..] <==>
      constituency in index && exists k :: 0 <= k < |index[constituency]| && TopicOfEntry(topics, index[constituency][k], t)
  {
    var relevant := RelevantTopics(index, topics, constituency);
    var relevantList := ElementsOf(relevant);
    options := TopicOptions(relevantList);
  }

  /** The elements of a sorted list that are usable topics, in the same order. */
  function UsableTopics(s: seq<string>): (r: seq<string>)
    requires StrictlySorted(s)
    ensures StrictlySorted(r)
    ensures forall t :: t in r <==> t in s && t != "" && t != NoTopic
  {
    if s == [] then []
    else
      var tail := s[1..];
      assert forall i :: 0 <= i < |tail| ==> tail[i] == s[i + 1];
      var rest := UsableTopics(tail);
      assert forall t :: t in rest ==> Less(s[0], t);
      if s[0] != "" && s[0] != NoTopic then [s[0]] + rest else rest
  }

  /** `populateTopicFilter`: 'all', then the distinct topics in ascending order, without '' and 'N/A'. */
  function TopicOptions(topics: seq<string>): (r: seq<string>)
    ensures |r| >= 1 && r[0] == "all"
    ensures StrictlySorted(r[1..])
    ensures forall t :: t in r[1..] <==> t in topics && t != "" && t != NoTopic
  {
    var r := ["all"] + UsableTopics(SortedDistinct(topics));
    assert r[1..] == UsableTopics(SortedDistinct(topics));
    r
  }

  /** `Object.values(petitionTopics)`, in some order. */
  method ValuesOf(topics: TopicStore) returns (vs: seq<string>)
    ensures forall t :: t in vs <==> t in topics.Values
  {
    vs := [];
    var rest := topics;
    while rest != map[]
      invariant forall k :: k in rest ==> k in topics && rest[k] == topics[k]
      invariant forall t :: t in topics.Values <==> t in vs || t in rest.Values
      invariant forall t :: t in vs ==> t in topics.Values
      decreases |rest|
    {
      var k :| k in rest;
      vs := vs + [rest[k]];
      rest := rest - {k};
    }
  }

  /** `Array.from(set)`, in some order. */
  method ElementsOf(s: set<string>) returns (xs: seq<string>)
    ensures forall t :: t in xs <==> t in s
  {
    xs := [];
    var rest := s;
    while rest != {}
      invariant rest <= s
      invariant forall t :: t in s <==> t in xs || t in rest
      invariant forall t :: t in xs ==> t in s
      decreases |rest|
    {
      var t :| t in rest;
      xs := xs + [t];
      rest := rest - {t};
    }
  }

  // ---------------------------------------------------------------------------
  // The topic cell and its note
  // ---------------------------------------------------------------------------

  /** The note appended to a topic in the table. */
  const AiNote: string := "(AI-generated, may not be accurate)"

  /** The text of the topic cell: the topic followed by a space and the note, or 'N/A'. */
  function TopicCellText(topic: string): string
  {
    if topic != NoTopic then topic + " " + AiNote else NoTopic
  }

  predicate OccursAt(s: string, sub: string, k: nat)
  {
    k + |sub| <= |s| && s[k..k + |sub|] == sub
  }

  /** The first position at or after `from` where `sub` occurs in `s`. */
  function FirstIndexOf(s: string, sub: string, from: nat): (r: Option<nat>)
    ensures r.Some? ==> from <= r.value && OccursAt(s, sub, r.value)
    ensures r.Some? ==> forall k :: from <= k < r.value ==> !OccursAt(s, sub, k)
    ensures r.None? ==> forall k :: from <= k ==> !OccursAt(s, sub, k)
    decreases |s| - from
  {
    if from + |sub| > |s| then None
    else if OccursAt(s, sub, from) then Some(from)
    else FirstIndexOf(s, sub, from + 1)
  }

  /** The first occurrence is the one with no occurrence before it. */
  lemma FirstIndexOfIs(s: string, sub: string, q: nat)
    requires OccursAt(s, sub, q)
    requires forall k :: 0 <= k < q ==> !OccursAt(s, sub, k)
    ensures FirstIndexOf(s, sub, 0) == Some(q)
  {
    var r := FirstIndexOf(s, sub, 0);
    assert r != None;
    assert r.value <= q;
  }

  /** The start of the run of `\s` characters that ends at `q`. */
  function RunStart(s: string, q: nat): (p: nat)
    requires q <= |s|
    ensures p <= q
    ensures forall k :: p <= k < q ==> IsWhitespace(s[k])
    ensures p == 0 || !IsWhitespace(s[p - 1])
  {
    if q == 0 || !IsWhitespace(s[q - 1]) then q else RunStart(s, q - 1)
  }

  /** `/\s*<note>/` matches `s` from `p`, the literal `note` starting at `q`. */
  ghost predicate NoteMatch(s: string, note: string, p: nat, q: nat)
  {
    && p <= q
    && OccursAt(s, note, q)
    && forall k :: p <= k < q ==> IsWhitespace(s[k])
  }

  /** The whitespace run before the first occurrence of the note is where the leftmost match starts. */
  lemma LeftmostNoteMatch(s: string, note: string, q: nat)
    requires FirstIndexOf(s, note, 0) == Some(q)
    ensures NoteMatch(s, note, RunStart(s, q), q)
    ensures forall p': nat, q': nat :: NoteMatch(s, note, p', q') ==> RunStart(s, q) <= p'
  {
    var p := RunStart(s, q);
    forall p': nat, q': nat | NoteMatch(s, note, p', q')
      ensures p <= p'
    {
      assert q <= q';
      if p > 0 {
        assert !IsWhitespace(s[p - 1]);
      }
    }
  }

  /**
   * `s.replace(/\s*<note>/, '')`: the leftmost match, the note together with
   * the whitespace before it, is removed; a text without the note is left as it is.
   */
  function StripNote(s: string, note: string): (r: string)
    ensures (forall p: nat, q: nat :: !NoteMatch(s, note, p, q)) ==> r == s
    ensures (exists p: nat, q: nat :: NoteMatch(s, note, p, q)) ==>
      exists p: nat, q: nat ::
        && NoteMatch(s, note, p, q)
        && (forall p': nat, q': nat :: NoteMatch(s, note, p', q') ==> p <= p')
        && r == s[..p] + s[q + |note|..]
  {
    match FirstIndexOf(s, note, 0)
    case None => s
    case Some(q) =>
      var p := RunStart(s, q);
      LeftmostNoteMatch(s, note, q);
      s[..p] + s[q + |note|..]
  }

  /** A note that starts with a character found nowhere else in it and does not end in a space. */
  predicate NoteShape(note: string)
  {
    && |note| >= 1
    && note[|note| - 1] != ' '
    && forall m :: 1 <= m < |note| ==> note[m] != note[0]
  }

  lemma AiNoteShape()
    ensures |AiNote| == 35
    ensures NoteShape(AiNote)
  {
  }

  /** No occurrence of the note in `t + " " + note` starts before the one appended. */
  lemma NoEarlierNote(t: string, note: string, k: nat)
    requires NoteShape(note) && !Contains(t, note) && k <= |t|
    ensures !OccursAt(t + " " + note, note, k)
  {
    var s := t + " " + note;
    var n := |note|;
    if k + n <= |t| {
      assert s[k..k + n] == t[k..k + n];
      ContainsAtWhen(t, note, k);
    } else if k + n > |t| + 1 {
      assert s[|t| + 1] == note[0];
      assert k + n <= |s| ==> s[k..k + n][|t| + 1 - k] == s[|t| + 1];
    } else {
      assert s[|t|] == ' ';
      assert s[k..k + n][n - 1] == s[|t|];
    }
  }

  lemma ContainsAtWhen(s: string, sub: string, i: nat)
    ensures i + |sub| <= |s| && s[i..i + |sub|] == sub ==> Contains(s, sub)
  {
    if i + |sub| <= |s| && s[i..i + |sub|] == sub {
      ContainsAt(s, sub, i);
    }
  }

  /**
   * Removing the note from `t + " " + note` gives back `t`, when `t` neither
   * contains the note nor ends in whitespace.
   */
  lemma StripNoteRoundTrip(t: string, note: string)
    requires NoteShape(note)
    requires !Contains(t, note)
    requires t == [] || !IsWhitespace(t[|t| - 1])
    ensures StripNote(t + " " + note, note) == t
  {
    var s := t + " " + note;
    FirstNoteAppended(t, note);
    RunBeforeAppended(t, note);
    assert s[..|t|] == t;
  }

  lemma FirstNoteAppended(t: string, note: string)
    requires NoteShape(note) && !Contains(t, note)
    ensures FirstIndexOf(t + " " + note, note, 0) == Some(|t| + 1)
  {
    var s := t + " " + note;
    var q := |t| + 1;
    assert s[q..q + |note|] == note;
    forall k | 0 <= k < q
      ensures !OccursAt(s, note, k)
    {
      NoEarlierNote(t, note, k);
    }
    FirstIndexOfIs(s, note, q);
  }

  lemma RunBeforeAppended(t: string, note: string)
    requires t == [] || !IsWhitespace(t[|t| - 1])
    ensures RunStart(t + " " + note, |t| + 1) == |t|
  {
    var s := t + " " + note;
    assert s[|t|] == ' ';
    if |t| > 0 {
      assert s[|t| - 1] == t[|t| - 1];
    }
  }

  /** The topic round trip of the table: the text of the topic cell, without its note, is the topic. */
  lemma StripAiNoteRoundTrip(t: string)
    requires t != NoTopic
    requires !Contains(t, AiNote)
    requires t == [] || !IsWhitespace(t[|t| - 1])
    ensures StripNote(TopicCellText(t), AiNote) == t
  {
    AiNoteShape();
    StripNoteRoundTrip(t, AiNote);
  }

  // ---------------------------------------------------------------------------
  // Filters (applyFilters)
  // ---------------------------------------------------------------------------

  /** The topic test: the selected value ('' read as 'all') is 'all' or the cell text without its note. */
  predicate TopicKeeps(topicFilter: string, cellText: string)
  {
    var selected := if topicFilter == "" then "all" else topicFilter;
    !(selected != "all" && StripNote(cellText, AiNote) != selected)
  }

  /**
   * For a row whose topic cell was written from `t`, the topic filter compares
   * against `t` itself: the row is kept under 'all' and under `t`, and hidden
   * under any other topic.
   */
  lemma TopicKeepsStored(f: string, t: string)
    requires t == NoTopic || (!Contains(t, AiNote) && (t == [] || !IsWhitespace(t[|t| - 1])))
    ensures TopicKeeps(f, TopicCellText(t)) <==> f == "" || f == "all" || f == t
  {
    if t == NoTopic {
      AiNoteShape();
      assert FirstIndexOf(NoTopic, AiNote, 0) == None;
    } else {
      StripAiNoteRoundTrip(t);
    }
  }

  /** The test `applyFilters` applies to one row of the locality table. */
  predicate LocalityKeeps(f: Filters, c: RowCells)
  {
    CommonKeeps(f, c) && TopicKeeps(f.topic, c.topicText)
  }

  function KeepFor(f: Filters): RowCells -> bool
  {
    c => LocalityKeeps(f, c)
  }

  /**
   * The body of the row loop of `applyFilters`: the tests shared with the
   * other page, then the topic test.
   */
  method RowDisplay(f: Filters, c: RowCells) returns (display: bool)
    ensures display <==> LocalityKeeps(f, c)
  {
    display := CommonDisplay(f, c);
    var topicFilter := if f.topic == "" then "all" else f.topic;
    var petitionTopic := StripNote(c.topicText, AiNote);
    if topicFilter != "all" && petitionTopic != topicFilter {
      display := false;
    }
  }

  // ---------------------------------------------------------------------------
  // Rows (populateTable)
  // ---------------------------------------------------------------------------

  /** The cells `populateTable` fills for one entry of the constituency. */
  function CellsOf(store: PetitionStore, topics: TopicStore, e: IndexEntry): RowCells
  {
    var details := Lookup(store, e.id);
    var total := GetUKTotal(store, e.id);
    RowCells(
      e.action,
      e.count,
      LocalSalience(store, e.count, e.id),
      TopicCellText(TopicFor(topics, e.id)),
      if details.Some? && details.value.createdAt.Some? then details.value.createdAt.value else "",
      if total.Some? then total.value else 0,
      details.Some? && details.value.hasGovernmentResponse,
      details.Some? && details.value.hasDebate)
  }

  function RowCellsOf(store: PetitionStore, topics: TopicStore): IndexEntry -> RowCells
  {
    e => CellsOf(store, topics, e)
  }

  /** One element of `currentDisplayed`. */
  datatype DisplayedEntry = DisplayedEntry(
    petition: string,
    count: int,
    created: Option<string>,
    salience: real,
    ukTotal: Option<int>,
    state: Option<string>,
    hasWrittenResponse: bool,
    hasDebate: bool,
    topic: string)

  function EntryOf(store: PetitionStore, topics: TopicStore, e: IndexEntry): DisplayedEntry
  {
    var details := Lookup(store, e.id);
    DisplayedEntry(
      e.action,
      e.count,
      if details.Some? then details.value.createdAt else None,
      LocalSalience(store, e.count, e.id),
      GetUKTotal(store, e.id),
      if details.Some? && details.value.state.Some? && details.value.state.value != "" then details.value.state else None,
      details.Some? && details.value.hasGovernmentResponse,
      details.Some? && details.value.hasDebate,
      TopicFor(topics, e.id))
  }

  function Entries(store: PetitionStore, topics: TopicStore, es: seq<IndexEntry>): seq<DisplayedEntry>
  {
    seq(|es|, k requires 0 <= k < |es| => EntryOf(store, topics, es[k]))
  }

  lemma EntriesSnoc(store: PetitionStore, topics: TopicStore, es: seq<IndexEntry>, n: nat)
    requires n < |es|
    ensures Entries(store, topics, es[..n + 1]) == Entries(store, topics, es[..n]) + [EntryOf(store, topics, es[n])]
  {
  }

  /**
   * The `forEach` of `populateTable` over the sorted entries: for each, a main
   * row linked to a detail row through the running counter, the detail row, and
   * an element of `currentDisplayed`.
   */
  method BuildRows(store: PetitionStore, topics: TopicStore, es: seq<IndexEntry>)
    returns (rows: seq<TableRow>, shown: seq<DisplayedEntry>)
    ensures rows == Layout(es, RowCellsOf(store, topics))
    ensures shown == Entries(store, topics, es)
  {
    var cellsOf := RowCellsOf(store, topics);
    rows, shown := [], [];
    var detailRowCounter := 0;
    while detailRowCounter < |es|
      invariant detailRowCounter <= |es|
      invariant rows == Layout(es[..detailRowCounter], cellsOf)
      invariant shown == Entries(store, topics, es[..detailRowCounter])
    {
      var e := es[detailRowCounter];
      var detailRowId := DetailRowId(e.id, detailRowCounter);
      LayoutSnoc(es, cellsOf, detailRowCounter);
      EntriesSnoc(store, topics, es, detailRowCounter);
      rows := rows + [Main(cellsOf(e), detailRowId, true), Detail(detailRowId, false)];
      shown := shown + [EntryOf(store, topics, e)];
      detailRowCounter := detailRowCounter + 1;
    }
    assert es[..|es|] == es;
  }

  /**
   * A row of the populated table is hidden by the topic filter exactly when a
   * topic other than its petition's is selected, as long as no topic text
   * contains the note or ends in whitespace.
   */
  lemma RowTopicFilter(store: PetitionStore, topics: TopicStore, e: IndexEntry, f: string)
    requires forall id :: id in topics ==> !Contains(topics[id], AiNote)
    requires forall id :: id in topics && topics[id] != "" ==> !IsWhitespace(topics[id][|topics[id]| - 1])
    ensures TopicKeeps(f, CellsOf(store, topics, e).topicText) <==> f == "" || f == "all" || f == TopicFor(topics, e.id)
  {
    TopicKeepsStored(f, TopicFor(topics, e.id));
  }

  /** The table `populateTable` leaves for the constituency's entries, after its call of `applyFilters`. */
  ghost function Populated(store: PetitionStore, topics: TopicStore, filters: Filters, entries: seq<IndexEntry>): seq<TableRow>
  {
    Filtered(Layout(SortByCountDesc(entries), RowCellsOf(store, topics)), KeepFor(filters))
  }

  /**
   * `populateTable`: the entries sorted by count, descending, each laid out as
   * a shown main row and its hidden detail row and recorded in
   * `currentDisplayed`, then `applyFilters`. Without data the table is left empty.
   */
  method PopulateRows(store: PetitionStore, topics: TopicStore, filters: Filters, data: Option<seq<IndexEntry>>)
    returns (body: seq<TableRow>, displayed: seq<DisplayedEntry>)
    ensures WellFormed(body)
    ensures data.None? ==> body == [] && displayed == []
    ensures data.Some? ==> body == Populated(store, topics, filters, data.value)
    ensures data.Some? ==> displayed == Entries(store, topics, SortByCountDesc(data.value))
  {
    body := [];
    displayed := [];
    if data.None? {
      return;
    }
    var es := SortByCountDesc(data.value);
    body, displayed := BuildRows(store, topics, es);
    LayoutWellFormed(es, RowCellsOf(store, topics));
    body := ApplyDisplay(body, KeepFor(filters));
  }

  /** `body` holds the rows of `populated`, its main rows re-ordered by signature count, descending. */
  ghost predicate SortedPopulation(body: seq<TableRow>, populated: seq<TableRow>)
  {
    && (forall x :: x in body <==> x in populated)
    && Mains(body) == SortBy(Mains(populated), CountKey, Desc)
    && OrderedBy(Mains(body), CountKey, Desc)
    && DetailsFollow(populated, body)
  }

  /**
   * The table part of the constituency `change` handler: `populateTable` with
   * the constituency's entries, then `sortTable` on the signature column,
   * descending. An unknown constituency leaves the table empty.
   */
  method SelectRows(store: PetitionStore, topics: TopicStore, filters: Filters, index: ConstituencyIndex, constituency: string)
    returns (body: seq<TableRow>, displayed: seq<DisplayedEntry>)
    ensures WellFormed(body)
    ensures constituency !in index ==> body == [] && displayed == []
    ensures constituency in index ==>
      SortedPopulation(body, Populated(store, topics, filters, index[constituency]))
    ensures constituency in index ==>
      displayed == Entries(store, topics, SortByCountDesc(index[constituency]))
  {
    body, displayed := PopulateRows(store, topics, filters, if constituency in index then Some(index[constituency]) else None);
    if constituency in index {
      body := SortTableBody(body, CountKey, Desc);
    }
  }

  /** Columns of the header that `sortTable` knows (`headerCellIndexMap`). */
  const HeaderCellIndexMap: seq<nat> := [0, 1, 2, 3, 4, 5, 6, 9]

  /** The filter values before the user changes any. */
  const NoFilters := Filters("", 0, "", Salience.AnyBand, AnyAnswer, AnyAnswer, "all")

  // ---------------------------------------------------------------------------
  // The page
  // ---------------------------------------------------------------------------

  /** The page's globals and the table body. */
  class LocalityPage {
    var store: PetitionStore
    var index: ConstituencyIndex
    var topics: TopicStore
    var body: seq<TableRow>
    var displayed: seq<DisplayedEntry>
    var sort: SortState
    var filters: Filters
    var topicOptions: seq<string>

    ghost predicate Valid()
      reads this
    {
      WellFormed(body)
    }

    /** The page after the data has loaded: normalised store, empty table, options from every topic. */
    constructor (raw: Option<RawPetitions>, index: ConstituencyIndex, topics: TopicStore)
      ensures Valid()
      ensures this.store == Normalise(raw) && this.index == index && this.topics == topics
      ensures body == [] && displayed == [] && sort == InitialSort && filters == NoFilters
      ensures |topicOptions| >= 1 && topicOptions[0] == "all" && StrictlySorted(topicOptions[1..])
      ensures forall t :: t in topicOptions[1..] <==> t in topics.Values && t != "" && t != NoTopic
    {
      var values := ValuesOf(topics);
      this.store := Normalise(raw);
      this.index := index;
      this.topics := topics;
      body := [];
      displayed := [];
      sort := InitialSort;
      filters := NoFilters;
      topicOptions := TopicOptions(values);
    }

    /** `applyFilters`: every main row shown exactly when it passes, every linked detail row hidden. */
    method ApplyFilters()
      requires Valid()
      modifies this`body
      ensures Valid()
      ensures body == Filtered(old(body), KeepFor(filters))
    {
      body := ApplyDisplay(body, KeepFor(filters));
    }

    /** A filter control changes, then `applyFilters` runs. */
    method ChangeFilters(f: Filters)
      requires Valid()
      modifies this`filters, this`body
      ensures Valid()
      ensures filters == f
      ensures body == Filtered(old(body), KeepFor(f))
    {
      filters := f;
      ApplyFilters();
    }

    /**
     * `sortTable` for the column at `columnIndex`, `key` giving each main row's
     * value in that column: an index outside `headerCellIndexMap` changes nothing.
     */
    method SortTable(columnIndex: int, key: TableRow -> real, dir: Direction)
      requires Valid()
      modifies this`body
      ensures Valid()
      ensures !(0 <= columnIndex < |HeaderCellIndexMap|) ==> body == old(body)
      ensures 0 <= columnIndex < |HeaderCellIndexMap| ==>
        && (forall x :: x in body <==> x in old(body))
        && Mains(body) == SortBy(Mains(old(body)), key, dir)
        && DetailsFollow(old(body), body)
    {
      if 0 <= columnIndex < |HeaderCellIndexMap| {
        body := SortTableBody(body, key, dir);
      }
    }

    /** A click on the header of column `index`: the sort state moves on and the table is sorted by it. */
    method ClickHeader(index: int, key: TableRow -> real)
      requires Valid()
      modifies this`sort, this`body
      ensures Valid()
      ensures sort == Click(old(sort), index)
      ensures !(0 <= index < |HeaderCellIndexMap|) ==> body == old(body)
      ensures 0 <= index < |HeaderCellIndexMap| ==>
        && (forall x :: x in body <==> x in old(body))
        && Mains(body) == SortBy(Mains(old(body)), key, sort.direction)
        && DetailsFollow(old(body), body)
    {
      sort := Click(sort, index);
      SortTable(index, key, sort.direction);
    }

    /** `populateTable` on this page's store, topics and filters. */
    method PopulateTable(data: Option<seq<IndexEntry>>)
      modifies this`body, this`displayed
      ensures Valid()
      ensures data.None? ==> body == [] && displayed == []
      ensures data.Some? ==> body == Populated(store, topics, filters, data.value)
      ensures data.Some? ==> displayed == Entries(store, topics, SortByCountDesc(data.value))
    {
      var rows, shown := PopulateRows(store, topics, filters, data);
      body, displayed := rows, shown;
    }

    /**
     * The constituency `change` handler: topic options from the
     * constituency's petitions, the topic filter back to 'all', the sort state
     * back to the signature column descending, the table populated, then
     * sorted by that column.
     */
    method SelectConstituency(constituency: string)
      requires Valid()
      modifies this`body, this`displayed, this`sort, this`filters, this`topicOptions
      ensures Valid()
      ensures sort == InitialSort
      ensures filters == old(filters).(topic := "all")
      ensures |topicOptions| >= 1 && topicOptions[0] == "all" && StrictlySorted(topicOptions[1..])
      ensures forall t :: t in topicOptions[1..] <==>
        constituency in index && exists k :: 0 <= k < |index[constituency]| && TopicOfEntry(topics, index[constituency][k], t)
      ensures constituency !in index ==> body == [] && displayed == []
      ensures constituency in index ==>
        SortedPopulation(body, Populated(store, topics, filters, index[constituency]))
      ensures constituency in index ==>
        displayed == Entries(store, topics, SortByCountDesc(index[constituency]))
    {
      topicOptions := ConstituencyTopicOptions(index, topics, constituency);
      ShowConstituency(constituency);
    }

    /** The table part of the `change` handler: filter and sort state reset, rows populated and sorted. */
    method ShowConstituency(constituency: string)
      modifies this`body, this`displayed, this`sort, this`filters
      ensures Valid()
      ensures sort == InitialSort
      ensures filters == old(filters).(topic := "all")
      ensures constituency !in index ==> body == [] && displayed == []
      ensures constituency in index ==>
        SortedPopulation(body, Populated(store, topics, filters, index[constituency]))
      ensures constituency in index ==>
        displayed == Entries(store, topics, SortByCountDesc(index[constituency]))
    {
      filters := filters.(topic := "all");
      sort := InitialSort;
      var rows, shown := SelectRows(store, topics, filters, index, constituency);
      body, displayed := rows, shown;
    }
  }
}

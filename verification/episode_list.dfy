/**
 * The episode list builder `getEpisodeList` (ImdbTvShowParser.java, lines 307-377):
 * every row of every table of the "/epdate" page whose text holds a
 * season.episode match and a title link becomes one entry, in document order.
 */
module EpisodeList {
  import opened Wrappers
  import opened JavaText
  import opened Media
  import opened Pages
  import opened IdExtractor
  import opened RowPattern
  import opened Search

  /**
   * The rating of a row: tried only with at least four cells, and attached only
   * when the third cell parses as the rating and the fourth as the vote count;
   * any failure leaves the entry without a rating.
   */
  function RowRating(cells: seq<string>, ext: Collaborators): seq<Rating> {
    if |cells| < 4 then []
    else match (ext.parseFloat(cells[2]), ext.parseVotes(cells[3]))
      case (Some(value), Some(votes)) => [Rating(ProviderId, value, votes)]
      case _ => []
  }

  /** The entry built from a row with parsed numbers and its first title link. */
  function NewEntry(season: int, episode: int, link: Link, cells: seq<string>, ext: Collaborators): Metadata {
    var id := LastGroup(ext.imdbIdGroups(link.href));
    Empty().(seasonNumber := season, episodeNumber := episode, title := link.text,
             imdbId := if IsBlank(id) then None else Some(id),
             ratings := RowRating(cells, ext))
  }

  /**
   * The entry a row yields; None when the row is skipped: no match, a group that
   * `Integer.parseInt` rejects, or no title link (each an exception caught per row).
   */
  function RowEntry(row: ListRow, ext: Collaborators): Option<Metadata> {
    match Find(row.text)
    case None => None
    case Some(m) =>
      match (ParseInt(m.season), ParseInt(m.episode))
      case (Some(season), Some(episode)) =>
        if row.titleLinks == [] then None
        else Some(NewEntry(season, episode, row.titleLinks[0], row.cells, ext))
      case _ => None
  }

  /** The row body as a mapping from rows to optional entries. */
  function RowOf(ext: Collaborators): ListRow -> Option<Metadata> {
    (row: ListRow) => RowEntry(row, ext)
  }

  /** The entries of a sequence of rows, in row order. */
  function RowsEntries(rows: seq<ListRow>, ext: Collaborators): seq<Metadata> {
    FilterMap(rows, RowOf(ext))
  }

  /** A table's rows as a mapping from tables to their entries. */
  function TableOf(ext: Collaborators): ListTable -> seq<Metadata> {
    (table: ListTable) => RowsEntries(table.rows, ext)
  }

  /** The entries of a sequence of tables, table after table. */
  function TablesEntries(tables: seq<ListTable>, ext: Collaborators): seq<Metadata> {
    FlatMap(tables, TableOf(ext))
  }

  /** The list `getEpisodeList` returns: nothing for a blank id. */
  function EpisodeListOf(imdbId: string, page: EpisodeListPage, ext: Collaborators): seq<Metadata> {
    if IsBlank(imdbId) then [] else TablesEntries(page.tables, ext)
  }

  /** The page `getEpisodeList` fetches: none for a blank id. */
  function EpisodeListRequests(imdbId: string, root: string, acceptLanguage: string): seq<Request> {
    if IsBlank(imdbId) then [] else [Request(TitleUrl(root, imdbId, "/epdate"), acceptLanguage)]
  }

  /** The body of the row loop, with the per-row catch turned into None. */
  method ParseRow(row: ListRow, ext: Collaborators) returns (entry: Option<Metadata>)
    ensures entry == RowOf(ext)(row)
  {
    var m := Find(row.text);
    if m.None? {
      return None;
    }
    var season := ParseInt(m.value.season);
    if season.None? {
      return None;
    }
    var episode := ParseInt(m.value.episode);
    if episode.None? {
      return None;
    }
    var ep := Empty();
    ep := ep.(seasonNumber := season.value);
    ep := ep.(episodeNumber := episode.value);
    if |row.titleLinks| == 0 {
      return None;
    }
    var anchor := row.titleLinks[0];
    ep := ep.(title := anchor.text);
    var id := ExtractId(ext.imdbIdGroups(anchor.href));
    if !IsBlank(id) {
      ep := ep.(imdbId := Some(id));
    }
    var cols := row.cells;
    if |cols| >= 4 {
      var value := ext.parseFloat(cols[2]);
      if value.Some? {
        var votes := ext.parseVotes(cols[3]);
        if votes.Some? {
          ep := ep.(ratings := ep.ratings + [Rating(ProviderId, value.value, votes.value)]);
        }
      }
    }
    assert ep.ratings == RowRating(cols, ext);
    assert ep == NewEntry(season.value, episode.value, anchor, cols, ext);
    return Some(ep);
  }

  /** The inner loop over one table's rows, collecting each row's entry. */
  method ParseRows(rows: seq<ListRow>, ext: Collaborators) returns (entries: seq<Metadata>)
    ensures entries == RowsEntries(rows, ext)
  {
    entries := [];
    var r := 0;
    while r < |rows|
      invariant 0 <= r <= |rows|
      invariant entries == FilterMap(rows[..r], RowOf(ext))
    {
      var entry := ParseRow(rows[r], ext);
      FilterMapStep(rows, r, RowOf(ext));
      if entry.Some? {
        entries := entries + [entry.value];
      }
      r := r + 1;
    }
    assert rows[..r] == rows;
  }

  /** `getEpisodeList`: the loop over tables, appending each table's entries. */
  method BuildEpisodeList(imdbId: string, root: string, acceptLanguage: string,
                          page: EpisodeListPage, ext: Collaborators)
    returns (episodes: seq<Metadata>, fetched: seq<Request>)
    ensures episodes == EpisodeListOf(imdbId, page, ext)
    ensures fetched == EpisodeListRequests(imdbId, root, acceptLanguage)
  {
    episodes := [];
    fetched := [];
    if IsBlank(imdbId) {
      return;
    }
    fetched := [Request(TitleUrl(root, imdbId, "/epdate"), acceptLanguage)];
    var tables := page.tables;
    var t := 0;
    while t < |tables|
      invariant 0 <= t <= |tables|
      invariant episodes == FlatMap(tables[..t], TableOf(ext))
    {
      var entries := ParseRows(tables[t].rows, ext);
      episodes := episodes + entries;
      assert tables[..t + 1][..t] == tables[..t];
      t := t + 1;
    }
    assert tables[..t] == tables;
  }

  /**
   * A row whose text holds "S.E" (decimal, within int range, preceded by text with
   * no dot that does not end in a digit, followed by a non-digit) and that has a title
   * link yields an entry with exactly that season and episode and the link's text.
   */
  lemma NumberedRow(row: ListRow, prefix: string, season: nat, episode: nat, suffix: string,
                    ext: Collaborators)
    requires row.text == prefix + Decimal(season) + "." + Decimal(episode) + suffix
    requires forall k :: 0 <= k < |prefix| ==> prefix[k] != '.'
    requires prefix == [] || !IsDigit(prefix[|prefix| - 1])
    requires suffix == [] || !IsDigit(suffix[0])
    requires season <= MaxInt && episode <= MaxInt
    requires row.titleLinks != []
    ensures RowEntry(row, ext).Some?
    ensures RowEntry(row, ext).value.seasonNumber == season
    ensures RowEntry(row, ext).value.episodeNumber == episode
    ensures RowEntry(row, ext).value.title == row.titleLinks[0].text
  {
    DecimalValue(season);
    DecimalValue(episode);
    NumberedText(prefix, Decimal(season), Decimal(episode), suffix);
    ParseIntDecimal(season);
    ParseIntDecimal(episode);
  }

  /** A row reading "Pilot. 1.1" is skipped even with a title link: its first match has empty groups. */
  lemma PilotRowSkipped(row: ListRow, ext: Collaborators)
    requires row.text == "Pilot. 1.1"
    ensures RowEntry(row, ext) == None
  {
    PilotTitleMatch();
    ParseIntDecimal(0);
  }

  /** A non-blank id that is the group of some match with no non-null group after it. */
  predicate IdIsLastGroup(id: string, groups: seq<Option<string>>) {
    !IsBlank(id) &&
    exists k :: 0 <= k < |groups| && groups[k] == Some(id) &&
                forall j :: k < j < |groups| ==> groups[j].None?
  }

  /**
   * What an entry holds: numbers that are Java ints parsed from the two groups of the
   * leftmost match, the first title link's text, the id only when the last non-null
   * id group is not blank, and at most one rating, present exactly when four cells
   * exist and both columns parse.
   */
  lemma EntryFields(row: ListRow, ext: Collaborators)
    requires RowEntry(row, ext).Some?
    ensures var e := RowEntry(row, ext).value;
      && row.titleLinks != []
      && Find(row.text).Some?
      && ParseInt(Find(row.text).value.season) == Some(e.seasonNumber)
      && ParseInt(Find(row.text).value.episode) == Some(e.episodeNumber)
      && 0 <= e.seasonNumber <= MaxInt && 0 <= e.episodeNumber <= MaxInt
      && e.title == row.titleLinks[0].text
      && (e.imdbId.None? <==> IsBlank(LastGroup(ext.imdbIdGroups(row.titleLinks[0].href))))
      && (e.imdbId.Some? ==> IdIsLastGroup(e.imdbId.value, ext.imdbIdGroups(row.titleLinks[0].href)))
      && |e.ratings| <= 1
      && (|e.ratings| == 1 <==> |row.cells| >= 4 && ext.parseFloat(row.cells[2]).Some?
                                 && ext.parseVotes(row.cells[3]).Some?)
      && (|e.ratings| == 1 ==> e.ratings[0] == Rating(ProviderId, ext.parseFloat(row.cells[2]).value,
                                                      ext.parseVotes(row.cells[3]).value))
  {
    var groups := ext.imdbIdGroups(row.titleLinks[0].href);
    LastGroupIsLast(groups);
    var id := LastGroup(groups);
    if !IsBlank(id) {
      assert exists k :: 0 <= k < |groups| && groups[k].Some?;
    }
  }

  /** An entry is in the page's list exactly when some row of some table yields it. */
  lemma TablesEntriesMembers(tables: seq<ListTable>, ext: Collaborators, e: Metadata)
    ensures e in TablesEntries(tables, ext) <==>
            exists t, r :: 0 <= t < |tables| && 0 <= r < |tables[t].rows| &&
                           RowEntry(tables[t].rows[r], ext) == Some(e)
  {
    FlatMapMembers(tables, TableOf(ext), e);
    forall t | 0 <= t < |tables|
      ensures e in RowsEntries(tables[t].rows, ext) <==>
              exists r :: 0 <= r < |tables[t].rows| && RowEntry(tables[t].rows[r], ext) == Some(e)
    {
      FilterMapMembers(tables[t].rows, RowOf(ext), e);
    }
  }
}

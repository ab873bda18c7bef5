# IMDb TV show parser, modelled in Dafny

This project models the core of tinyMediaManager's IMDb TV show scraper,
`ImdbTvShowParser`. The parser turns IMDb pages into `MediaMetadata` records.
Four operations are modelled:

- **`getMetadata`** dispatches on the requested media type.
- **`getTvShowMetadata`** chooses an IMDb id and merges the "/combined" and
  "/plotsummary" pages into one record.
- **`getEpisodeMetadata`** checks its preconditions first. It then finds the
  wanted episode in the episode list and reads that episode's `h4` block on the
  "/epcast" page (release date, plot, actors). Finally it reads the directors and
  writers from the episode's own title page.
- **`getEpisodeList`** turns table rows of the "/epdate" page into episode entries.
  A row becomes an entry when it has a title link and both groups of the leftmost
  match of `([0-9]*)\.([0-9]*)` in its text are accepted by `Integer.parseInt`.

How pages and outside calls appear in the model:

- Pages are inputs (`Pages.Site`), already reduced to the elements the parser
  selects from them.
- Every page fetch is recorded, in order, as a `Media.Request` (URL and
  Accept-Language). So the model states both what is returned and what is fetched.
- Each `NullPointerException` the Java code can hit on a malformed cast page is
  the `Failure` side of the result:
  - no `tn15content` region;
  - no element after the matched `h4`;
  - no `div` after the matched `h4`.
- Calls into code outside this class are parameters (`Media.Collaborators`):
  - the IMDb id regular expression, given as the list of its matches' first groups;
  - `Float.parseFloat`;
  - `MetadataUtil.parseInt` and `MetadataUtil.isValidImdbId`;
  - the release date format;
  - the base class's `parseCombinedPage` and `parsePlotsummaryPage`.

An entry without an id is matched against the cast page's headings by the text "null",
as Java's string concatenation renders a missing id (`EpisodeAssembler.WantedKey`).

A rating is attached only when both the value and the vote count parse, because one
`catch` covers both parses (ImdbTvShowParser.java:355-364).

Each loop of the source is a method, proved against a function that specifies it:

| method | specified by |
|---|---|
| `EpisodeList.BuildEpisodeList` | `EpisodeList.EpisodeListOf` |
| `IdExtractor.ExtractId` | `IdExtractor.LastGroup` |
| `Search.FindFirst` | `Search.FirstWhere` |
| `EpisodeList.ParseRows` and the cast and crew loops | `Search.FilterMap` |
| `EpisodeAssembler.EpisodeMetadata` | `EpisodeAssembler.EpisodeScrape`, built from `EpisodeAssembler.WantedScrape` (the cast page and the credits once the wanted entry is known) and `EpisodeAssembler.Credits` (the directors and writers, lines 263-292) |
| `TvShowParser.GetMetadata`, for shows | `ShowAssembler.ShowScrape`, the model of `getTvShowMetadata` |

Lemmas state the properties of those functions.

Modules:

- `Wrappers`: `Option` and `Result`.
- `JavaText`: the Java library behaviour the parser relies on:
  - `Character.isWhitespace`, `StringUtils.isBlank`;
  - `String.endsWith`, `String.contains`;
  - `Integer.parseInt`.
- `Media`: the metadata record, scrape options, requests, and the outside
  collaborators.
- `Pages`: the page views.
- `Search`: the first-match scan (`FirstWhere` and its loop `FindFirst`), and the
  `FilterMap` and `FlatMap` functions that specify the append loops.
- `IdExtractor`: the last-match-wins id loop.
- `RowPattern`: the leftmost match of `([0-9]*)\.([0-9]*)`.
- `EpisodeList`: `getEpisodeList`.
- `EpisodeAssembler`: `getEpisodeMetadata`.
- `ShowAssembler`: `getTvShowMetadata`.
- `TvShowParser`: `getMetadata`.

## Model

| member | source | states |
|---|---|---|
| TvShowParser.GetMetadata | src/main/java/org/tinymediamanager/scraper/imdb/ImdbTvShowParser.java:82-94 | Dispatch on the requested kind. TV shows go to the show assembler and episodes to the episode assembler. Any other kind gives the empty record and fetches nothing. |
| ShowAssembler.ShowId | src/main/java/org/tinymediamanager/scraper/imdb/ImdbTvShowParser.java:112-126 | Id precedence. A valid search-result id always wins; otherwise the option's id is used. The chosen id is always valid and is one of those two. There is no id exactly when neither is valid; a missing search result counts as "". |
| ShowAssembler.ShowScrapeFetches | src/main/java/org/tinymediamanager/scraper/imdb/ImdbTvShowParser.java:109-147 | With no valid id: nothing is fetched and the record is empty. With a valid id: "/combined" then "/plotsummary" are fetched for that id, and the record carries that id, whatever the two page parsers set. |
| EpisodeAssembler.EpisodeMetadata | src/main/java/org/tinymediamanager/scraper/imdb/ImdbTvShowParser.java:157-296 | The imperative `getEpisodeMetadata` returns exactly the record, failure and fetch trace of its specification `EpisodeScrape`. |
| EpisodeAssembler.ShortCircuit | src/main/java/org/tinymediamanager/scraper/imdb/ImdbTvShowParser.java:157-171 | A blank id, or a season or episode number of -1, gives the empty record and no fetch at all. |
| EpisodeAssembler.EpisodeNotListed | src/main/java/org/tinymediamanager/scraper/imdb/ImdbTvShowParser.java:175-188 | When no list entry has the wanted season and episode, the result is the empty record, and only the "/epdate" page was fetched. |
| EpisodeAssembler.FromFirstMatchingEntry | src/main/java/org/tinymediamanager/scraper/imdb/ImdbTvShowParser.java:177-183 | A record with a season set has the wanted season and episode. Its id, title and ratings come from the first list entry, in list order, with those numbers. |
| EpisodeAssembler.FetchOrder | src/main/java/org/tinymediamanager/scraper/imdb/ImdbTvShowParser.java:157-296 | At most three pages are fetched, and none exactly when a precondition fails. The order is "/epdate", then "/epcast", then a third page, which alone is requested in English. |
| EpisodeAssembler.CreditsFetch | src/main/java/org/tinymediamanager/scraper/imdb/ImdbTvShowParser.java:263-293 | The title page is fetched exactly when the preconditions hold, the wanted episode is listed, its cast page is read without failure and its id is a non-blank string. It is then the title page of that id, requested in English. When it has a plot_summary region, the returned cast is the cast page's actors, then that region's directors, then its writers. |
| EpisodeAssembler.NoCreditsWithoutEpisodeId | src/main/java/org/tinymediamanager/scraper/imdb/ImdbTvShowParser.java:263-293 | When the wanted entry has no non-blank id, the credits block is skipped: at most two pages are fetched, and the record holds actors only, no director and no writer. |
| EpisodeAssembler.OnlyActorsKept | src/main/java/org/tinymediamanager/scraper/imdb/ImdbTvShowParser.java:248-253 | The actor loop adds only cast members of the actor type. |
| EpisodeAssembler.ReadCastPage | src/main/java/org/tinymediamanager/scraper/imdb/ImdbTvShowParser.java:196-261 | The h4 loop equals `CastPageUpdate`. Only the first h4 whose first title link ends in the wanted id plus "/" is read; a missing id reads as "null". With no such h4 the record stays empty. |
| EpisodeAssembler.ReadHeading | src/main/java/org/tinymediamanager/scraper/imdb/ImdbTvShowParser.java:206-259 | The matched-h4 branch equals `HeadingDetails`. It copies the entry's fields and reads the date and plot only after a `b` element. It appends the accepted actors of the first div after the h4, and fails where the Java code would throw. |
| EpisodeAssembler.HeadingDetails | src/main/java/org/tinymediamanager/scraper/imdb/ImdbTvShowParser.java:206-259 | Reading the matched h4 fails exactly when there is no element or no div after it. Otherwise:<br>- the record is the seeded entry, with only the release date, plot and cast changed;<br>- the cast is exactly the accepted rows of the first div after the h4;<br>- when the element after the h4 is a `b`, the date is its parsed text and the plot is the text node right after the element that follows it ("" when there is none);<br>- otherwise there is no date and the plot is "". |
| EpisodeAssembler.WithDateAndPlot | src/main/java/org/tinymediamanager/scraper/imdb/ImdbTvShowParser.java:215-240 | The `b` branch changes only the release date and the plot. The date is set when the `b` element's text parses and is unchanged otherwise. The plot is the text node directly after the element following the date, when that child is a text node, and is unchanged otherwise. |
| EpisodeAssembler.CastPageSeeded | src/main/java/org/tinymediamanager/scraper/imdb/ImdbTvShowParser.java:206-213 | With no h4 matching the wanted entry the record is empty. With a matching h4, the record has the entry's season, episode, id, title and ratings. |
| EpisodeAssembler.NextElementSibling | src/main/java/org/tinymediamanager/scraper/imdb/ImdbTvShowParser.java:216 | `nextElementSibling()`: the nearest later element, skipping text nodes, or none. |
| EpisodeAssembler.PlotIsTextAfter | src/main/java/org/tinymediamanager/scraper/imdb/ImdbTvShowParser.java:232-240 | The plot is the text node directly after the element following the date, when that child is a text node. Otherwise there is no plot. |
| EpisodeAssembler.FindCastDiv | src/main/java/org/tinymediamanager/scraper/imdb/ImdbTvShowParser.java:244-258 | The sibling walk stops at the first div after the h4, or reports that none exists, where the Java walk would throw. |
| EpisodeAssembler.CastDiv | src/main/java/org/tinymediamanager/scraper/imdb/ImdbTvShowParser.java:243-258 | The cast div is the first div after the h4: no div lies between them. |
| EpisodeAssembler.AddActors | src/main/java/org/tinymediamanager/scraper/imdb/ImdbTvShowParser.java:247-254 | The actor loop appends, in row order, exactly the rows kept by `ActorOf` to the existing cast. |
| EpisodeAssembler.ActorMembers | src/main/java/org/tinymediamanager/scraper/imdb/ImdbTvShowParser.java:248-253 | A cast member is added as an actor if and only if a row has that name and character and both are non-empty. |
| EpisodeAssembler.AddDirectors | src/main/java/org/tinymediamanager/scraper/imdb/ImdbTvShowParser.java:272-277 | The director loop appends every director element of the region, in order. |
| EpisodeAssembler.DirectorMembers | src/main/java/org/tinymediamanager/scraper/imdb/ImdbTvShowParser.java:272-277 | A director is added if and only if some element with itemprop "director" has that text. |
| EpisodeAssembler.AddWriters | src/main/java/org/tinymediamanager/scraper/imdb/ImdbTvShowParser.java:279-291 | The writer loop, with its two `continue` filters, appends exactly the creators `WriterOf` keeps, in order. |
| EpisodeAssembler.WriterMembers | src/main/java/org/tinymediamanager/scraper/imdb/ImdbTvShowParser.java:279-291 | A writer is added if and only if a "creator" element typed as a schema.org Person has that text, and the text does not contain "(created by)". |
| EpisodeAssembler.CreditsWithoutHeading | src/main/java/org/tinymediamanager/scraper/imdb/ImdbTvShowParser.java:263-293 | The credits block runs even when no h4 matched. The record then holds just the first plot_summary region's directors followed by its writers. The title page is the last fetch, in English. |
| EpisodeAssembler.EpisodeCastIsGood | src/main/java/org/tinymediamanager/scraper/imdb/ImdbTvShowParser.java:243-293 | Every returned cast member obeys the rules. Actors have a name and a character, writers never contain "(created by)", and directors and writers have no character. |
| EpisodeList.BuildEpisodeList | src/main/java/org/tinymediamanager/scraper/imdb/ImdbTvShowParser.java:307-377 | The nested table and row loop equals `EpisodeListOf`, and fetches "/epdate" exactly when the id is not blank. |
| EpisodeList.ParseRow | src/main/java/org/tinymediamanager/scraper/imdb/ImdbTvShowParser.java:327-371 | The row body equals `RowEntry`. A row without a match, with a group `Integer.parseInt` rejects, or without a title link yields nothing. |
| EpisodeList.ParseRows | src/main/java/org/tinymediamanager/scraper/imdb/ImdbTvShowParser.java:325-373 | The inner row loop collects, in row order, the entry of every row that yields one: `RowsEntries`. |
| EpisodeList.EntryFields | src/main/java/org/tinymediamanager/scraper/imdb/ImdbTvShowParser.java:327-365 | Each entry has: numbers parsed from the leftmost match's groups, within int range; the first link's title; an id exactly when the last non-null id group is not blank; and one rating exactly when four cells exist and both columns parse. |
| EpisodeList.NumberedRow | src/main/java/org/tinymediamanager/scraper/imdb/ImdbTvShowParser.java:321-339 | A row reading "S.E" after dot-free, non-digit-ending text, and having a title link, yields season S, episode E and the link's text. |
| EpisodeList.PilotRowSkipped | src/main/java/org/tinymediamanager/scraper/imdb/ImdbTvShowParser.java:321-335 | The row "Pilot. 1.1" is dropped: its leftmost match "." has empty groups, which `Integer.parseInt` rejects. |
| EpisodeList.TablesEntriesMembers | src/main/java/org/tinymediamanager/scraper/imdb/ImdbTvShowParser.java:323-374 | An entry is listed if and only if some row of some table yields it. |
| Search.FlatMapAppend | src/main/java/org/tinymediamanager/scraper/imdb/ImdbTvShowParser.java:323-374 | Entries keep table order: the entries of tables concatenated are the entries of each part, concatenated. |
| Search.FlatMapMembers | src/main/java/org/tinymediamanager/scraper/imdb/ImdbTvShowParser.java:323-374 | An entry is listed if and only if it is among the entries of some table. |
| Search.FilterMapAppend | src/main/java/org/tinymediamanager/scraper/imdb/ImdbTvShowParser.java:325-373 | Entries keep row order: the entries of rows concatenated are the entries of each part, concatenated. |
| IdExtractor.LastGroupIsLast | src/main/java/org/tinymediamanager/scraper/imdb/ImdbTvShowParser.java:341-347 | The id is "" when no match has a group. Otherwise it is the group of a match after which no match has a group: the last match wins. |
| IdExtractor.ExtractId | src/main/java/org/tinymediamanager/scraper/imdb/ImdbTvShowParser.java:341-347 | The `while (idMatcher.find())` loop computes `LastGroup`. |
| RowPattern.FindFrom | src/main/java/org/tinymediamanager/scraper/imdb/ImdbTvShowParser.java:321-328 | The match found is a real match of `([0-9]*)\.([0-9]*)`, with none to its left. There is no match exactly when no position matches. |
| RowPattern.GroupsAreDigits | src/main/java/org/tinymediamanager/scraper/imdb/ImdbTvShowParser.java:321-328 | Both groups of the match consist of ASCII digits only. |
| RowPattern.NumberedText | src/main/java/org/tinymediamanager/scraper/imdb/ImdbTvShowParser.java:321-328 | In text of the form prefix, S, ".", E, suffix (prefix with no dot and no trailing digit, suffix not starting with a digit), the leftmost match is exactly S and E. |
| RowPattern.PilotTitleMatch | src/main/java/org/tinymediamanager/scraper/imdb/ImdbTvShowParser.java:321-328 | In "Pilot. 1.1" the leftmost match is the lone dot at index 5, with two empty groups. |
| JavaText.ParseIntDecimal | src/main/java/org/tinymediamanager/scraper/imdb/ImdbTvShowParser.java:334-335 | `Integer.parseInt` reads back the decimal rendering of any non-negative int, and rejects the empty group. |
| Search.FirstWhere | src/main/java/org/tinymediamanager/scraper/imdb/ImdbTvShowParser.java:177-183 | The first-match scan gives the lowest index that satisfies the test, or none exactly when no element does. |
| Search.FindFirst | src/main/java/org/tinymediamanager/scraper/imdb/ImdbTvShowParser.java:178-183 | The loop with `break` computes `FirstWhere`. |
| Search.FilterMapMembers | src/main/java/org/tinymediamanager/scraper/imdb/ImdbTvShowParser.java:248-253 | A value is appended if and only if some element maps to it. |

## Left out

- HTTP fetching, caching, the charset, and the derivation of the Accept-Language header. `getAcceptLanguage` is not part of this model; its value is an input (`Options.acceptLanguage`).
- A fetch or HTML parse that fails: every page is assumed to arrive.
- Jsoup's element selection. Case-insensitive attribute matching, tag-name normalisation, `h4` elements nested deeper than the content region's children, and the `tr`/`td` collection are not modelled. The pages are given already reduced to those selections.
- `parseCastMember` (base class): the cast rows arrive as name and character pairs, with "" for a missing value.
- Float values. `Float.parseFloat` and `MetadataUtil.parseInt` are collaborators that may fail.
- The "d MMMM yyyy" date format is a collaborator that may fail. The `printStackTrace` on failure is left out.
- The IMDb id regular expression `IMDB_ID_PATTERN` is not part of this model. Its matches' first groups are an input list.
- `MetadataUtil.isValidImdbId`, `parseCombinedPage` and `parsePlotsummaryPage` are not part of this model; they are collaborators.
- Logging, the search category, the site definition, and configuration.
- JavaText.ParseInt: reads unsigned decimal digits only, because the row groups can only hold digits and so never carry a sign. A value above `Integer.MAX_VALUE` (a group such as "99999999999") makes `Integer.parseInt` throw, and `ParseInt` models that as `None`, which drops the row.
- `addCastMember`, `addRating` and `setRatings` of `MediaMetadata` are taken as an unconditional append or assignment, without any filtering or deduplication they might do.
- Comment and data nodes are not modelled: `ContentNode` holds only elements and text nodes, so a comment between the element after the date and the plot text, which `previousSibling()` would see, cannot be expressed.
- The season and episode numbers come in already resolved as `Options.seasonNr` and `Options.episodeNr`, with -1 for a missing or unparsable value; `getIdAsIntOrDefault` is not part of this model.
- Media.Empty: the `MediaMetadata` constructor's defaults are taken as an empty title and plot, season and episode -1, no id, no date, no cast and no ratings. `MediaMetadata` is not part of this model.
- Node identity in the plot loop (`previousSibling() == b`) is modelled by position among the content region's children.
- Element and node text is taken as given: Jsoup's whitespace normalisation in `Element.text()` and `TextNode.text()` is not modelled. This covers the row text (line 327), the plot node (line 237), and the director and writer texts (lines 275, 281 and 289).

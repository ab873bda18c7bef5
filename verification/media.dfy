/**
 * The records the parser produces and consumes: metadata records, cast members,
 * ratings, the scrape options, page requests, and the external collaborators
 * (base-class helpers and library parsers) the parser calls without defining.
 */
module Media {
  import opened Wrappers

  /** `providerInfo.getId()` of the IMDb provider. */
  const ProviderId: string := "imdb"

  /** The kind of entity a scrape asks for. */
  datatype MediaType = TvShow | TvEpisode | OtherKind(name: string)

  datatype CastType = Actor | Director | Writer

  /** `MediaCastMember`: a name, a character (empty when unknown) and a role. */
  datatype CastMember = CastMember(name: string, character: string, kind: CastType)

  /** `MediaRating`: the provider, the rating value and the vote count. */
  datatype Rating = Rating(providerId: string, value: real, votes: int)

  /** A calendar date as produced by the date parser. */
  datatype Date = Date(year: int, month: int, day: int)

  /**
   * `MediaMetadata`, reduced to the fields this parser touches. `imdbId` is the
   * entry of the id map under the IMDb provider key; season and episode numbers
   * default to -1.
   */
  datatype Metadata = Metadata(
    providerId: string,
    imdbId: Option<string>,
    title: string,
    plot: string,
    releaseDate: Option<Date>,
    seasonNumber: int,
    episodeNumber: int,
    castMembers: seq<CastMember>,
    ratings: seq<Rating>)

  /** `new MediaMetadata(providerInfo.getId())`: a record with nothing set. */
  function Empty(): Metadata {
    Metadata(ProviderId, None, "", "", None, -1, -1, [], [])
  }

  /**
   * `MediaScrapeOptions`: the requested kind, the IMDb id of a prior search result
   * (when there is a result), the IMDb id given directly, the season and episode
   * numbers already resolved with -1 as default, and the Accept-Language header
   * value derived from the requested language and country.
   */
  datatype Options = Options(
    kind: MediaType,
    searchResultId: Option<string>,
    imdbId: string,
    seasonNr: int,
    episodeNr: int,
    acceptLanguage: string)

  /** One page fetch: the URL and the Accept-Language header sent with it. */
  datatype Request = Request(url: string, acceptLanguage: string)

  /** `site + "/title/" + id + suffix`, the shape of every URL the parser fetches. */
  function TitleUrl(root: string, id: string, suffix: string): string {
    root + "/title/" + id + suffix
  }

  /** The exceptions that escape a scrape (each a NullPointerException in the source). */
  datatype HardFailure =
    | NoContentRegion       // no element with id tn15content on the episode cast page
    | NoElementAfterHeading // the matched h4 has no next element sibling
    | NoCastDiv             // no div follows the matched h4

  /** What one scrape returns, with the pages it fetched, in order. */
  datatype Scrape = Scrape(result: Result<Metadata, HardFailure>, fetched: seq<Request>)

  /**
   * Code the parser calls but does not define:
   *  - imdbIdGroups: group 1 of each successive find of IMDB_ID_PATTERN in a string
   *    (None where the group did not take part in the match);
   *  - parseFloat: `Float.parseFloat` (None for NumberFormatException);
   *  - parseVotes: `MetadataUtil.parseInt` (None when it throws);
   *  - isValidImdbId: `MetadataUtil.isValidImdbId`;
   *  - parseDate: `SimpleDateFormat("d MMMM yyyy", Locale.US).parse` (None for ParseException);
   *  - parseCombinedPage / parsePlotsummaryPage: the base-class page parsers, given the
   *    page text, the options and the record so far, returning the updated record.
   */
  datatype Collaborators = Collaborators(
    imdbIdGroups: string -> seq<Option<string>>,
    parseFloat: string -> Option<real>,
    parseVotes: string -> Option<int>,
    isValidImdbId: string -> bool,
    parseDate: string -> Option<Date>,
    parseCombinedPage: (string, Options, Metadata) -> Metadata,
    parsePlotsummaryPage: (string, Options, Metadata) -> Metadata)
}

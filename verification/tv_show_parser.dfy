/** The parser's entry point `getMetadata` (ImdbTvShowParser.java, lines 82-94). */
module TvShowParser {
  import opened Wrappers
  import opened Media
  import opened Pages
  import opened ShowAssembler
  import opened EpisodeAssembler

  /** Dispatch on the requested kind: shows and episodes to their assemblers, anything else to an empty record. */
  method GetMetadata(opts: Options, site: Site, ext: Collaborators) returns (s: Scrape)
    ensures opts.kind == TvShow ==> s == ShowScrape(opts, site, ext)
    ensures opts.kind == TvEpisode ==> s == EpisodeScrape(opts, site, ext)
    ensures opts.kind.OtherKind? ==> s == Scrape(Success(Empty()), [])
  {
    match opts.kind
    case TvShow =>
      s := ShowScrape(opts, site, ext);
    case TvEpisode =>
      s := EpisodeMetadata(opts, site, ext);
    case OtherKind(_) =>
      s := Scrape(Success(Empty()), []);
  }
}

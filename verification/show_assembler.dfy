/**
 * The show metadata assembler `getTvShowMetadata` (ImdbTvShowParser.java,
 * lines 109-147): choose the id, then merge the combined page and the plot summary
 * page into one record and stamp it with the id.
 */
module ShowAssembler {
  import opened Wrappers
  import opened Media
  import opened Pages

  /** The id taken from the search result: "" when there is no result. */
  function ResultId(opts: Options): string {
    match opts.searchResultId
    case Some(id) => id
    case None => ""
  }

  /**
   * The id to scrape: the search result's when it is valid, otherwise the one given
   * in the options when that is valid, otherwise none.
   */
  function ShowId(opts: Options, isValid: string -> bool): (r: Option<string>)
    ensures r.Some? ==> isValid(r.value)
    ensures r.Some? ==> r.value == ResultId(opts) || r.value == opts.imdbId
    ensures isValid(ResultId(opts)) ==> r == Some(ResultId(opts))
    ensures r.None? <==> !isValid(ResultId(opts)) && !isValid(opts.imdbId)
  {
    var fromResult := ResultId(opts);
    var id := if isValid(fromResult) then fromResult else opts.imdbId;
    if isValid(id) then Some(id) else None
  }

  /** What `getTvShowMetadata` returns and fetches. */
  function ShowScrape(opts: Options, site: Site, ext: Collaborators): Scrape {
    match ShowId(opts, ext.isValidImdbId)
    case None => Scrape(Success(Empty()), [])
    case Some(id) =>
      var combined := ext.parseCombinedPage(site.combined, opts, Empty());
      var withPlot := ext.parsePlotsummaryPage(site.plotSummary, opts, combined);
      Scrape(Success(withPlot.(imdbId := Some(id))),
             [Request(TitleUrl(site.root, id, "/combined"), opts.acceptLanguage),
              Request(TitleUrl(site.root, id, "/plotsummary"), opts.acceptLanguage)])
  }

  /**
   * Without a valid id nothing is fetched and the record is empty; with one, exactly
   * the combined and plot summary pages of that id are fetched, in that order, and the
   * record carries that id whatever the page parsers set.
   */
  lemma ShowScrapeFetches(opts: Options, site: Site, ext: Collaborators)
    ensures var s := ShowScrape(opts, site, ext);
      && s.result.Success?
      && (s.fetched == [] <==> !ext.isValidImdbId(ResultId(opts)) && !ext.isValidImdbId(opts.imdbId))
      && (s.fetched == [] ==> s.result.value == Empty())
      && (s.fetched != [] ==>
            exists id :: ShowId(opts, ext.isValidImdbId) == Some(id)
              && s.result.value.imdbId == Some(id)
              && s.fetched == [Request(TitleUrl(site.root, id, "/combined"), opts.acceptLanguage),
                               Request(TitleUrl(site.root, id, "/plotsummary"), opts.acceptLanguage)])
  {
  }
}

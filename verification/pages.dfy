/**
 * The parsed pages the parser reads, flattened to the parts it looks at.
 * Selections the document library performs (elements by tag, by id, by class,
 * by attribute value) are represented by the lists they yield, in document order.
 */
module Pages {
  import opened Wrappers

  /** An anchor: its href attribute and its text. */
  datatype Link = Link(href: string, text: string)

  /**
   * One `tr` of the episode-date list: its whole text, the elements under it whose
   * href starts with "/title/tt", and the own text of each of its `td` cells.
   */
  datatype ListRow = ListRow(text: string, titleLinks: seq<Link>, cells: seq<string>)

  /** One `table` element, with every `tr` under it. */
  datatype ListTable = ListTable(rows: seq<ListRow>)

  /** The "/epdate" page: every `table` element of the document. */
  datatype EpisodeListPage = EpisodeListPage(tables: seq<ListTable>)

  /** What `parseCastMember` yields for one cast-table row. */
  datatype CastCandidate = CastCandidate(name: string, character: string)

  /**
   * A child node of the tn15content region of the "/epcast" page. An element carries
   * its tag name, its own text, the hrefs starting with "/title/tt" found under it,
   * and the cast candidates of the `tr` rows under it.
   */
  datatype ContentNode =
    | Element(tag: string, ownText: string, titleHrefs: seq<string>, castRows: seq<CastCandidate>)
    | TextNode(text: string)

  /** The "/epcast" page: the children of its tn15content element, if it has one. */
  datatype CastPage = CastPage(content: Option<seq<ContentNode>>)

  /** An element of a plot_summary region: its itemprop, its itemtype and its text. */
  datatype Tagged = Tagged(itemprop: string, itemtype: string, text: string)

  /** The single-episode detail page: each plot_summary region, as its elements in order. */
  datatype DetailPage = DetailPage(plotSummaries: seq<seq<Tagged>>)

  /**
   * What the site serves for one request: the site root, the combined and plot
   * summary pages of the show (as text, read by the base-class parsers), and the
   * episode list, episode cast and episode detail pages.
   */
  datatype Site = Site(
    root: string,
    combined: string,
    plotSummary: string,
    epdate: EpisodeListPage,
    epcast: CastPage,
    detail: DetailPage)
}

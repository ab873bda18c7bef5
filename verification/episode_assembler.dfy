/**
 * The episode metadata assembler `getEpisodeMetadata` (ImdbTvShowParser.java,
 * lines 157-296): the short-circuits, the lookup of the wanted episode in the
 * episode list, the h4 of the "/epcast" page that belongs to it (release date,
 * plot, actors), and the directors and writers of the episode's detail page.
 */
module EpisodeAssembler {
  import opened Wrappers
  import opened JavaText
  import opened Media
  import opened Pages
  import opened Search
  import opened EpisodeList

  const CreatedByMarker: string := "(created by)"
  const PersonType: string := "http://schema.org/Person"

  /** The test of the wanted-episode loop: same season and same episode number. */
  function IsEpisode(season: int, episode: int): Metadata -> bool {
    (e: Metadata) => e.seasonNumber == season && e.episodeNumber == episode
  }

  /** `wantedEpisode.getId(...)` as string concatenation renders it: a missing id reads "null". */
  function WantedKey(wanted: Metadata): string {
    match wanted.imdbId
    case Some(id) => id
    case None => "null"
  }

  /** An h4 whose first title link's href ends with the wanted id followed by "/". */
  function HeadingFor(key: string): ContentNode -> bool {
    (n: ContentNode) => n.Element? && n.tag == "h4" && n.titleHrefs != [] && EndsWith(n.titleHrefs[0], key + "/")
  }

  predicate IsElement(n: ContentNode) {
    n.Element?
  }

  predicate IsDiv(n: ContentNode) {
    n.Element? && n.tag == "div"
  }

  /** `nextElementSibling()` of the child at `i`: the next element, skipping text nodes. */
  function NextElementSibling(children: seq<ContentNode>, i: nat): (r: Option<nat>)
    requires i < |children|
    ensures r.Some? ==> i < r.value < |children| && children[r.value].Element?
    ensures r.Some? ==> forall k :: i < k < r.value ==> !children[k].Element?
    ensures r.None? ==> forall k :: i < k < |children| ==> !children[k].Element?
  {
    var rest := children[i + 1..];
    assert forall k :: i < k < |children| ==> children[k] == rest[k - i - 1];
    match FirstWhere(rest, IsElement)
    case None => None
    case Some(k) => Some(i + 1 + k)
  }

  /** The first div after the child at `i`: where the sibling walk for the cast table stops. */
  function CastDiv(children: seq<ContentNode>, i: nat): (r: Option<nat>)
    requires i < |children|
    ensures r.Some? ==> i < r.value < |children| && IsDiv(children[r.value])
    ensures r.Some? ==> forall k :: i < k < r.value ==> !IsDiv(children[k])
    ensures r.None? ==> forall k :: i < k < |children| ==> !IsDiv(children[k])
  {
    var rest := children[i + 1..];
    assert forall k :: i < k < |children| ==> children[k] == rest[k - i - 1];
    match FirstWhere(rest, IsDiv)
    case None => None
    case Some(k) => Some(i + 1 + k)
  }

  /** A text-node child: its text and the index of its previous sibling (None for a first child). */
  datatype TextView = TextView(text: string, previous: Option<nat>)

  /** The previous sibling of the child at `m`, by index. */
  function PreviousOf(m: nat): Option<nat> {
    if m == 0 then None else Some(m - 1)
  }

  /** The text-node children from index `i` on, in document order. */
  function TextNodesFrom(children: seq<ContentNode>, i: nat): seq<TextView>
    requires i <= |children|
    decreases |children| - i
  {
    if i == |children| then []
    else
      var here := match children[i]
        case TextNode(t) => [TextView(t, PreviousOf(i))]
        case Element(_, _, _, _) => [];
      here + TextNodesFrom(children, i + 1)
  }

  /** `content.textNodes()`. */
  function TextNodes(children: seq<ContentNode>): seq<TextView> {
    TextNodesFrom(children, 0)
  }

  /** `node.previousSibling() == b`, comparing nodes by their position. */
  function PrecededBy(b: Option<nat>): TextView -> bool {
    (v: TextView) => v.previous == b
  }

  /** The plot: the text of the first text node whose previous sibling is `b`. */
  function Plot(children: seq<ContentNode>, b: Option<nat>): Option<string> {
    var nodes := TextNodes(children);
    match FirstWhere(nodes, PrecededBy(b))
    case None => None
    case Some(i) => Some(nodes[i].text)
  }

  /** A cast row becomes an actor only with a non-empty name and a non-empty character. */
  function ActorOf(c: CastCandidate): Option<CastMember> {
    if c.name != "" && c.character != "" then Some(CastMember(c.name, c.character, Actor)) else None
  }

  /** Every element marked as director becomes a director. */
  function DirectorOf(e: Tagged): Option<CastMember> {
    if e.itemprop == "director" then Some(CastMember(e.text, "", Director)) else None
  }

  /** A creator becomes a writer unless it is the show's creator or not typed as a person. */
  function WriterOf(e: Tagged): Option<CastMember> {
    if e.itemprop == "creator" && !Contains(e.text, CreatedByMarker) && e.itemtype == PersonType
    then Some(CastMember(e.text, "", Writer))
    else None
  }

  /** The fields copied from the wanted list entry once its h4 is found. */
  function Seeded(wanted: Metadata): Metadata {
    Empty().(imdbId := wanted.imdbId, episodeNumber := wanted.episodeNumber,
             seasonNumber := wanted.seasonNumber, title := wanted.title, plot := "",
             ratings := wanted.ratings)
  }

  /** The release date from the `b` element at `rd`, and the plot text that follows its next element. */
  function WithDateAndPlot(md: Metadata, children: seq<ContentNode>, rd: nat, ext: Collaborators): (r: Metadata)
    requires rd < |children| && children[rd].Element?
    ensures r == md.(releaseDate := r.releaseDate, plot := r.plot)
    ensures r.releaseDate ==
              if ext.parseDate(children[rd].ownText).Some? then ext.parseDate(children[rd].ownText)
              else md.releaseDate
    ensures var b := NextElementSibling(children, rd);
            r.plot == if After(b) < |children| && children[After(b)].TextNode?
                      then children[After(b)].text else md.plot
  {
    PlotIsTextAfter(children, NextElementSibling(children, rd));
    var dated := match ext.parseDate(children[rd].ownText)
      case Some(d) => md.(releaseDate := Some(d))
      case None => md;
    match Plot(children, NextElementSibling(children, rd))
    case Some(t) => dated.(plot := t)
    case None => dated
  }

  /** The record built from the wanted episode's h4 at index `h`. */
  function HeadingDetails(wanted: Metadata, children: seq<ContentNode>, h: nat, ext: Collaborators)
    : (r: Result<Metadata, HardFailure>)
    requires h < |children|
    ensures r.Success? ==>
              r.value == Seeded(wanted).(releaseDate := r.value.releaseDate, plot := r.value.plot,
                                         castMembers := r.value.castMembers)
    ensures r.Failure? <==> NextElementSibling(children, h).None? || CastDiv(children, h).None?
    ensures r.Success? ==>
              r.value.castMembers == FilterMap(children[CastDiv(children, h).value].castRows, ActorOf)
    ensures r.Success? ==>
              var rd := NextElementSibling(children, h).value;
              var b := NextElementSibling(children, rd);
              if children[rd].tag == "b" then
                && r.value.releaseDate == ext.parseDate(children[rd].ownText)
                && r.value.plot == (if After(b) < |children| && children[After(b)].TextNode?
                                    then children[After(b)].text else "")
              else r.value.releaseDate == None && r.value.plot == ""
  {
    var md := Seeded(wanted);
    match NextElementSibling(children, h)
    case None => Failure(NoElementAfterHeading)
    case Some(rd) =>
      var dated := if children[rd].tag == "b" then WithDateAndPlot(md, children, rd, ext) else md;
      match CastDiv(children, h)
      case None => Failure(NoCastDiv)
      case Some(d) =>
        Success(dated.(castMembers := dated.castMembers + FilterMap(children[d].castRows, ActorOf)))
  }

  /** The h4 loop: only the first h4 that belongs to the wanted episode is read. */
  function CastPageUpdate(wanted: Metadata, children: seq<ContentNode>, ext: Collaborators)
    : Result<Metadata, HardFailure>
  {
    match FirstWhere(children, HeadingFor(WantedKey(wanted)))
    case None => Success(Empty())
    case Some(h) => HeadingDetails(wanted, children, h, ext)
  }

  /** The directors, then the writers, of the first plot_summary region, if there is one. */
  function Credits(md: Metadata, detail: DetailPage): Metadata {
    if detail.plotSummaries == [] then md
    else
      var region := detail.plotSummaries[0];
      md.(castMembers := md.castMembers + FilterMap(region, DirectorOf) + FilterMap(region, WriterOf))
  }

  /** The guard of the director/writer block: the entry's id is a non-blank string. */
  predicate HasEpisodeId(wanted: Metadata) {
    wanted.imdbId.Some? && !IsBlank(wanted.imdbId.value)
  }

  /** The scrape once the wanted entry is known: the cast page, then the detail page. */
  function WantedScrape(wanted: Metadata, opts: Options, site: Site, listed: seq<Request>,
                        ext: Collaborators): Scrape
  {
    var castFetched := listed + [Request(TitleUrl(site.root, opts.imdbId, "/epcast"), opts.acceptLanguage)];
    match site.epcast.content
    case None => Scrape(Failure(NoContentRegion), castFetched)
    case Some(children) =>
      match CastPageUpdate(wanted, children, ext)
      case Failure(f) => Scrape(Failure(f), castFetched)
      case Success(md) =>
        if HasEpisodeId(wanted) then
          Scrape(Success(Credits(md, site.detail)),
                 castFetched + [Request(TitleUrl(site.root, wanted.imdbId.value, ""), "en")])
        else Scrape(Success(md), castFetched)
  }

  /** What `getEpisodeMetadata` returns and fetches. */
  function EpisodeScrape(opts: Options, site: Site, ext: Collaborators): Scrape {
    if IsBlank(opts.imdbId) || opts.seasonNr == -1 || opts.episodeNr == -1 then
      Scrape(Success(Empty()), [])
    else
      var episodes := EpisodeListOf(opts.imdbId, site.epdate, ext);
      var listed := EpisodeListRequests(opts.imdbId, site.root, opts.acceptLanguage);
      match FirstWhere(episodes, IsEpisode(opts.seasonNr, opts.episodeNr))
      case None => Scrape(Success(Empty()), listed)
      case Some(w) => WantedScrape(episodes[w], opts, site, listed, ext)
  }

  // ---------------------------------------------------------------------------
  // The imperative steps, each proved against the function above that specifies it.

  /** The actor loop: each accepted row is appended to the cast as an actor. */
  method AddActors(md: Metadata, rows: seq<CastCandidate>) returns (r: Metadata)
    ensures r == md.(castMembers := md.castMembers + FilterMap(rows, ActorOf))
  {
    r := md;
    var i := 0;
    while i < |rows|
      invariant 0 <= i <= |rows|
      invariant r == md.(castMembers := md.castMembers + FilterMap(rows[..i], ActorOf))
    {
      assert rows[..i + 1][..i] == rows[..i];
      var cm := rows[i];
      if cm.name != "" && cm.character != "" {
        r := r.(castMembers := r.castMembers + [CastMember(cm.name, cm.character, Actor)]);
      }
      i := i + 1;
    }
    assert rows[..i] == rows;
  }

  /** The director loop: every director element is appended as a director. */
  method AddDirectors(md: Metadata, region: seq<Tagged>) returns (r: Metadata)
    ensures r == md.(castMembers := md.castMembers + FilterMap(region, DirectorOf))
  {
    r := md;
    var i := 0;
    while i < |region|
      invariant 0 <= i <= |region|
      invariant r == md.(castMembers := md.castMembers + FilterMap(region[..i], DirectorOf))
    {
      assert region[..i + 1][..i] == region[..i];
      if region[i].itemprop == "director" {
        r := r.(castMembers := r.castMembers + [CastMember(region[i].text, "", Director)]);
      }
      i := i + 1;
    }
    assert region[..i] == region;
  }

  /** The writer loop, with its two `continue` filters. */
  method AddWriters(md: Metadata, region: seq<Tagged>) returns (r: Metadata)
    ensures r == md.(castMembers := md.castMembers + FilterMap(region, WriterOf))
  {
    r := md;
    var i := 0;
    while i < |region|
      invariant 0 <= i <= |region|
      invariant r == md.(castMembers := md.castMembers + FilterMap(region[..i], WriterOf))
    {
      assert region[..i + 1][..i] == region[..i];
      var writer := region[i];
      i := i + 1;
      if writer.itemprop != "creator" {
        continue;
      }
      if Contains(writer.text, CreatedByMarker) {
        continue;
      }
      if writer.itemtype != PersonType {
        continue;
      }
      r := r.(castMembers := r.castMembers + [CastMember(writer.text, "", Writer)]);
    }
    assert region[..i] == region;
  }

  /** The `while (true)` walk from the h4 over next element siblings until a div. */
  method FindCastDiv(children: seq<ContentNode>, h: nat) returns (d: Option<nat>)
    requires h < |children|
    ensures d == CastDiv(children, h)
  {
    var next := NextElementSibling(children, h);
    while next.Some? && !IsDiv(children[next.value])
      invariant next.Some? ==> h < next.value < |children|
      invariant forall k :: h < k < (if next.Some? then next.value else |children|) ==> !IsDiv(children[k])
      decreases if next.Some? then |children| - next.value else 0
    {
      next := NextElementSibling(children, next.value);
    }
    d := next;
  }

  /** The body of the matched-h4 branch. */
  method ReadHeading(wanted: Metadata, children: seq<ContentNode>, h: nat, ext: Collaborators)
    returns (r: Result<Metadata, HardFailure>)
    requires h < |children|
    ensures r == HeadingDetails(wanted, children, h, ext)
  {
    var md := Empty();
    md := md.(imdbId := wanted.imdbId);
    md := md.(episodeNumber := wanted.episodeNumber);
    md := md.(seasonNumber := wanted.seasonNumber);
    md := md.(title := wanted.title);
    md := md.(plot := "");
    md := md.(ratings := wanted.ratings);
    var releaseDate := NextElementSibling(children, h);
    if releaseDate.None? {
      return Failure(NoElementAfterHeading);
    }
    var rd := releaseDate.value;
    if children[rd].tag == "b" {
      var parsed := ext.parseDate(children[rd].ownText);
      if parsed.Some? {
        md := md.(releaseDate := parsed);
      }
      var b := NextElementSibling(children, rd);
      var nodes := TextNodes(children);
      var found := FindFirst(nodes, PrecededBy(b));
      if found.Some? {
        md := md.(plot := nodes[found.value].text);
      }
    }
    var div := FindCastDiv(children, h);
    if div.None? {
      return Failure(NoCastDiv);
    }
    md := AddActors(md, children[div.value].castRows);
    return Success(md);
  }

  /** The h4 loop over the tn15content region. */
  method ReadCastPage(wanted: Metadata, children: seq<ContentNode>, ext: Collaborators)
    returns (r: Result<Metadata, HardFailure>)
    ensures r == CastPageUpdate(wanted, children, ext)
  {
    var h := FindFirst(children, HeadingFor(WantedKey(wanted)));
    if h.None? {
      return Success(Empty());
    }
    r := ReadHeading(wanted, children, h.value, ext);
  }

  /** `getEpisodeMetadata`. */
  method EpisodeMetadata(opts: Options, site: Site, ext: Collaborators) returns (s: Scrape)
    ensures s == EpisodeScrape(opts, site, ext)
  {
    var md := Empty();
    if IsBlank(opts.imdbId) {
      return Scrape(Success(md), []);
    }
    if opts.seasonNr == -1 || opts.episodeNr == -1 {
      return Scrape(Success(md), []);
    }
    var episodes, fetched := BuildEpisodeList(opts.imdbId, site.root, opts.acceptLanguage, site.epdate, ext);
    var w := FindFirst(episodes, IsEpisode(opts.seasonNr, opts.episodeNr));
    if w.None? {
      return Scrape(Success(md), fetched);
    }
    var wanted := episodes[w.value];
    fetched := fetched + [Request(TitleUrl(site.root, opts.imdbId, "/epcast"), opts.acceptLanguage)];
    if site.epcast.content.None? {
      return Scrape(Failure(NoContentRegion), fetched);
    }
    var cast := ReadCastPage(wanted, site.epcast.content.value, ext);
    if cast.Failure? {
      return Scrape(Failure(cast.error), fetched);
    }
    md := cast.value;
    if wanted.imdbId.Some? && !IsBlank(wanted.imdbId.value) {
      var epId := wanted.imdbId.value;
      fetched := fetched + [Request(TitleUrl(site.root, epId, ""), "en")];
      var summaries := site.detail.plotSummaries;
      if summaries != [] {
        md := AddDirectors(md, summaries[0]);
        md := AddWriters(md, summaries[0]);
      }
    }
    return Scrape(Success(md), fetched);
  }

  // ---------------------------------------------------------------------------
  // Properties of the specification.

  /** The child whose previous sibling is `b`: the first child when `b` is null. */
  function After(b: Option<nat>): nat {
    match b
    case None => 0
    case Some(j) => j + 1
  }

  /** `textNodes()` lists exactly the text-node children, each with its previous sibling. */
  lemma {:induction false} TextNodesFromViews(children: seq<ContentNode>, i: nat)
    requires i <= |children|
    ensures forall v :: v in TextNodesFrom(children, i) ==>
              exists m :: i <= m < |children| && children[m] == TextNode(v.text) && v.previous == PreviousOf(m)
    ensures forall m :: i <= m < |children| && children[m].TextNode? ==>
              TextView(children[m].text, PreviousOf(m)) in TextNodesFrom(children, i)
    decreases |children| - i
  {
    if i < |children| {
      TextNodesFromViews(children, i + 1);
    }
  }

  /**
   * The plot is the text node that immediately follows the element `b` (or is the
   * first child when `b` is null), if that child is a text node; there is no plot
   * otherwise.
   */
  lemma PlotIsTextAfter(children: seq<ContentNode>, b: Option<nat>)
    ensures Plot(children, b) ==
            if After(b) < |children| && children[After(b)].TextNode?
            then Some(children[After(b)].text) else None
  {
    TextNodesFromViews(children, 0);
    var nodes := TextNodes(children);
    var a := After(b);
    if a < |children| && children[a].TextNode? {
      var v := TextView(children[a].text, PreviousOf(a));
      var i :| 0 <= i < |nodes| && nodes[i] == v;
      assert PrecededBy(b)(nodes[i]);
    }
    match FirstWhere(nodes, PrecededBy(b))
    case None =>
    case Some(i) =>
      assert nodes[i] in nodes;
      var m :| 0 <= m < |children| && children[m] == TextNode(nodes[i].text) && nodes[i].previous == PreviousOf(m);
      assert m == a;
  }

  /** An actor is kept exactly when its row has a non-empty name and a non-empty character. */
  lemma ActorMembers(rows: seq<CastCandidate>, c: CastMember)
    ensures c in FilterMap(rows, ActorOf) <==>
            c.kind == Actor && c.name != "" && c.character != "" && CastCandidate(c.name, c.character) in rows
  {
    FilterMapMembers(rows, ActorOf, c);
    if CastCandidate(c.name, c.character) in rows {
      var i :| 0 <= i < |rows| && rows[i] == CastCandidate(c.name, c.character);
      assert c.kind == Actor && c.name != "" && c.character != "" ==> ActorOf(rows[i]) == Some(c);
    }
  }

  /** Every director element, and nothing else, becomes a director named by its text. */
  lemma DirectorMembers(region: seq<Tagged>, c: CastMember)
    ensures c in FilterMap(region, DirectorOf) <==>
            c.kind == Director && c.character == "" &&
            exists i :: 0 <= i < |region| && region[i].itemprop == "director" && region[i].text == c.name
  {
    FilterMapMembers(region, DirectorOf, c);
    if exists i :: 0 <= i < |region| && region[i].itemprop == "director" && region[i].text == c.name {
      var i :| 0 <= i < |region| && region[i].itemprop == "director" && region[i].text == c.name;
      assert c.kind == Director && c.character == "" ==> DirectorOf(region[i]) == Some(c);
    }
  }

  /** A writer is kept exactly when it is a person-typed creator without the "(created by)" marker. */
  lemma WriterMembers(region: seq<Tagged>, c: CastMember)
    ensures c in FilterMap(region, WriterOf) <==>
            c.kind == Writer && c.character == "" && !Contains(c.name, CreatedByMarker) &&
            Tagged("creator", PersonType, c.name) in region
  {
    FilterMapMembers(region, WriterOf, c);
    if Tagged("creator", PersonType, c.name) in region {
      var i :| 0 <= i < |region| && region[i] == Tagged("creator", PersonType, c.name);
      assert c.kind == Writer && c.character == "" && !Contains(c.name, CreatedByMarker)
             ==> WriterOf(region[i]) == Some(c);
    }
  }

  /** The cast rules: actors have a name and a character, writers lack the creator marker, crew has no character. */
  predicate GoodMember(c: CastMember) {
    && (c.kind == Actor ==> c.name != "" && c.character != "")
    && (c.kind == Writer ==> !Contains(c.name, CreatedByMarker))
    && (c.kind != Actor ==> c.character == "")
  }

  predicate GoodCast(cast: seq<CastMember>) {
    forall i :: 0 <= i < |cast| ==> GoodMember(cast[i])
  }

  lemma {:induction false} KeptAreGood<T>(s: seq<T>, f: T -> Option<CastMember>)
    requires forall x :: f(x).Some? ==> GoodMember(f(x).value)
    ensures GoodCast(FilterMap(s, f))
  {
    if s != [] {
      KeptAreGood(s[..|s| - 1], f);
    }
  }

  lemma GoodAppend(a: seq<CastMember>, b: seq<CastMember>)
    requires GoodCast(a) && GoodCast(b)
    ensures GoodCast(a + b)
  {
    forall i | 0 <= i < |a + b| ensures GoodMember((a + b)[i]) {
      if i < |a| { assert (a + b)[i] == a[i]; } else { assert (a + b)[i] == b[i - |a|]; }
    }
  }

  /** The record read from an h4 holds the actors of one cast table and nothing else. */
  lemma HeadingCastIsGood(wanted: Metadata, children: seq<ContentNode>, h: nat, ext: Collaborators)
    requires h < |children|
    requires HeadingDetails(wanted, children, h, ext).Success?
    ensures GoodCast(HeadingDetails(wanted, children, h, ext).value.castMembers)
  {
    var rd := NextElementSibling(children, h).value;
    var d := CastDiv(children, h).value;
    var seeded := Seeded(wanted);
    var dated := if children[rd].tag == "b" then WithDateAndPlot(seeded, children, rd, ext) else seeded;
    assert dated.castMembers == [];
    KeptAreGood(children[d].castRows, ActorOf);
    assert HeadingDetails(wanted, children, h, ext).value.castMembers == [] + FilterMap(children[d].castRows, ActorOf);
  }

  lemma CreditsAreGood(md: Metadata, detail: DetailPage)
    requires GoodCast(md.castMembers)
    ensures GoodCast(Credits(md, detail).castMembers)
  {
    if detail.plotSummaries != [] {
      var region := detail.plotSummaries[0];
      KeptAreGood(region, DirectorOf);
      KeptAreGood(region, WriterOf);
      GoodAppend(md.castMembers, FilterMap(region, DirectorOf));
      GoodAppend(md.castMembers + FilterMap(region, DirectorOf), FilterMap(region, WriterOf));
    }
  }

  /** Every record the episode assembler returns obeys the cast rules. */
  lemma EpisodeCastIsGood(opts: Options, site: Site, ext: Collaborators)
    requires EpisodeScrape(opts, site, ext).result.Success?
    ensures GoodCast(EpisodeScrape(opts, site, ext).result.value.castMembers)
  {
    if !(IsBlank(opts.imdbId) || opts.seasonNr == -1 || opts.episodeNr == -1) {
      var eps := EpisodeListOf(opts.imdbId, site.epdate, ext);
      var found := FirstWhere(eps, IsEpisode(opts.seasonNr, opts.episodeNr));
      if found.Some? {
        var wanted := eps[found.value];
        var children := site.epcast.content.value;
        var h := FirstWhere(children, HeadingFor(WantedKey(wanted)));
        if h.Some? {
          HeadingCastIsGood(wanted, children, h.value, ext);
        }
        var md := CastPageUpdate(wanted, children, ext).value;
        CreditsAreGood(md, site.detail);
      }
    }
  }

  /** With a blank id or an unresolved season or episode number: an empty record and no fetch. */
  lemma ShortCircuit(opts: Options, site: Site, ext: Collaborators)
    requires IsBlank(opts.imdbId) || opts.seasonNr == -1 || opts.episodeNr == -1
    ensures EpisodeScrape(opts, site, ext) == Scrape(Success(Empty()), [])
  {
  }

  /** An episode absent from the list: an empty record after the list page alone. */
  lemma EpisodeNotListed(opts: Options, site: Site, ext: Collaborators)
    requires !IsBlank(opts.imdbId) && opts.seasonNr != -1 && opts.episodeNr != -1
    requires forall e :: e in EpisodeListOf(opts.imdbId, site.epdate, ext) ==>
               !(e.seasonNumber == opts.seasonNr && e.episodeNumber == opts.episodeNr)
    ensures EpisodeScrape(opts, site, ext) ==
            Scrape(Success(Empty()), [Request(TitleUrl(site.root, opts.imdbId, "/epdate"), opts.acceptLanguage)])
  {
  }

  /** With no matching h4 the record stays empty; with one it carries the entry's numbers, id, title and ratings. */
  lemma CastPageSeeded(wanted: Metadata, children: seq<ContentNode>, ext: Collaborators)
    requires CastPageUpdate(wanted, children, ext).Success?
    ensures var md := CastPageUpdate(wanted, children, ext).value;
            var h := FirstWhere(children, HeadingFor(WantedKey(wanted)));
            && (h.None? ==> md == Empty())
            && (h.Some? ==>
                  && md.seasonNumber == wanted.seasonNumber && md.episodeNumber == wanted.episodeNumber
                  && md.imdbId == wanted.imdbId && md.title == wanted.title && md.ratings == wanted.ratings)
  {
  }

  /**
   * A record whose season number is set comes from the FIRST list entry, in list
   * order, with the wanted season and episode: its id, title and ratings are that
   * entry's.
   */
  lemma FromFirstMatchingEntry(opts: Options, site: Site, ext: Collaborators)
    requires EpisodeScrape(opts, site, ext).result.Success?
    requires EpisodeScrape(opts, site, ext).result.value.seasonNumber != -1
    ensures var md := EpisodeScrape(opts, site, ext).result.value;
            var eps := EpisodeListOf(opts.imdbId, site.epdate, ext);
            && md.seasonNumber == opts.seasonNr && md.episodeNumber == opts.episodeNr
            && exists w :: 0 <= w < |eps| && IsEpisode(opts.seasonNr, opts.episodeNr)(eps[w])
                 && (forall j :: 0 <= j < w ==> !IsEpisode(opts.seasonNr, opts.episodeNr)(eps[j]))
                 && md.imdbId == eps[w].imdbId && md.title == eps[w].title && md.ratings == eps[w].ratings
  {
    var eps := EpisodeListOf(opts.imdbId, site.epdate, ext);
    var w := FirstWhere(eps, IsEpisode(opts.seasonNr, opts.episodeNr)).value;
    var wanted := eps[w];
    var children := site.epcast.content.value;
    var md0 := CastPageUpdate(wanted, children, ext).value;
    CastPageSeeded(wanted, children, ext);
    var md := EpisodeScrape(opts, site, ext).result.value;
    assert md == md0 || md == Credits(md0, site.detail);
    assert md.seasonNumber == md0.seasonNumber && md.episodeNumber == md0.episodeNumber;
    assert md.imdbId == md0.imdbId && md.title == md0.title && md.ratings == md0.ratings;
  }

  /**
   * The director/writer block does not depend on the h4 match: with no h4 for the
   * episode but a non-blank episode id, the record holds just the credits of the
   * detail page, which is fetched with the language forced to English.
   */
  lemma CreditsWithoutHeading(wanted: Metadata, opts: Options, site: Site, listed: seq<Request>,
                              ext: Collaborators)
    requires site.epcast.content.Some?
    requires forall k :: 0 <= k < |site.epcast.content.value| ==>
               !HeadingFor(WantedKey(wanted))(site.epcast.content.value[k])
    requires HasEpisodeId(wanted)
    ensures var s := WantedScrape(wanted, opts, site, listed, ext);
            && s.result.Success?
            && s.result.value.title == "" && s.result.value.seasonNumber == -1
            && (site.detail.plotSummaries != [] ==>
                  s.result.value.castMembers == FilterMap(site.detail.plotSummaries[0], DirectorOf)
                                                + FilterMap(site.detail.plotSummaries[0], WriterOf))
            && s.fetched[|s.fetched| - 1] == Request(TitleUrl(site.root, wanted.imdbId.value, ""), "en")
  {
  }

  /**
   * The pages fetched: none exactly when a precondition fails; otherwise the episode
   * list first, then the cast page, then at most the detail page, which alone is
   * requested in English.
   */
  lemma FetchOrder(opts: Options, site: Site, ext: Collaborators)
    ensures var s := EpisodeScrape(opts, site, ext);
      && |s.fetched| <= 3
      && (s.fetched == [] <==> IsBlank(opts.imdbId) || opts.seasonNr == -1 || opts.episodeNr == -1)
      && (s.fetched != [] ==>
            s.fetched[0] == Request(TitleUrl(site.root, opts.imdbId, "/epdate"), opts.acceptLanguage))
      && (|s.fetched| >= 2 ==>
            s.fetched[1] == Request(TitleUrl(site.root, opts.imdbId, "/epcast"), opts.acceptLanguage))
      && (|s.fetched| == 3 ==> s.result.Success? && s.fetched[2].acceptLanguage == "en")
  {
  }

  /**
   * The detail page is fetched exactly when the preconditions hold, the wanted episode
   * is listed, its cast page is read without failure and its id is a non-blank string;
   * it is then the title page of that episode's id, requested in English.
   */
  lemma CreditsFetch(opts: Options, site: Site, ext: Collaborators)
    ensures var s := EpisodeScrape(opts, site, ext);
      var eps := EpisodeListOf(opts.imdbId, site.epdate, ext);
      var w := FirstWhere(eps, IsEpisode(opts.seasonNr, opts.episodeNr));
      && (|s.fetched| == 3 <==>
            && !(IsBlank(opts.imdbId) || opts.seasonNr == -1 || opts.episodeNr == -1)
            && w.Some?
            && site.epcast.content.Some?
            && CastPageUpdate(eps[w.value], site.epcast.content.value, ext).Success?
            && HasEpisodeId(eps[w.value]))
      && (|s.fetched| == 3 ==>
            w.Some? && s.fetched[2] == Request(TitleUrl(site.root, eps[w.value].imdbId.value, ""), "en"))
      && (|s.fetched| == 3 && site.detail.plotSummaries != [] ==>
            w.Some? && s.result.Success? &&
            s.result.value.castMembers ==
              CastPageUpdate(eps[w.value], site.epcast.content.value, ext).value.castMembers
              + FilterMap(site.detail.plotSummaries[0], DirectorOf)
              + FilterMap(site.detail.plotSummaries[0], WriterOf))
  {
  }

  /** The actor loop only ever adds actors. */
  lemma OnlyActorsKept(rows: seq<CastCandidate>)
    ensures forall i :: 0 <= i < |FilterMap(rows, ActorOf)| ==> FilterMap(rows, ActorOf)[i].kind == Actor
  {
    var kept := FilterMap(rows, ActorOf);
    forall i | 0 <= i < |kept| ensures kept[i].kind == Actor {
      ActorMembers(rows, kept[i]);
    }
  }

  /**
   * Without a non-blank id on the wanted entry the credits block is skipped: at most
   * two pages are fetched and the record holds no director and no writer.
   */
  lemma NoCreditsWithoutEpisodeId(opts: Options, site: Site, ext: Collaborators)
    ensures var s := EpisodeScrape(opts, site, ext);
      var eps := EpisodeListOf(opts.imdbId, site.epdate, ext);
      var w := FirstWhere(eps, IsEpisode(opts.seasonNr, opts.episodeNr));
      w.Some? && !HasEpisodeId(eps[w.value]) ==>
        && |s.fetched| <= 2
        && (s.result.Success? ==>
              forall i :: 0 <= i < |s.result.value.castMembers| ==> s.result.value.castMembers[i].kind == Actor)
  {
    var s := EpisodeScrape(opts, site, ext);
    var eps := EpisodeListOf(opts.imdbId, site.epdate, ext);
    var w := FirstWhere(eps, IsEpisode(opts.seasonNr, opts.episodeNr));
    if w.Some? && !HasEpisodeId(eps[w.value]) && s.result.Success? && s.result.value != Empty() {
      var wanted := eps[w.value];
      var children := site.epcast.content.value;
      var h := FirstWhere(children, HeadingFor(WantedKey(wanted))).value;
      var d := CastDiv(children, h).value;
      OnlyActorsKept(children[d].castRows);
      assert s.result.value.castMembers == [] + FilterMap(children[d].castRows, ActorOf);
    }
  }
}

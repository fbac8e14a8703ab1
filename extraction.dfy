/** How `MangaKatanaCrawlerAgent` turns selected markup into catalog records:
    the field-recovery rules of `ConvertToMangaFromList` and
    `ConvertToMangaFromSingleBook`, and the filtering loops of
    `ConvertToChapterPages` and `ConvertChaptersFromSingleBook`.

    Where the source throws (a null dereference, `new Uri` of a text that
    is not an absolute URL), the condition that avoids the throw is a
    precondition. */
module Extraction {
  import opened Wrappers
  import opened Text
  import opened Decimals
  import opened Patterns
  import opened Dates
  import opened Seqs
  import opened Catalog

  /** A recovered title: never empty, never padded with white space. */
  type Title = s: string | s != [] && IsTrimmed(s) witness "?"

  const UntitledManga: Title := "Untitled Manga"
  const UntitledChapter: Title := "Untitled Chapter"

  // ---------------------------------------------------------------------
  // Field recovery
  // ---------------------------------------------------------------------

  /** `node?.InnerText.Trim()`. */
  function TrimmedText(node: Option<Element>): Option<string> {
    match node
    case None => None
    case Some(e) => Some(Trim(e.innerText))
  }

  /** `node?.GetAttributeValue("href", string.Empty)`. */
  function Href(node: Option<Element>): Option<string> {
    match node
    case None => None
    case Some(e) => Some(AttributeOr(e, "href", ""))
  }

  /** `string.IsNullOrEmpty(node?.InnerText.Trim()) ? sentinel :
      node?.InnerText.Trim()`: a title is never empty and never padded, and
      it is either the node's trimmed text or the sentinel. */
  function RecoveredTitle(node: Option<Element>, sentinel: Title): (title: Title)
    ensures title != [] && IsTrimmed(title)
    ensures title == sentinel || (node.Some? && title == Trim(node.value.innerText))
  {
    match TrimmedText(node)
    case Some(t) => if t == [] then sentinel else t
    case None => sentinel
  }

  /** The node's text is used exactly when there is a node whose trimmed
      text is not empty; otherwise the sentinel is. */
  lemma RecoveredTitleCases(node: Option<Element>, sentinel: Title)
    ensures node.Some? && Trim(node.value.innerText) != [] ==>
      RecoveredTitle(node, sentinel) == Trim(node.value.innerText)
    ensures node.None? || Trim(node.value.innerText) == [] ==>
      RecoveredTitle(node, sentinel) == sentinel
  {
  }

  /** A title node holding only white space gets the sentinel. */
  lemma BlankTitleFallsBack(e: Element, sentinel: Title)
    requires AllWhiteSpace(e.innerText)
    ensures RecoveredTitle(Some(e), sentinel) == sentinel
  {
    assert e.innerText + [] + [] == e.innerText;
    TrimUnique(e.innerText, [], []);
  }

  /** A title node whose text is a trimmed, non-empty title padded with
      white space gets that title. */
  lemma PaddedTitleIsKept(a: string, t: string, b: string, attributes: map<string, string>, sentinel: Title)
    requires AllWhiteSpace(a) && AllWhiteSpace(b) && t != [] && IsTrimmed(t)
    ensures RecoveredTitle(Some(Element(a + t + b, attributes)), sentinel) == t
  {
    TrimUnique(a, t, b);
  }

  /** `status.ToLower() switch { "completed" => Completed, "ongoing" =>
      Continuing, _ => Unreleased }`, with a missing text (`status?`) taking
      the default arm. */
  function StatusOf(status: Option<string>): ReleaseStatus {
    match status
    case None => Unreleased
    case Some(s) =>
      var l := ToLower(s);
      if l == "completed" then Completed
      else if l == "ongoing" then Continuing
      else Unreleased
  }

  /** The mapping, in both directions: Completed exactly for a text that
      lower-cases to "completed", Continuing exactly for "ongoing", and
      Unreleased for everything else, a missing text included. */
  lemma StatusOfCases(status: Option<string>)
    ensures StatusOf(status) == Completed <==> status.Some? && ToLower(status.value) == "completed"
    ensures StatusOf(status) == Continuing <==> status.Some? && ToLower(status.value) == "ongoing"
    ensures StatusOf(status) == Unreleased <==>
      status.None? || (ToLower(status.value) != "completed" && ToLower(status.value) != "ongoing")
  {
  }

  /** The mapping does not see case. */
  lemma StatusIgnoresCase(s: string, t: string)
    requires ToLower(s) == ToLower(t)
    ensures StatusOf(Some(s)) == StatusOf(Some(t))
  {
  }

  /** "Ongoing" is Continuing. */
  lemma StatusOngoingExample()
    ensures StatusOf(Some("Ongoing")) == Continuing
  {
    ToLowerIs("Ongoing", "ongoing");
  }

  /** "COMPLETED" is Completed. */
  lemma StatusCompletedExample()
    ensures StatusOf(Some("COMPLETED")) == Completed
  {
    ToLowerIs("COMPLETED", "completed");
  }

  /** "hiatus" is Unreleased. */
  lemma StatusOtherExample()
    ensures StatusOf(Some("hiatus")) == Unreleased
  {
    ToLowerIs("hiatus", "hiatus");
  }

  /** `genreNodes?.Select(g => g.InnerText.Trim()).ToList() ?? []`: one tag
      per genre link, in order, each the link's trimmed text. */
  function GenreTags(genres: Option<seq<Element>>): (tags: seq<string>)
    ensures genres.None? ==> tags == []
    ensures genres.Some? ==> |tags| == |genres.value|
    ensures genres.Some? ==> forall i :: 0 <= i < |tags| ==> tags[i] == Trim(genres.value[i].innerText)
    ensures forall i :: 0 <= i < |tags| ==> IsTrimmed(tags[i])
  {
    match genres
    case None => []
    case Some(g) => seq(|g|, i requires 0 <= i < |g| => Trim(g[i].innerText))
  }

  /** The latest chapter of a detail page: the first run of digits and
      points in the label's trimmed text (`"0"` when there is none, or no
      label), parsed as a decimal, 0 when it does not parse. */
  function LatestChapter(chapterLabel: Option<Element>): (n: Dec) {
    var text := TrimmedText(chapterLabel).GetOr("");
    var number := match FirstNumericRun(text) case Some(run) => run case None => "0";
    ParseDecimal(number).GetOr(Zero)
  }

  /** A run that does not parse turns the result into 0 too, as a missing
      label or a label without a run does. */
  lemma LatestChapterFallbacks(chapterLabel: Option<Element>)
    ensures chapterLabel.None? ==> LatestChapter(chapterLabel) == Zero
    ensures chapterLabel.Some? && FirstNumericRun(Trim(chapterLabel.value.innerText)).None? ==> LatestChapter(chapterLabel) == Zero
    ensures (chapterLabel.Some? && FirstNumericRun(Trim(chapterLabel.value.innerText)).Some?
             && !IsDecimalText(FirstNumericRun(Trim(chapterLabel.value.innerText)).value))
            ==> LatestChapter(chapterLabel) == Zero
  {
    assert AllDigits("0") && DigitsValue("0") == 0;
    ParseDigits("0");
  }

  /** A label whose trimmed text is a lead without digits or points, a run,
      and a tail that does not continue the run gives the run's value (0
      when the run does not parse); the white space around it is ignored. */
  lemma LatestChapterOfLabel(lead: string, pre: string, run: string, post: string, trail: string,
                             attributes: map<string, string>)
    requires AllWhiteSpace(lead) && AllWhiteSpace(trail) && IsTrimmed(pre + run + post)
    requires forall k :: 0 <= k < |pre| ==> !IsNumericChar(pre[k])
    requires run != [] && AllNumeric(run)
    requires post == [] || !IsNumericChar(post[0])
    ensures LatestChapter(Some(Element(lead + (pre + run + post) + trail, attributes)))
            == ParseDecimal(run).GetOr(Zero)
  {
    TrimUnique(lead, pre + run + post, trail);
    FirstNumericRunIsLeftmost(pre, run, post);
  }

  /** The chapter number of a chapter title: the capture of the first match
      of `Chapter\s+([\d\.]+)`, parsed as a decimal; 0 when nothing matches
      or the capture does not parse. */
  function ChapterNumber(title: string): (n: Dec)
    ensures ChapterCapture(title).None? ==> n == Zero
    ensures ChapterCapture(title).Some? && !IsDecimalText(ChapterCapture(title).value) ==> n == Zero
  {
    match ChapterCapture(title)
    case Some(c) => ParseDecimal(c).GetOr(Zero)
    case None => Zero
  }

  /** A title that starts "Chapter", white space, a run of digits and points
      and a tail that does not continue the run is numbered by that run. */
  lemma ChapterNumberOfTitle(ws: string, run: string, post: string)
    requires ws != [] && AllWhiteSpace(ws)
    requires run != [] && AllNumeric(run)
    requires post == [] || !IsNumericChar(post[0])
    ensures ChapterNumber("Chapter" + ws + run + post) == ParseDecimal(run).GetOr(Zero)
  {
    var t := "Chapter" + ws + run + post;
    ChapterMatchAtShape(ws, run, post);
    ChapterCaptureAt(t, 0);
  }

  /** A chapter written "Chapter " and its number in canonical form is
      numbered by that number. */
  lemma ChapterNumberOfFormattedTitle(d: Dec, post: string)
    requires post == [] || !IsNumericChar(post[0])
    ensures ChapterNumber("Chapter " + Format(d) + post) == d
  {
    FormatIsRun(d);
    SpaceAfterWord(Format(d), post);
    ChapterNumberOfTitle(" ", Format(d), post);
  }

  lemma FormatIsRun(d: Dec)
    ensures Format(d) != [] && AllNumeric(Format(d)) && ParseDecimal(Format(d)) == Some(d)
  {
    FormatRoundTrip(d);
    assert IsDecimalText(Format(d));
  }

  lemma SpaceAfterWord(x: string, post: string)
    ensures "Chapter " + x + post == "Chapter" + " " + x + post
    ensures AllWhiteSpace(" ")
  {
    assert "Chapter " == "Chapter" + " ";
  }

  // ---------------------------------------------------------------------
  // Catalog items
  // ---------------------------------------------------------------------

  /** What `ConvertToMangaFromList` needs to return at all: a status node
      (its text is lower-cased without a null check) and a cover image whose
      `src` `new Uri` accepts. */
  predicate ListItemConvertible(item: ListItem) {
    item.status.Some? && ListItemCoverValid(item)
  }

  /** A cover image whose `src` `new Uri` accepts. */
  predicate ListItemCoverValid(item: ListItem) {
    item.coverImage.Some? && AbsoluteUrl(AttributeOr(item.coverImage.value, "src", ""))
  }

  /** `ConvertToMangaFromList`: the catalog record of one search result. */
  function MangaFromList(item: ListItem): (m: Manga)
    requires ListItemConvertible(item)
    ensures m.title != [] && IsTrimmed(m.title)
    ensures m.id.Some? <==> item.titleLink.Some?
    ensures m.websiteUrl.Some? <==> item.titleLink.Some?
    ensures m.websiteUrl == Href(item.titleLink)
    ensures m.id.Some? ==> m.websiteUrl.Some? && m.id.value == LastSegment(m.websiteUrl.value)
    ensures m.id.Some? ==> IsTailSegment(m.id.value, m.websiteUrl.value)
    ensures m.coverUrl == AttributeOr(item.coverImage.value, "src", "") && AbsoluteUrl(m.coverUrl)
    ensures m.coverFileName == LastSegment(m.coverUrl) && IsTailSegment(m.coverFileName, m.coverUrl)
    ensures m.description == TrimmedText(item.summary)
    ensures m.tags == GenreTags(item.genres)
    ensures |m.tags| == if item.genres.Some? then |item.genres.value| else 0
    ensures m.latestChapterAvailable.None?
    ensures m.year == 0 || m.year >= 1
    ensures m.isFamilySafe
  {
    var url := Href(item.titleLink);
    var title := RecoveredTitle(item.titleLink, UntitledManga);
    var id := match url case Some(u) => Some(LastSegment(u)) case None => None;
    var coverUrl := AttributeOr(item.coverImage.value, "src", "");
    var status := TrimmedText(item.status);
    var releaseDate := TrimmedText(item.releaseDate);
    Manga(
      id := id,
      title := title,
      description := TrimmedText(item.summary),
      websiteUrl := url,
      coverFileName := LastSegment(coverUrl),
      coverUrl := coverUrl,
      tags := GenreTags(item.genres),
      latestChapterAvailable := None,
      releaseStatus := StatusOf(status),
      year := ReleaseYear(releaseDate),
      isFamilySafe := true)
  }

  /** The search-result record's recovered fields: status, year and title
      each follow their rule applied to the node's trimmed text. */
  lemma MangaFromListFields(item: ListItem)
    requires ListItemConvertible(item)
    ensures MangaFromList(item).releaseStatus == StatusOf(Some(Trim(item.status.value.innerText)))
    ensures MangaFromList(item).year == ReleaseYear(TrimmedText(item.releaseDate))
    ensures MangaFromList(item).title == RecoveredTitle(item.titleLink, UntitledManga)
    ensures item.titleLink.None? ==> MangaFromList(item).title == UntitledManga
  {
  }

  /** A search result's release date written "MMM-dd-yyyy" gives that year
      when it names a real day, and 0 otherwise. */
  lemma MangaFromListYear(item: ListItem, m: nat, d: nat, y: nat)
    requires ListItemConvertible(item)
    requires 1 <= m <= 12 && d < 100 && y < 10000
    requires item.releaseDate.Some? && Trim(item.releaseDate.value.innerText) == FormatDate(m, d, y)
    ensures MangaFromList(item).year == if IsValidDate(m, d, y) then y else 0
  {
    ReleaseYearOfFormattedDate(m, d, y);
  }

  /** As written, a search result without a status node is not converted:
      its status text is lower-cased without the null check the detail page
      has. */
  lemma MissingStatusIsRejected(item: ListItem)
    requires item.status.None?
    ensures !ListItemConvertible(item)
  {
  }

  /** `ConvertToMangaFromList` as evidently intended: a missing status node
      reads as no status, Unreleased, as on the detail page; with a status
      node it is the conversion as written. */
  function IntendedMangaFromList(item: ListItem): (m: Manga)
    requires ListItemCoverValid(item)
    ensures m.releaseStatus == StatusOf(TrimmedText(item.status))
    ensures item.status.None? ==> m.releaseStatus == Unreleased
    ensures item.status.Some? ==> m == MangaFromList(item)
  {
    if item.status.Some? then MangaFromList(item)
    else
      var m := MangaFromList(item.(status := Some(Element("", map[]))));
      assert Trim("") == "";
      m
  }

  /** The status node decides nothing but the release status: every other
      field is the one the conversion as written gives for any status node. */
  lemma IntendedMangaFromListOtherFields(item: ListItem, statusNode: Element)
    requires ListItemCoverValid(item)
    ensures IntendedMangaFromList(item).(releaseStatus := Unreleased)
            == MangaFromList(item.(status := Some(statusNode))).(releaseStatus := Unreleased)
  {
  }

  /** What `ConvertToMangaFromSingleBook` needs: a cover image whose `src`
      `new Uri` accepts. */
  predicate SingleBookConvertible(book: SingleBook) {
    book.coverImage.Some? && AbsoluteUrl(AttributeOr(book.coverImage.value, "src", ""))
  }

  /** `ConvertToMangaFromSingleBook`: the catalog record of a detail page,
      under the id it was requested by. */
  function MangaFromSingleBook(book: SingleBook, id: string): (m: Manga)
    requires SingleBookConvertible(book)
    ensures m.id == Some(id)
    ensures m.title == RecoveredTitle(book.heading, UntitledManga)
    ensures m.title != [] && IsTrimmed(m.title)
    ensures m.websiteUrl == Href(book.firstChapterButton)
    ensures m.websiteUrl.Some? <==> book.firstChapterButton.Some?
    ensures m.coverUrl == AttributeOr(book.coverImage.value, "src", "") && AbsoluteUrl(m.coverUrl)
    ensures m.coverFileName == LastSegment(m.coverUrl) && IsTailSegment(m.coverFileName, m.coverUrl)
    ensures m.description == TrimmedText(book.summary)
    ensures m.tags == GenreTags(book.genres)
    ensures |m.tags| == if book.genres.Some? then |book.genres.value| else 0
    ensures m.latestChapterAvailable.Some?
    ensures book.status.None? ==> m.releaseStatus == Unreleased
    ensures m.year == 0 || m.year >= 1
    ensures m.isFamilySafe
  {
    var title := RecoveredTitle(book.heading, UntitledManga);
    var url := Href(book.firstChapterButton);
    var coverUrl := AttributeOr(book.coverImage.value, "src", "");
    Manga(
      id := Some(id),
      title := title,
      description := TrimmedText(book.summary),
      websiteUrl := url,
      coverFileName := LastSegment(coverUrl),
      coverUrl := coverUrl,
      tags := GenreTags(book.genres),
      latestChapterAvailable := Some(LatestChapter(book.latestChapter)),
      releaseStatus := StatusOf(TrimmedText(book.status)),
      year := ReleaseYear(TrimmedText(book.updateAt)),
      isFamilySafe := true)
  }

  /** The detail-page record's recovered fields follow their rules: the
      latest chapter from the label, the status from the status text (a
      missing one Unreleased), the year from the `updateAt` text. */
  lemma MangaFromSingleBookFields(book: SingleBook, id: string)
    requires SingleBookConvertible(book)
    ensures MangaFromSingleBook(book, id).latestChapterAvailable == Some(LatestChapter(book.latestChapter))
    ensures MangaFromSingleBook(book, id).releaseStatus == StatusOf(TrimmedText(book.status))
    ensures MangaFromSingleBook(book, id).year == ReleaseYear(TrimmedText(book.updateAt))
    ensures book.latestChapter.None? ==> MangaFromSingleBook(book, id).latestChapterAvailable == Some(Zero)
  {
    LatestChapterFallbacks(book.latestChapter);
  }

  // ---------------------------------------------------------------------
  // Pages
  // ---------------------------------------------------------------------

  /** `imgNode.GetAttributeValue("data-src", null) ??
      imgNode.GetAttributeValue("src", null)`: `data-src` when the image has
      that attribute, whatever its value, else `src`. */
  function ImageUrl(img: Element): Option<string> {
    match AttributeOpt(img, "data-src")
    case Some(u) => Some(u)
    case None => AttributeOpt(img, "src")
  }

  /** The page a block yields, or `None` for a block the loop skips. */
  function PageOf(chapter: Chapter, b: PageBlock): (p: Option<Page>)
    ensures p.Some? ==> (p.value.id == AttributeOr(b.block, "id", "") && StartsWith(p.value.id, "page")
                         && ParseDecimal(p.value.id[4..]) == Some(p.value.pageNumber))
    ensures p.Some? ==> p.value.chapterId == chapter.id && p.value.parentChapter == chapter
    ensures p.Some? ==> b.image.Some? && ImageUrl(b.image.value) == Some(p.value.imageUrl) && p.value.imageUrl != []
  {
    var id := AttributeOr(b.block, "id", "");
    if !StartsWith(id, "page") then None
    else
      match ParseDecimal(id[4..])
      case None => None
      case Some(number) =>
        match b.image
        case None => None
        case Some(img) =>
          match ImageUrl(img)
          case None => None
          case Some(url) => if url == [] then None else Some(Page(id, chapter.id, number, url, chapter))
  }

  /** A block is kept exactly when its id starts "page", the rest of the id
      is a decimal, it has an image, and the chosen image URL is not
      empty. */
  predicate PageAccepted(b: PageBlock) {
    var id := AttributeOr(b.block, "id", "");
    StartsWith(id, "page") && IsDecimalText(id[4..])
    && b.image.Some? && ImageUrl(b.image.value).Some? && ImageUrl(b.image.value).value != []
  }

  lemma PageOfAccepts(chapter: Chapter, b: PageBlock)
    ensures PageOf(chapter, b).Some? <==> PageAccepted(b)
  {
  }

  /** An image with a `data-src` that is present but empty drops its block,
      whatever its `src` says. */
  lemma EmptyDataSrcDropsPage(chapter: Chapter, b: PageBlock)
    requires b.image.Some? && "data-src" in b.image.value.attributes
    requires b.image.value.attributes["data-src"] == []
    ensures PageOf(chapter, b).None?
  {
  }

  /** A block whose id is "page" then a number in canonical form gets that
      number as its page number. */
  lemma PageNumberOfId(chapter: Chapter, b: PageBlock, d: Dec)
    requires AttributeOr(b.block, "id", "") == "page" + Format(d)
    requires b.image.Some? && ImageUrl(b.image.value).Some? && ImageUrl(b.image.value).value != []
    ensures PageOf(chapter, b).Some? && PageOf(chapter, b).value.pageNumber == d
  {
    var id := "page" + Format(d);
    assert id[..4] == "page";
    assert id[4..] == Format(d);
    FormatRoundTrip(d);
  }

  function PageFilter(chapter: Chapter): PageBlock -> Option<Page> {
    b => PageOf(chapter, b)
  }

  /** The pages of a chapter, in block order; none for a null collection. */
  function ChapterPages(chapter: Chapter, blocks: Option<seq<PageBlock>>): seq<Page> {
    match blocks
    case None => []
    case Some(s) => FilterMap(PageFilter(chapter), s)
  }

  /** What `new Uri(imageUrl)` needs for every page the loop emits. */
  predicate PageUrlsValid(chapter: Chapter, blocks: Option<seq<PageBlock>>) {
    blocks.Some? ==> forall i :: 0 <= i < |blocks.value| ==>
      PageOf(chapter, blocks.value[i]).Some? ==> AbsoluteUrl(PageOf(chapter, blocks.value[i]).value.imageUrl)
  }

  /** `ConvertToChapterPages`: the `foreach` with its four `continue`s. */
  method ConvertToChapterPages(chapter: Chapter, blocks: Option<seq<PageBlock>>) returns (pages: seq<Page>)
    requires PageUrlsValid(chapter, blocks)
    ensures pages == ChapterPages(chapter, blocks)
  {
    if blocks.None? {
      return [];
    }
    var nodes := blocks.value;
    pages := [];
    for i := 0 to |nodes|
      invariant pages == FilterMap(PageFilter(chapter), nodes[..i])
    {
      FilterMapStep(PageFilter(chapter), nodes, i);
      var node := nodes[i];
      var idAttr := AttributeOr(node.block, "id", "");
      if !StartsWith(idAttr, "page") {
        continue;
      }
      var pageNumber := ParseDecimal(idAttr[4..]);
      if pageNumber.None? {
        continue;
      }
      if node.image.None? {
        continue;
      }
      var imageUrl := ImageUrl(node.image.value);
      if imageUrl.None? || imageUrl.value == [] {
        continue;
      }
      var page := Page(idAttr, chapter.id, pageNumber.value, imageUrl.value, chapter);
      assert PageOf(chapter, node) == Some(page);
      assert AbsoluteUrl(page.imageUrl);
      pages := pages + [page];
    }
    assert nodes[..|nodes|] == nodes;
  }

  /** Every page belongs to the chapter, has a non-empty image URL and an id
      starting "page"; the k-th page comes from the k-th accepted block;
      accepted blocks come in document order and none is skipped. */
  lemma ChapterPagesFaithful(chapter: Chapter, s: seq<PageBlock>)
    ensures var pages, kept := ChapterPages(chapter, Some(s)), Kept(PageFilter(chapter), s);
      |kept| == |pages|
      && (forall k :: 0 <= k < |pages| ==> kept[k] < |s| && PageOf(chapter, s[kept[k]]) == Some(pages[k]))
      && (forall k, l :: 0 <= k < l < |kept| ==> kept[k] < kept[l])
      && (forall i :: 0 <= i < |s| && PageAccepted(s[i]) ==> i in kept)
  {
    var f := PageFilter(chapter);
    KeptRecords(f, s);
    KeptIncreasing(f, s);
    KeptComplete(f, s);
    forall i | 0 <= i < |s| && PageAccepted(s[i]) ensures f(s[i]).Some? {
      PageOfAccepts(chapter, s[i]);
    }
  }

  /** Pages of a chapter all name that chapter. */
  lemma ChapterPagesOfChapter(chapter: Chapter, blocks: Option<seq<PageBlock>>)
    ensures forall k :: 0 <= k < |ChapterPages(chapter, blocks)| ==>
      ChapterPages(chapter, blocks)[k].chapterId == chapter.id
      && ChapterPages(chapter, blocks)[k].parentChapter == chapter
      && ChapterPages(chapter, blocks)[k].imageUrl != []
  {
    if blocks.Some? {
      KeptRecords(PageFilter(chapter), blocks.value);
    }
  }

  // ---------------------------------------------------------------------
  // Chapters
  // ---------------------------------------------------------------------

  /** The chapter a row yields, or `None` for a row the loop skips. */
  function ChapterOf(manga: Manga, row: ChapterRow): (c: Option<Chapter>)
    ensures c.Some? <==> row.chapterLink.Some?
    ensures c.Some? ==> c.value.parentManga == manga && c.value.volume == 0
    ensures c.Some? ==> c.value.title != [] && IsTrimmed(c.value.title)
    ensures c.Some? ==> c.value.uri == AttributeOr(row.chapterLink.value, "href", "")
    ensures c.Some? ==> IsTailSegment(c.value.id, c.value.uri)
  {
    match row.chapterLink
    case None => None
    case Some(link) =>
      var title := RecoveredTitle(Some(link), UntitledChapter);
      var uri := AttributeOr(link, "href", "");
      Some(Chapter(LastSegment(uri), title, manga, 0, ChapterNumber(title), uri))
  }

  /** The title and number of a row's chapter follow their rules. */
  lemma ChapterOfFields(manga: Manga, row: ChapterRow)
    requires row.chapterLink.Some?
    ensures ChapterOf(manga, row).value.title == RecoveredTitle(row.chapterLink, UntitledChapter)
    ensures ChapterOf(manga, row).value.number == ChapterNumber(ChapterOf(manga, row).value.title)
    ensures ChapterOf(manga, row).value.id == LastSegment(ChapterOf(manga, row).value.uri)
  {
  }

  function ChapterFilter(manga: Manga): ChapterRow -> Option<Chapter> {
    row => ChapterOf(manga, row)
  }

  /** The chapters of a detail page, in row order; none for a null row
      collection. */
  function BookChapters(manga: Manga, rows: Option<seq<ChapterRow>>): seq<Chapter> {
    match rows
    case None => []
    case Some(s) => FilterMap(ChapterFilter(manga), s)
  }

  /** What `new Uri(uri)` needs for every row that has a link. */
  predicate ChapterUrisValid(rows: Option<seq<ChapterRow>>) {
    rows.Some? ==> forall i :: 0 <= i < |rows.value| ==>
      rows.value[i].chapterLink.Some? ==> AbsoluteUrl(AttributeOr(rows.value[i].chapterLink.value, "href", ""))
  }

  /** `ConvertChaptersFromSingleBook`: the `foreach` over the chapter rows. */
  method ConvertChaptersFromSingleBook(manga: Manga, book: SingleBook) returns (chapters: seq<Chapter>)
    requires ChapterUrisValid(book.chapterRows)
    ensures chapters == BookChapters(manga, book.chapterRows)
  {
    var chapterRows := book.chapterRows;
    chapters := [];
    if chapterRows.None? {
      return chapters;
    }
    var rows := chapterRows.value;
    for i := 0 to |rows|
      invariant chapters == FilterMap(ChapterFilter(manga), rows[..i])
    {
      FilterMapStep(ChapterFilter(manga), rows, i);
      var row := rows[i];
      var chapterLink := row.chapterLink;
      if chapterLink.None? {
        continue;
      }
      var title := RecoveredTitle(chapterLink, UntitledChapter);
      var uri := AttributeOr(chapterLink.value, "href", "");
      var chapterId := LastSegment(uri);
      var number := ChapterNumber(title);
      var chapter := Chapter(chapterId, title, manga, 0, number, uri);
      assert ChapterOf(manga, row) == Some(chapter);
      assert AbsoluteUrl(uri);
      chapters := chapters + [chapter];
    }
    assert rows[..|rows|] == rows;
  }

  /** One chapter per row with a link, in row order: the k-th chapter
      comes from the k-th linked row, linked rows come in order, and none is
      skipped. */
  lemma BookChaptersFaithful(manga: Manga, s: seq<ChapterRow>)
    ensures var chapters, kept := BookChapters(manga, Some(s)), Kept(ChapterFilter(manga), s);
      |kept| == |chapters|
      && (forall k :: 0 <= k < |chapters| ==> kept[k] < |s| && ChapterOf(manga, s[kept[k]]) == Some(chapters[k]))
      && (forall k, l :: 0 <= k < l < |kept| ==> kept[k] < kept[l])
      && (forall i :: 0 <= i < |s| && s[i].chapterLink.Some? ==> i in kept)
  {
    var f := ChapterFilter(manga);
    KeptRecords(f, s);
    KeptIncreasing(f, s);
    KeptComplete(f, s);
  }

  /** When every row has a link, the i-th chapter is the i-th row's. */
  lemma AllLinkedRowsGiveChapters(manga: Manga, s: seq<ChapterRow>)
    requires forall i :: 0 <= i < |s| ==> s[i].chapterLink.Some?
    ensures |BookChapters(manga, Some(s))| == |s|
    ensures forall i :: 0 <= i < |s| ==> ChapterOf(manga, s[i]) == Some(BookChapters(manga, Some(s))[i])
  {
    FilterMapAllKept(ChapterFilter(manga), s);
  }

  /** Every chapter has the given manga as parent and volume 0. */
  lemma BookChaptersOfManga(manga: Manga, rows: Option<seq<ChapterRow>>)
    ensures forall k :: 0 <= k < |BookChapters(manga, rows)| ==>
      BookChapters(manga, rows)[k].parentManga == manga && BookChapters(manga, rows)[k].volume == 0
  {
    if rows.Some? {
      KeptRecords(ChapterFilter(manga), rows.value);
    }
  }
}

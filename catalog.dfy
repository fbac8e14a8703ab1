/** The records the agent reads and the records it builds.

    Markup arrives already selected: each field of a node record is what the
    agent's XPath query for that field returns, `None` where
    `SelectSingleNode`/`SelectNodes` return null. The catalog records are
    what the Core builders produce, as plain values. */
module Catalog {
  import opened Wrappers
  import opened Decimals

  // ---------------------------------------------------------------------
  // Markup
  // ---------------------------------------------------------------------

  /** An HTML element: its inner text and its attributes. */
  datatype Element = Element(innerText: string, attributes: map<string, string>)

  /** `GetAttributeValue(name, def)`: the attribute's value, or `def` when the
      element has no such attribute. */
  function AttributeOr(e: Element, name: string, def: string): string {
    if name in e.attributes then e.attributes[name] else def
  }

  /** `GetAttributeValue(name, null)`. */
  function AttributeOpt(e: Element, name: string): Option<string> {
    if name in e.attributes then Some(e.attributes[name]) else None
  }

  /** One `div.item` of the search result list, by its queries:
      `.//h3[@class='title']/a`, `.//div[@class='wrap_img']//img`, the
      status and date `div`s, the first-chapter link, the genre links and
      the summary. */
  datatype ListItem = ListItem(
    titleLink: Option<Element>,
    coverImage: Option<Element>,
    status: Option<Element>,
    releaseDate: Option<Element>,
    firstChapterLink: Option<Element>,
    genres: Option<seq<Element>>,
    summary: Option<Element>)

  /** One row of the chapter table: its `div.chapter/a` link and its
      `div.update_time`. */
  datatype ChapterRow = ChapterRow(chapterLink: Option<Element>, updateTime: Option<Element>)

  /** The `#single_book` block of a detail page, by its queries: the heading,
      the `fc_bt` button, the cover image, the status and `updateAt` `div`s,
      the genre links, the summary paragraph, the latest-chapter label and
      the chapter table's rows. */
  datatype SingleBook = SingleBook(
    heading: Option<Element>,
    firstChapterButton: Option<Element>,
    coverImage: Option<Element>,
    status: Option<Element>,
    updateAt: Option<Element>,
    genres: Option<seq<Element>>,
    summary: Option<Element>,
    latestChapter: Option<Element>,
    chapterRows: Option<seq<ChapterRow>>)

  /** One `div.wrap_img` of a reader page and its `.//img` descendant. */
  datatype PageBlock = PageBlock(block: Element, image: Option<Element>)

  // ---------------------------------------------------------------------
  // Catalog
  // ---------------------------------------------------------------------

  datatype ReleaseStatus = Completed | Continuing | Unreleased

  datatype Manga = Manga(
    id: Option<string>,
    title: string,
    description: Option<string>,
    websiteUrl: Option<string>,
    coverFileName: string,
    coverUrl: string,
    tags: seq<string>,
    latestChapterAvailable: Option<Dec>,
    releaseStatus: ReleaseStatus,
    year: int,
    isFamilySafe: bool)

  datatype Chapter = Chapter(
    id: string,
    title: string,
    parentManga: Manga,
    volume: int,
    number: Dec,
    uri: string)

  datatype Page = Page(
    id: string,
    chapterId: string,
    pageNumber: Dec,
    imageUrl: string,
    parentChapter: Chapter)

  /** The three counts `new PaginationOptions(a, b, c)` is built from, in
      argument order. */
  datatype PaginationOptions = PaginationOptions(first: int, second: int, third: int)

  datatype PagedResult<T> = PagedResult(data: seq<T>, pagination: PaginationOptions)
}

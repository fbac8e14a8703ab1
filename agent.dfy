/** The result-shaping tails of `SearchAsync` and `GetChaptersAsync`: what
    each builds from the nodes its queries selected. The page navigation
    before them is browser I/O and is not part of this model; the selected
    nodes are the inputs. */
module Agent {
  import opened Wrappers
  import opened Catalog
  import opened Extraction
  import opened Seqs

  /** What the search loop needs: a result list to walk (`foreach` over a
      null collection throws) whose every item `ConvertToMangaFromList`
      accepts. */
  predicate SearchConvertible(items: Option<seq<ListItem>>) {
    items.Some? && forall i :: 0 <= i < |items.value| ==> ListItemConvertible(items.value[i])
  }

  /** `SearchAsync`: one catalog record per result item, in item order, and
      all three pagination counts set to the number of records. */
  method SearchResults(items: Option<seq<ListItem>>) returns (result: PagedResult<Manga>)
    requires SearchConvertible(items)
    ensures |result.data| == |items.value|
    ensures forall i :: 0 <= i < |result.data| ==> result.data[i] == MangaFromList(items.value[i])
    ensures result.pagination == PaginationOptions(|result.data|, |result.data|, |result.data|)
  {
    var mangas := ConvertEach(MangaFromList, items.value);
    var count := |mangas|;
    result := PagedResult(mangas, PaginationOptions(count, count, count));
  }

  /** As written, a search page without result items is not converted:
      `SelectNodes` gives `null` for no match and the loop walks it. */
  lemma NoHitsIsRejected()
    ensures !SearchConvertible(None)
  {
  }

  /** `SearchAsync` as evidently intended: no result items give an empty
      result, a result item without a status node is Unreleased, and where
      the search as written succeeds the two agree. */
  method IntendedSearchResults(items: Option<seq<ListItem>>) returns (result: PagedResult<Manga>)
    requires items.Some? ==> forall i :: 0 <= i < |items.value| ==> ListItemCoverValid(items.value[i])
    ensures items.None? ==> result.data == []
    ensures items.Some? ==> |result.data| == |items.value|
    ensures items.Some? ==> forall i :: 0 <= i < |result.data| ==> result.data[i] == IntendedMangaFromList(items.value[i])
    ensures SearchConvertible(items) ==> forall i :: 0 <= i < |result.data| ==> result.data[i] == MangaFromList(items.value[i])
    ensures result.pagination == PaginationOptions(|result.data|, |result.data|, |result.data|)
  {
    var mangas := [];
    if items.Some? {
      mangas := ConvertEach(IntendedMangaFromList, items.value);
    }
    var count := |mangas|;
    result := PagedResult(mangas, PaginationOptions(count, count, count));
  }

  /** `GetChaptersAsync`: the chapters of the detail page, in row order, and
      all three pagination counts set to their number. */
  method ChaptersResult(manga: Manga, book: SingleBook) returns (result: PagedResult<Chapter>)
    requires ChapterUrisValid(book.chapterRows)
    ensures result.data == BookChapters(manga, book.chapterRows)
    ensures result.pagination == PaginationOptions(|result.data|, |result.data|, |result.data|)
  {
    var chapters := ConvertChaptersFromSingleBook(manga, book);
    var count := |chapters|;
    result := PagedResult(chapters, PaginationOptions(count, count, count));
  }
}

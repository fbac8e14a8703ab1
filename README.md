# MangaKatana crawler agent, modelled in Dafny

`MangaKatanaCrawlerAgent` is a KamiYomu crawler agent for mangakatana.com. It
opens pages in a headless browser, selects markup with XPath queries and turns
the selected nodes into the KamiYomu catalog records `Manga`, `Chapter` and
`Page`. This project models three parts of it:

- **Extraction and field recovery.** `ConvertToChapterPages`,
  `ConvertToMangaFromList`, `ConvertToMangaFromSingleBook` and
  `ConvertChaptersFromSingleBook`. They cover the title sentinels, ids taken
  from the last `/`-segment, the status mapping, the numeric recovery with
  its regular expressions and `decimal.TryParse`, and the `MMM-dd-yyyy`
  year (modules `Text`, `Decimals`, `Patterns`, `Dates`, `Seqs`,
  `Catalog`, `Extraction`).
- **Result shaping.** The tails of `SearchAsync` and `GetChaptersAsync`
  (module `Agent`).
- **Resource lifecycle.** The lazy HTTP-client and browser holders, and the
  `_disposed` flag with the three disposal paths (module `Session`).

The agent's inputs are modelled as already selected:
- A node record (`ListItem`, `SingleBook`, `ChapterRow`, `PageBlock`)
  has one field per XPath query of the source.
- A field is `None` where `SelectSingleNode`/`SelectNodes` would return
  null.
- An `Element` is an element's inner text and its attributes.

Decimals are exact: a mantissa and a scale.

Where the source would throw, the model states the condition that avoids the
throw as a precondition:
- The list form lower-cases the status text without a null check (line 261),
  so `ListItemConvertible` requires a status node.
- `new Uri(..)` must accept the cover, image and chapter URLs (lines 209, 259,
  323, 369). This is `AbsoluteUrl`, required by `ListItemConvertible`,
  `SingleBookConvertible`, `PageUrlsValid` and `ChapterUrisValid`.
- `SearchAsync` walks its result list without a null check (lines 135-136),
  so `SearchConvertible` requires the list.

The first and the last of these throws look unintended. "## Findings" pairs
each one with a corrected, total variant: `Extraction.IntendedMangaFromList`
and `Agent.IntendedSearchResults`.

The two extraction loops and the search loop are methods.
- Both extraction loops are proved equal to a specification function built on
  `Seqs.FilterMap`: one record per accepted node, in node order.
- The search loop is `Seqs.ConvertEach` applied to `ConvertToMangaFromList`. It is proved to produce one record per item, in item order.

The `Session.Lifecycle` value records whether each resource was created, the
launch outcome, and counters of creations and releases.
- Its `After*` functions are the calls.
- `Session.MangaKatanaCrawlerAgent` is the object. Each of its methods is
  proved to leave its fields as the matching function prescribes, and to keep
  `Valid`.
- Whether a browser launch succeeds, and whether closing the browser
  succeeds, are inputs.

## Model

| member | source | states |
|---|---|---|
| Text.Trim | src/KamiYomu.CrawlerAgents.MangaKatana/MangaKatanaCrawlerAgent.cs:226 | `string.Trim()`: the result neither starts nor ends with white space and is no longer than the text |
| Text.TrimDecomposition | src/KamiYomu.CrawlerAgents.MangaKatana/MangaKatanaCrawlerAgent.cs:226 | the trimmed text is a contiguous slice of the text with only white space before and after it |
| Text.TrimUnique | src/KamiYomu.CrawlerAgents.MangaKatana/MangaKatanaCrawlerAgent.cs:226 | white space, then a trimmed text, then white space trims to exactly that text |
| Text.TrimIdempotent | src/KamiYomu.CrawlerAgents.MangaKatana/MangaKatanaCrawlerAgent.cs:234 | trimming a trimmed text changes nothing |
| Text.ToLower | src/KamiYomu.CrawlerAgents.MangaKatana/MangaKatanaCrawlerAgent.cs:261 | same length; each character is lowered (ASCII letters), others kept |
| Text.ToLowerIdempotent | src/KamiYomu.CrawlerAgents.MangaKatana/MangaKatanaCrawlerAgent.cs:261 | lower-casing twice equals lower-casing once |
| Text.SplitHasNoSeparator | src/KamiYomu.CrawlerAgents.MangaKatana/MangaKatanaCrawlerAgent.cs:227 | no part of `Split(s, sep)` contains the separator |
| Text.SplitJoin | src/KamiYomu.CrawlerAgents.MangaKatana/MangaKatanaCrawlerAgent.cs:227 | joining the parts of `Split` with the separator gives back the text |
| Text.SplitWithoutSeparator | src/KamiYomu.CrawlerAgents.MangaKatana/MangaKatanaCrawlerAgent.cs:227 | a text without the separator splits into itself alone |
| Text.LastSegment | src/KamiYomu.CrawlerAgents.MangaKatana/MangaKatanaCrawlerAgent.cs:227 | the id contains no `/`, is a suffix of the href, and is preceded by `/` whenever it is shorter than the href |
| Text.LastSegmentIsLastPart | src/KamiYomu.CrawlerAgents.MangaKatana/MangaKatanaCrawlerAgent.cs:356 | the id is `Split('/').Last()` of the href |
| Text.LastSegmentWithoutSlash | src/KamiYomu.CrawlerAgents.MangaKatana/MangaKatanaCrawlerAgent.cs:227 | an href without `/` is its own id |
| Text.LastSegmentIdempotent | src/KamiYomu.CrawlerAgents.MangaKatana/MangaKatanaCrawlerAgent.cs:356 | deriving the id of an id returns it unchanged |
| Decimals.ParseDecimal | src/KamiYomu.CrawlerAgents.MangaKatana/MangaKatanaCrawlerAgent.cs:194 | `decimal.TryParse` succeeds exactly on texts of digits and points with at least one digit and no point after the first one |
| Decimals.ParseDecimalAccepts | src/KamiYomu.CrawlerAgents.MangaKatana/MangaKatanaCrawlerAgent.cs:194 | the same acceptance rule, stated with the number of points: at most one |
| Decimals.ParsePointed | src/KamiYomu.CrawlerAgents.MangaKatana/MangaKatanaCrawlerAgent.cs:314 | digits, a point, digits parse to the value of all the digits with scale the number after the point |
| Decimals.ParseDigits | src/KamiYomu.CrawlerAgents.MangaKatana/MangaKatanaCrawlerAgent.cs:314 | a run of digits parses to its value with scale 0 |
| Decimals.FormatRoundTrip | src/KamiYomu.CrawlerAgents.MangaKatana/MangaKatanaCrawlerAgent.cs:194 | every decimal written in canonical form parses back to itself |
| Decimals.ParseDecimalTrailingPoint | src/KamiYomu.CrawlerAgents.MangaKatana/MangaKatanaCrawlerAgent.cs:194 | "10." parses as 10 |
| Decimals.ParseDecimalLeadingPoint | src/KamiYomu.CrawlerAgents.MangaKatana/MangaKatanaCrawlerAgent.cs:194 | ".5" parses as 0.5 |
| Decimals.ParseDecimalScaleExample | src/KamiYomu.CrawlerAgents.MangaKatana/MangaKatanaCrawlerAgent.cs:360 | "1.50" parses as 150 at scale 2 |
| Decimals.ParseDecimalDigitsExample | src/KamiYomu.CrawlerAgents.MangaKatana/MangaKatanaCrawlerAgent.cs:314 | "3" parses as 3 |
| Decimals.ParseDecimalRejectsExamples | src/KamiYomu.CrawlerAgents.MangaKatana/MangaKatanaCrawlerAgent.cs:314 | ".", "1.2.3", "" and "-3" do not parse |
| Patterns.FirstNumericRun | src/KamiYomu.CrawlerAgents.MangaKatana/MangaKatanaCrawlerAgent.cs:311 | `([\d\.]+)` fails exactly on a text with no digit or point; a capture is non-empty and made of digits and points |
| Patterns.FirstNumericRunIsLeftmost | src/KamiYomu.CrawlerAgents.MangaKatana/MangaKatanaCrawlerAgent.cs:311-312 | the capture is the leftmost maximal run of digits and points |
| Patterns.ChapterMatchAt | src/KamiYomu.CrawlerAgents.MangaKatana/MangaKatanaCrawlerAgent.cs:359 | a match of `Chapter\s+([\d\.]+)` at a position captures a non-empty run of digits and points |
| Patterns.ChapterMatchAtShape | src/KamiYomu.CrawlerAgents.MangaKatana/MangaKatanaCrawlerAgent.cs:359 | "Chapter", white space, a run and a tail that does not continue the run match and capture the run |
| Patterns.ChapterCapture | src/KamiYomu.CrawlerAgents.MangaKatana/MangaKatanaCrawlerAgent.cs:359 | the search fails exactly when no position matches; otherwise it is the capture at some position |
| Patterns.ChapterCaptureAt | src/KamiYomu.CrawlerAgents.MangaKatana/MangaKatanaCrawlerAgent.cs:359 | the search returns the capture of the leftmost matching position |
| Patterns.ChapterCaptureExample | src/KamiYomu.CrawlerAgents.MangaKatana/MangaKatanaCrawlerAgent.cs:359 | "Chapter 12" captures "12" |
| Patterns.ChapterMatchIsCaseSensitive | src/KamiYomu.CrawlerAgents.MangaKatana/MangaKatanaCrawlerAgent.cs:359 | "chapter 3" does not match |
| Patterns.ChapterMatchNeedsSpace | src/KamiYomu.CrawlerAgents.MangaKatana/MangaKatanaCrawlerAgent.cs:359 | "Chapter3" does not match |
| Dates.ReleaseYear | src/KamiYomu.CrawlerAgents.MangaKatana/MangaKatanaCrawlerAgent.cs:267 | the year is 0 or at least 1 |
| Dates.ReleaseYearIsFormattedDate | src/KamiYomu.CrawlerAgents.MangaKatana/MangaKatanaCrawlerAgent.cs:267 | a text that gives a non-zero year has the "MMM-dd-yyyy" shape and a known month, and is a date of the calendar written in the pattern up to the case of the month; the year it gives is that date's year. With `ReleaseYearOfFormattedDate` and `ReleaseYearIgnoresMonthCase` this characterises the texts that parse |
| Dates.FixedDigitsOfValue | src/KamiYomu.CrawlerAgents.MangaKatana/MangaKatanaCrawlerAgent.cs:267 | a text of digits has a value below 10 to the power of its length, and writing that value with as many digits gives the text back |
| Dates.MonthNameIsAbbreviation | src/KamiYomu.CrawlerAgents.MangaKatana/MangaKatanaCrawlerAgent.cs:267 | a recognised month name equals its month's English abbreviation up to case |
| Dates.MonthNumberOfAbbreviation | src/KamiYomu.CrawlerAgents.MangaKatana/MangaKatanaCrawlerAgent.cs:267 | each English abbreviation names its own month |
| Dates.MonthNumberOfLowerCase | src/KamiYomu.CrawlerAgents.MangaKatana/MangaKatanaCrawlerAgent.cs:267 | a month name is recognised regardless of case |
| Dates.ReleaseYearOfFormattedDate | src/KamiYomu.CrawlerAgents.MangaKatana/MangaKatanaCrawlerAgent.cs:267 | a text written "MMM-dd-yyyy" gives its year exactly when the day exists in that month and year, else 0 |
| Dates.ReleaseYearOfPieces | src/KamiYomu.CrawlerAgents.MangaKatana/MangaKatanaCrawlerAgent.cs:332 | a text of the right shape gives its year when the month is known and the day exists, else 0 |
| Dates.ReleaseYearIgnoresMonthCase | src/KamiYomu.CrawlerAgents.MangaKatana/MangaKatanaCrawlerAgent.cs:332 | texts that differ only in the case of the month give the same year |
| Dates.ReleaseYearExample | src/KamiYomu.CrawlerAgents.MangaKatana/MangaKatanaCrawlerAgent.cs:267 | "Jan-05-2020" gives 2020 |
| Dates.ReleaseYearUpperCaseExample | src/KamiYomu.CrawlerAgents.MangaKatana/MangaKatanaCrawlerAgent.cs:267 | "JAN-05-2020" gives 2020 |
| Dates.ReleaseYearWrongPatternExamples | src/KamiYomu.CrawlerAgents.MangaKatana/MangaKatanaCrawlerAgent.cs:267 | "05 Jan 2020" and a missing text give 0 |
| Dates.ReleaseYearNoSuchDayExample | src/KamiYomu.CrawlerAgents.MangaKatana/MangaKatanaCrawlerAgent.cs:332 | "Feb-29-2019" gives 0 |
| Seqs.KeptLength | src/KamiYomu.CrawlerAgents.MangaKatana/MangaKatanaCrawlerAgent.cs:189-214 | one kept position per record, each a position of the input |
| Seqs.KeptRecords | src/KamiYomu.CrawlerAgents.MangaKatana/MangaKatanaCrawlerAgent.cs:189-214 | the k-th record is what the filter yields for the node at the k-th kept position |
| Seqs.KeptIncreasing | src/KamiYomu.CrawlerAgents.MangaKatana/MangaKatanaCrawlerAgent.cs:189-214 | kept positions increase: records come out in node order |
| Seqs.KeptComplete | src/KamiYomu.CrawlerAgents.MangaKatana/MangaKatanaCrawlerAgent.cs:189-214 | every node the filter accepts has its position kept |
| Seqs.FilterMapAllKept | src/KamiYomu.CrawlerAgents.MangaKatana/MangaKatanaCrawlerAgent.cs:346-372 | when every node is accepted, record i comes from node i |
| Seqs.FilterMapStep | src/KamiYomu.CrawlerAgents.MangaKatana/MangaKatanaCrawlerAgent.cs:189-214 | one more node extends the records by what the filter yields for it |
| Seqs.FilterMapAppend | src/KamiYomu.CrawlerAgents.MangaKatana/MangaKatanaCrawlerAgent.cs:346-372 | extraction of two adjacent stretches is the concatenation of their extractions |
| Seqs.ConvertEach | src/KamiYomu.CrawlerAgents.MangaKatana/MangaKatanaCrawlerAgent.cs:136-140 | the search loop converts every item: one result per item, result k converted from item k |
| Extraction.RecoveredTitle | src/KamiYomu.CrawlerAgents.MangaKatana/MangaKatanaCrawlerAgent.cs:226 | a title is non-empty and trimmed, and is the sentinel or the node's trimmed text (also lines 278 and 354) |
| Extraction.RecoveredTitleCases | src/KamiYomu.CrawlerAgents.MangaKatana/MangaKatanaCrawlerAgent.cs:278 | the node's trimmed text is used exactly when the node exists and its trimmed text is not empty; otherwise the sentinel |
| Extraction.BlankTitleFallsBack | src/KamiYomu.CrawlerAgents.MangaKatana/MangaKatanaCrawlerAgent.cs:354 | a title node of only white space gets the sentinel |
| Extraction.PaddedTitleIsKept | src/KamiYomu.CrawlerAgents.MangaKatana/MangaKatanaCrawlerAgent.cs:226 | a title padded with white space is kept without the padding |
| Extraction.StatusOfCases | src/KamiYomu.CrawlerAgents.MangaKatana/MangaKatanaCrawlerAgent.cs:261-266 | Completed exactly for "completed" in any case, Continuing exactly for "ongoing", Unreleased otherwise and for a missing status (lines 326-331) |
| Extraction.StatusIgnoresCase | src/KamiYomu.CrawlerAgents.MangaKatana/MangaKatanaCrawlerAgent.cs:326-331 | statuses equal up to case map alike |
| Extraction.StatusOngoingExample | src/KamiYomu.CrawlerAgents.MangaKatana/MangaKatanaCrawlerAgent.cs:264 | "Ongoing" is Continuing |
| Extraction.StatusCompletedExample | src/KamiYomu.CrawlerAgents.MangaKatana/MangaKatanaCrawlerAgent.cs:263 | "COMPLETED" is Completed |
| Extraction.StatusOtherExample | src/KamiYomu.CrawlerAgents.MangaKatana/MangaKatanaCrawlerAgent.cs:265 | "hiatus" is Unreleased |
| Extraction.GenreTags | src/KamiYomu.CrawlerAgents.MangaKatana/MangaKatanaCrawlerAgent.cs:245-246 | one trimmed tag per genre link, in order; none without links |
| Extraction.LatestChapterFallbacks | src/KamiYomu.CrawlerAgents.MangaKatana/MangaKatanaCrawlerAgent.cs:307-314 | the latest chapter is 0 without a label, without a run, or when the run does not parse |
| Extraction.LatestChapterOfLabel | src/KamiYomu.CrawlerAgents.MangaKatana/MangaKatanaCrawlerAgent.cs:309-314 | a label whose text is white space, a lead without digits or points, a run, a tail that does not continue the run, and white space gives the run's parsed value |
| Extraction.ChapterNumber | src/KamiYomu.CrawlerAgents.MangaKatana/MangaKatanaCrawlerAgent.cs:359-360 | the chapter number is 0 when nothing matches or the capture does not parse |
| Extraction.ChapterNumberOfTitle | src/KamiYomu.CrawlerAgents.MangaKatana/MangaKatanaCrawlerAgent.cs:359-360 | "Chapter", white space and a run number a chapter by the run's value |
| Extraction.ChapterNumberOfFormattedTitle | src/KamiYomu.CrawlerAgents.MangaKatana/MangaKatanaCrawlerAgent.cs:359-360 | "Chapter " and any number in canonical form number a chapter by that number |
| Extraction.MangaFromList | src/KamiYomu.CrawlerAgents.MangaKatana/MangaKatanaCrawlerAgent.cs:219-270 | the title is non-empty and trimmed; the website URL is the title link's `href`, present exactly with a title link, and the id is that URL's last `/`-segment; the cover URL is the image's `src` and is absolute, and the file name is its last segment; the description is the trimmed summary; the tags are the trimmed genre texts, one per genre; no latest chapter; the year is 0 or valid; family safe |
| Extraction.MangaFromListFields | src/KamiYomu.CrawlerAgents.MangaKatana/MangaKatanaCrawlerAgent.cs:224-267 | status, year and title each follow their own rule applied to the node's trimmed text, with the sentinel title for a missing link |
| Extraction.MissingStatusIsRejected | src/KamiYomu.CrawlerAgents.MangaKatana/MangaKatanaCrawlerAgent.cs:261 | as written, a search result without a status node is not converted |
| Extraction.IntendedMangaFromList | src/KamiYomu.CrawlerAgents.MangaKatana/MangaKatanaCrawlerAgent.cs:261-266 | corrected conversion: the status follows the status text, a missing status node giving Unreleased, and with a status node the record is the one the conversion as written gives |
| Extraction.IntendedMangaFromListOtherFields | src/KamiYomu.CrawlerAgents.MangaKatana/MangaKatanaCrawlerAgent.cs:219-270 | in the corrected conversion the status node decides only the release status; every other field is the one the conversion as written gives for any status node |
| Extraction.MangaFromListYear | src/KamiYomu.CrawlerAgents.MangaKatana/MangaKatanaCrawlerAgent.cs:237-267 | a release date written "MMM-dd-yyyy" gives that year when the day exists, else 0 |
| Extraction.MangaFromSingleBook | src/KamiYomu.CrawlerAgents.MangaKatana/MangaKatanaCrawlerAgent.cs:272-336 | the record has the requested id; the title is the heading's trimmed text or the sentinel, never empty; the website URL is the `fc_bt` link's `href`, present exactly with that link; the cover URL is the image's `src` and is absolute, and the file name is its last segment; the description is the trimmed summary; the tags are the trimmed genre texts, one per genre; a latest chapter is present; a missing status is Unreleased |
| Extraction.MangaFromSingleBookFields | src/KamiYomu.CrawlerAgents.MangaKatana/MangaKatanaCrawlerAgent.cs:288-332 | latest chapter, status and year follow their rules; a missing label gives latest chapter 0 |
| Extraction.PageOf | src/KamiYomu.CrawlerAgents.MangaKatana/MangaKatanaCrawlerAgent.cs:191-211 | an emitted page has the block's id, which starts "page" and whose rest parses to the page number; the chapter's id and the chapter as parent; and the chosen, non-empty image URL |
| Extraction.PageOfAccepts | src/KamiYomu.CrawlerAgents.MangaKatana/MangaKatanaCrawlerAgent.cs:191-203 | a block is emitted exactly when its id starts "page", the rest parses, it has an image and the chosen URL is non-empty |
| Extraction.EmptyDataSrcDropsPage | src/KamiYomu.CrawlerAgents.MangaKatana/MangaKatanaCrawlerAgent.cs:200-203 | a present but empty `data-src` drops the block whatever `src` says |
| Extraction.PageNumberOfId | src/KamiYomu.CrawlerAgents.MangaKatana/MangaKatanaCrawlerAgent.cs:194-208 | an id "page" followed by a canonical number gives that page number |
| Extraction.ConvertToChapterPages | src/KamiYomu.CrawlerAgents.MangaKatana/MangaKatanaCrawlerAgent.cs:182-217 | the loop returns exactly the pages of the specification, none for a null collection |
| Extraction.ChapterPagesFaithful | src/KamiYomu.CrawlerAgents.MangaKatana/MangaKatanaCrawlerAgent.cs:182-216 | the k-th page comes from the k-th accepted block; accepted blocks keep document order and none is skipped |
| Extraction.ChapterPagesOfChapter | src/KamiYomu.CrawlerAgents.MangaKatana/MangaKatanaCrawlerAgent.cs:205-211 | every page names the chapter, has it as parent and has a non-empty image URL |
| Extraction.ChapterOf | src/KamiYomu.CrawlerAgents.MangaKatana/MangaKatanaCrawlerAgent.cs:348-371 | a row yields a chapter exactly when it has a link; it has the manga as parent, volume 0, a non-empty trimmed title, the href as URI and the URI's last segment as id |
| Extraction.ChapterOfFields | src/KamiYomu.CrawlerAgents.MangaKatana/MangaKatanaCrawlerAgent.cs:354-368 | title, number and id follow their rules |
| Extraction.ConvertChaptersFromSingleBook | src/KamiYomu.CrawlerAgents.MangaKatana/MangaKatanaCrawlerAgent.cs:338-375 | the loop returns exactly the chapters of the specification, none for a null row collection |
| Extraction.BookChaptersFaithful | src/KamiYomu.CrawlerAgents.MangaKatana/MangaKatanaCrawlerAgent.cs:346-372 | the k-th chapter comes from the k-th linked row; linked rows keep order and none is skipped |
| Extraction.AllLinkedRowsGiveChapters | src/KamiYomu.CrawlerAgents.MangaKatana/MangaKatanaCrawlerAgent.cs:346-372 | when every row has a link, chapter i comes from row i |
| Extraction.BookChaptersOfManga | src/KamiYomu.CrawlerAgents.MangaKatana/MangaKatanaCrawlerAgent.cs:363-368 | every chapter has the manga as parent and volume 0 |
| Agent.NoHitsIsRejected | src/KamiYomu.CrawlerAgents.MangaKatana/MangaKatanaCrawlerAgent.cs:135-136 | as written, a search page without result items (`SelectNodes` gives null) is not converted |
| Agent.IntendedSearchResults | src/KamiYomu.CrawlerAgents.MangaKatana/MangaKatanaCrawlerAgent.cs:134-145 | corrected search: no result items give an empty result; otherwise record i is the corrected conversion of item i; where the search as written succeeds, the records are the ones it gives; all three pagination counts equal the number of records |
| Agent.SearchResults | src/KamiYomu.CrawlerAgents.MangaKatana/MangaKatanaCrawlerAgent.cs:134-145 | one record per result item, record i converted from item i, and all three pagination counts equal to the number of records |
| Agent.ChaptersResult | src/KamiYomu.CrawlerAgents.MangaKatana/MangaKatanaCrawlerAgent.cs:166-171 | the chapters of the page in row order, and all three pagination counts equal to their number |
| Session.AfterHttpClient | src/KamiYomu.CrawlerAgents.MangaKatana/MangaKatanaCrawlerAgent.cs:30 | the client exists afterwards and is created only if it did not exist; nothing else changes |
| Session.AfterGetBrowser | src/KamiYomu.CrawlerAgents.MangaKatana/MangaKatanaCrawlerAgent.cs:31 | the launch starts only on first use, and the first launch's outcome is kept; nothing else changes |
| Session.AfterDispose | src/KamiYomu.CrawlerAgents.MangaKatana/MangaKatanaCrawlerAgent.cs:383-406 | nothing when disposed; otherwise the client is released if created and the browser if it launched successfully, only when disposing; always ends disposed |
| Session.AfterDisposeAsync | src/KamiYomu.CrawlerAgents.MangaKatana/MangaKatanaCrawlerAgent.cs:408-433 | nothing when disposed; otherwise the client is released if created and the browser if it launched and closed successfully; always ends disposed |
| Session.StepsKeepValid | src/KamiYomu.CrawlerAgents.MangaKatana/MangaKatanaCrawlerAgent.cs:383-433 | every call keeps the lifecycle invariant |
| Session.HoldersCreateOnce | src/KamiYomu.CrawlerAgents.MangaKatana/MangaKatanaCrawlerAgent.cs:30-33 | asking a holder again changes nothing; a second launch outcome is ignored |
| Session.DisposalHappensOnce | src/KamiYomu.CrawlerAgents.MangaKatana/MangaKatanaCrawlerAgent.cs:385-386 | after either disposal path, both paths are no-ops |
| Session.DisposalNeverCreates | src/KamiYomu.CrawlerAgents.MangaKatana/MangaKatanaCrawlerAgent.cs:383-433 | disposal changes no creation flag, counter or launch outcome |
| Session.FinalizerOnlyMarksDisposed | src/KamiYomu.CrawlerAgents.MangaKatana/MangaKatanaCrawlerAgent.cs:383-406 | `Dispose(false)` releases nothing and only sets the flag |
| Session.FaultedLaunchIsNotReleased | src/KamiYomu.CrawlerAgents.MangaKatana/MangaKatanaCrawlerAgent.cs:395-429 | a browser whose launch faulted is never released |
| Session.RunKeepsValid | src/KamiYomu.CrawlerAgents.MangaKatana/MangaKatanaCrawlerAgent.cs:377-433 | any sequence of calls keeps the invariant |
| Session.AtMostOneRelease | src/KamiYomu.CrawlerAgents.MangaKatana/MangaKatanaCrawlerAgent.cs:377-433 | from a new agent, each resource is created at most once, released at most once and only if created, and the browser only after a successful launch |
| Session.DisposedReleasesNothingMore | src/KamiYomu.CrawlerAgents.MangaKatana/MangaKatanaCrawlerAgent.cs:410-411 | once disposed, no sequence of calls releases anything more |
| Session.MangaKatanaCrawlerAgent.constructor | src/KamiYomu.CrawlerAgents.MangaKatana/MangaKatanaCrawlerAgent.cs:28-32 | a new agent has created nothing and is not disposed |
| Session.MangaKatanaCrawlerAgent.HttpClient | src/KamiYomu.CrawlerAgents.MangaKatana/MangaKatanaCrawlerAgent.cs:30 | `_httpClient.Value` changes the fields as `AfterHttpClient` |
| Session.MangaKatanaCrawlerAgent.GetBrowserAsync | src/KamiYomu.CrawlerAgents.MangaKatana/MangaKatanaCrawlerAgent.cs:33 | `_browser.Value` changes the fields as `AfterGetBrowser` and reports the launch outcome |
| Session.MangaKatanaCrawlerAgent.Dispose | src/KamiYomu.CrawlerAgents.MangaKatana/MangaKatanaCrawlerAgent.cs:377-381 | `Dispose()` is `Dispose(true)` |
| Session.MangaKatanaCrawlerAgent.DisposeWith | src/KamiYomu.CrawlerAgents.MangaKatana/MangaKatanaCrawlerAgent.cs:383-406 | `Dispose(bool)` changes the fields as `AfterDispose` |
| Session.MangaKatanaCrawlerAgent.DisposeAsync | src/KamiYomu.CrawlerAgents.MangaKatana/MangaKatanaCrawlerAgent.cs:408-433 | `DisposeAsync()` changes the fields as `AfterDisposeAsync`, a failed close included |

## Findings

| source | as written | input that shows it | evidently intended | confidence | as-written member | corrected member |
|---|---|---|---|---|---|---|
| src/KamiYomu.CrawlerAgents.MangaKatana/MangaKatanaCrawlerAgent.cs:135-136 | `foreach` walks the result of `SelectNodes`, which is null when nothing matches | a search page whose `#book_list` holds no `div.item` (a query without hits) | an empty result with zero counts: a search without hits is an ordinary outcome | high, not executed | Agent.NoHitsIsRejected | Agent.IntendedSearchResults |
| src/KamiYomu.CrawlerAgents.MangaKatana/MangaKatanaCrawlerAgent.cs:261 | `status.ToLower()` with no null check, while the detail form at line 326 has `status?.ToLower()` | a search result item without a `div.status` node | the item converts with release status Unreleased | medium, not executed | Extraction.MissingStatusIsRejected | Extraction.IntendedMangaFromList |

## Left out

- Browser and network I/O is not modelled: the Puppeteer launch, tabs, navigation with network-idle waits, and reading the content (lines 35-45, 63-74, 86-96, 107-130, 151-162). The same goes for the HttpClient construction and its headers (lines 48-58).
- `GetByIdAsync` (lines 61-81) and `GetChapterPagesAsync` (lines 84-102) are navigation followed by a call of `ConvertToMangaFromSingleBook` or `ConvertToChapterPages`; only those calls are modelled. `GetFaviconAsync` returns a constant URL.
- XPath evaluation by HtmlAgilityPack is not modelled: query results are the fields of the node records. Attribute names are matched exactly, not case-insensitively.
- A null `rootNode` of a detail page is not modelled: a `SingleBook` is always present.
- Query-string encoding and `Uri`/`UriBuilder` resolution are not modelled (lines 67, 111-122, 155).
- `new Uri(..)` is modelled only through the precondition `AbsoluteUrl`: a scheme, ':' and something after it. This approximates what `System.Uri` accepts. URIs are kept as strings.
- The thread safety of `Lazy<T>` is not modelled, nor a launch still pending when `Dispose` runs. The model is sequential: an awaited launch has completed or faulted.
- The finalizer and `GC.SuppressFinalize` (lines 380, 436-439) are not modelled beyond `Dispose(false)`, which is `DisposeWith(false)`.
- Logging (line 428) is not modelled.
- The Core builders' validation is not visible. Their outputs are plain records.
- `updatedAt` and `firstChapterUrl` (lines 242, 296, 357) are computed but never used, so they are not modelled.
- Culture is fixed: English month names, '.' as the decimal point, an ordinal `StartsWith`, and lower-casing of ASCII letters only.
- Text.ToLower: lowers only the ASCII letters `A`-`Z`, where .NET lowers every cased letter.
- Decimals.ParseDecimal: rejects a sign, surrounding white space and thousands separators, which `decimal.TryParse` accepts. The difference shows only for page ids: regex captures hold nothing but digits and points. It also ignores the 96-bit range and the 28-digit scale limit of `decimal`.
- The `Dec` type compares representations, so 1.5 and 1.50 differ; `decimal` equality compares values.
- Patterns.FirstNumericRun: takes `\d` to be the ASCII digits, where .NET's `\d` matches every Unicode decimal digit. The same holds for `Patterns.ChapterCapture`.
- Text.LastSegment: also models `Path.GetFileName` for cover URLs, with '/' as the only separator, as on Unix.

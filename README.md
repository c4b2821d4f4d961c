# Nover text ingestion, modelled in Dafny

Nover is a Django site for serialized novels. Its two tables hold novels and their
chapters. A novel's title is unique. A chapter belongs to one novel, its title is unique
within that novel, and it carries an integer `order`. Every chapter save first runs
`Chapter.clean_content`. That method strips the administrator's filter words, normalises
line breaks, drops blank lines and puts one full-width space in front of every paragraph.

This project models the code that brings text into those tables and the code that keeps
them tidy:

- the chapter-body cleaning done on every save, and the admin actions that rewrite bodies;
- the two TXT importers: the `import_txt_novels` command and the admin upload view. Both
  detect the encoding, cut the text at chapter headings, and make novel and chapter titles
  unique by suffixing `(1)`, `(2)`, …;
- the maintenance commands that renumber, reorder and retitle chapters;
- the crawlers' own logic: crawl_novels, crawl_book18, xchina and crawl_xqbj. This covers
  which pages they load, which chapters they create under which titles and orders, the
  bounded retry loop, the failed-chapter ledger files and their replay;
- the read side: the chapter list, the previous/next links and the plain-text download.

The state is one value, `Store.World`, or a class wrapping it where the source updates
records in place (`Store.Db`, `Pages.Browser`, `Xqbj.Crawler`, `Xchina.Conn`). Row ids are
positions, and nothing is deleted. The browser is an oracle `fetch(url, t)` that answers the
page load numbered `t` of the run. The list of urls loaded is kept, so "loads at most three
pages per chapter" and "never loads a page twice" are statements about the state. Every loop
of the source is a `method` with its invariants, proved against a function that specifies
it. Lemmas then prove what the source promises about those functions: uniqueness of titles,
order of listings, idempotence of the maintenance passes, round trips of the text formats,
and termination bounds of the crawls.

Source paths below are relative to the repository root. The crawler commands live under
`novels/management/commands/`; `xchina.py` is at the root.

Some behaviour of the code that the contracts below state, and that a reader might not expect:

- `clean_content` makes every non-blank line its own paragraph, with exactly one full-width space in front, and joins the lines with a single `\n`. This is because `str.strip()` also removes U+3000, so the test for a line that already opens a paragraph never fires (`Content.CleanTextShape`).
- `clean_chapter_title` is idempotent only when its output holds no timestamp. Removing one timestamp can join the text on either side into a new one, which a second pass then removes (`Titles.CleanTitleIdempotent` carries that precondition).
- `fix_chapter_order` sorts special chapters first, by descending key, and normal chapters after them, by ascending key. It gives specials `1000000 + i` by their position, so the special with the largest key gets 1000000. A title without a digit gets the key 999999, special or not (`Reorder.WorkOrder`, `Reorder.SpecialOrders`).
- The completeness pass of `crawl_xqbj` retries missing chapters once more but never writes the ones that fail again to the ledger (`Xqbj.CompletenessFacts`: the ledger is unchanged).
- `save_failed_chapters` compares only against the urls stored before the call, so two failures with one url in the same batch are both appended (`Xqbj.MergeKeeps`).
- Filter words are removed one after another in list order (`Content.RemoveEach`).

## Model

| member | source | states |
|---|---|---|
| `Strings.TrimByShape` | novels/models.py:78 | a trim leaves the slice of the text between the first and last kept characters; everything cut off on either side is a dropped character |
| `Strings.TrimByEmpty` | novels/models.py:79 | a stripped line is empty exactly when the line held only whitespace |
| `Strings.TrimByNoop` | novels/management/commands/update_chapter_titles.py:14-15 | a text whose ends are not whitespace is left alone by strip |
| `Strings.TrimByIdempotent` | novels/models.py:78 | stripping twice is stripping once |
| `Strings.SplitPartsFree` | novels/models.py:77 | no piece of a split contains the separator |
| `Strings.JoinSplit` | novels/models.py:77-86 | joining the pieces of a split with the separator gives back the text |
| `Strings.SplitJoin` | novels/models.py:86 | splitting a join of separator-free pieces gives back the pieces |
| `Strings.SplitNoSep` | novels/models.py:77 | a text without the separator splits into itself alone |
| `Strings.ReplaceAllAbsent` | novels/models.py:70 | `str.replace` leaves a text without the word unchanged |
| `Strings.ReplaceAllSameLength` | novels/views.py:116 | replacing a word by one of the same length keeps the length of the text |
| `Strings.ReplaceCharGone` | novels/models.py:73 | after replacing one character by another, none of the first is left |
| `Strings.ReplaceAllShrinks` | novels/models.py:70 | deleting a word never lengthens a text, and shortens it when the word occurs |
| `Strings.RemoveWordsAbsent` | novels/models.py:69-70 | removing words none of which occurs leaves the text alone |
| `Strings.RemoveWordsChanges` | novels/admin.py:315-318 | word removal changes a text exactly when some non-empty listed word occurs in it |
| `Strings.DecimalRoundTrip` | novels/management/commands/crawl_xqbj.py:72 | `int(str(n)) == n` |
| `Strings.DecimalInjective` | novels/management/commands/crawl_book18.py:230 | distinct numbers print differently |
| `Strings.Slice` | novels/models.py:56 | Python slicing with non-negative bounds: `s[a..b]` within the text, the rest of the text from `a` when `b` passes its end, and empty when the bounds cross or `a` passes the end |
| `Strings.Utf8LengthBounds` | novels/views.py:162 | the byte count lies between the character count and four times it |
| `Sorting.SortFacts` | novels/management/commands/fix_chapter_order.py:46 | the sort orders by key and has the same multiset of elements as its input |
| `Sorting.FilterSort` | novels/management/commands/fix_chapter_order.py:46 | stability: the sorted list, restricted to the elements satisfying p, is the sort of the restriction |
| `Sorting.SortSorted` | novels/models.py:49 | sorting a key-ordered list leaves it alone |
| `Sorting.SortedUnique` | novels/models.py:49 | two key-ordered arrangements of the same elements coincide when no two elements share a key |
| `Sorting.StrictSortedUnique` | novels/models.py:49 | two strictly key-ordered lists with the same elements are equal |
| `Sorting.NoRepeatsPerm` | novels/models.py:49 | a rearrangement of a list without repeats has none |
| `Store.StoredCleaned` | novels/models.py:59-91 | whatever body is saved, what the table holds has no carriage return and is empty or made of marked paragraph lines |
| `Store.FindNovel` | novels/models.py:14 | the id of the novel with the title, when one is stored; none otherwise |
| `Store.ChapterIds` | novels/models.py:39 | the ids of exactly the chapters of the novel, increasing |
| `Store.ListingFacts` | novels/models.py:49 | the listing holds each chapter of the novel exactly once, in strictly ascending (order, id) |
| `Store.QueryFacts` | novels/models.py:49 | any filtered query lists each kept chapter exactly once, in strictly ascending (order, id) |
| `Store.ConsistentAppend` | novels/models.py:50 | a new chapter of a stored novel, under a title the novel does not hold yet, keeps titles unique |
| `Store.Db.CreateNovel` | novels/models.py:13-23 | `Novel.objects.create`: refused when the title is taken, otherwise appends exactly the new row |
| `Store.Db.SetIntro` | novels/models.py:19-23 | a novel save after setting the intro: only that novel's intro and updated_at change |
| `Store.Db.Touch` | novels/models.py:23 | a novel save moving updated_at on, nothing else |
| `Store.Db.CreateChapter` | novels/models.py:38-91 | `Chapter.objects.create`: appends the chapter with a cleaned body, or is refused when the novel already holds the title |
| `Store.Db.SaveOrder` | novels/models.py:88-91 | an order-only save writes the order column and nothing else |
| `Store.Db.SaveContent` | novels/models.py:88-91 | a full save replaces only that chapter's body, by the cleaned text; novels and filter words unchanged |
| `Store.Db.SaveTitle` | novels/models.py:50 | a title-only save writes the title, or is refused when another chapter of the novel has it |
| `Store.Db.SaveChapter` | novels/models.py:88-91 | a full save writes title and freshly cleaned body together, under the same uniqueness constraint |
| `Store.CreatedIsFound` | novels/models.py:50 | a created chapter is found under its novel and title, and every (novel, title) found before is still found |
| `Content.NormalizeNewlinesNoop` | novels/models.py:73 | a text without carriage returns is unchanged |
| `Content.CleanContent` | novels/models.py:59-86 | the step-by-step loops compute `CleanText` |
| `Content.RemoveEach` | novels/models.py:69-70 | the filter-word loop removes each word in list order |
| `Content.MarkLines` | novels/models.py:76-86 | the line loop keeps the stripped non-blank lines, each marked once, in order |
| `Content.CleanTextShape` | novels/models.py:59-86 | every line of a cleaned body is one marker followed by text that neither starts nor ends with whitespace; no carriage return is left |
| `Content.CleanTextBlank` | novels/models.py:79 | a body of whitespace only cleans to the empty text, whatever the filter words |
| `Content.CleanTextIdempotent` | novels/models.py:59-86 | cleaning a cleaned body again changes nothing when no filter word occurs in it |
| `Content.StripParagraphLine` | novels/models.py:78-82 | stripping a paragraph line removes only its marker |
| `Content.Preview` | novels/models.py:55-56 | the body when at most 50 characters, else its first 50 characters and "..." |
| `Content.ReprocessParagraphs` | novels/admin.py:241-274 | the reflow computes `Reflowed` and leaves no line feed |
| `Content.OpenLines` | novels/admin.py:253-267 | the line loop gathers the stripped non-blank lines into one paragraph, the first behind two markers |
| `Content.ReflowedOneLine` | novels/admin.py:257-274 | a reflowed text has no line break: every stripped line loses its leading markers, so no line opens a second paragraph |
| `Content.FilterContent` | novels/views.py:112-117 | the loop computes `Masked`: each filter word in turn replaced by asterisks; the length is kept, and no words leave the text as it was |
| `Content.MaskedLength` | novels/views.py:116 | masking keeps the length of the text |
| `Content.RemoveControls` | novels/management/commands/crawl_novels.py:139 | no control character other than tab and line breaks is left, and every character left is one of the input's |
| `Content.BlankAdLinesLines` | novels/management/commands/crawl_novels.py:140 | advertisement lines become empty and every other line is unchanged |
| `Content.SqueezeNewlinesShape` | novels/management/commands/crawl_novels.py:141 | no run of four or more line feeds remains, and a leading run of four or more becomes two |
| `Content.CleanScrapedShape` | novels/management/commands/crawl_novels.py:139-141 | a cleaned scraped body holds no control character and no run of four line feeds |
| `Content.RecordRoundTrip` | xchina.py:240-266 | an entry built as title, blank line, body splits back into the stripped title and body when the title holds no blank line |
| `Titles.RemoveMatchesNone` | novels/management/commands/crawl_xqbj.py:57-59 | a title in which the pattern matches nowhere is unchanged |
| `Titles.WidenSpaces` | novels/management/commands/crawl_xqbj.py:61 | no ideographic space is left, and the length is kept |
| `Titles.CollapseSpacesTidy` | novels/management/commands/crawl_xqbj.py:63 | after collapsing, the only whitespace is single plain spaces |
| `Titles.CollapseSpacesTidyNoop` | novels/management/commands/crawl_xqbj.py:63 | a title already in that form is unchanged |
| `Titles.CleanTitleShape` | novels/management/commands/crawl_xqbj.py:54-66 | a cleaned title neither begins nor ends with whitespace, `\|`, `_` or `-`, holds no ideographic space and no two spaces in a row |
| `Titles.CleanTitleIdempotent` | novels/management/commands/crawl_xqbj.py:54-66 | cleaning a cleaned title again changes nothing, when no timestamp pattern occurs in it |
| `Titles.StripStampsNoop` | novels/management/commands/update_chapter_titles.py:14-15 | a title with no stamp and no whitespace at either end is unchanged |
| `Titles.DigitRunDecimal` | novels/management/commands/crawl_xqbj.py:70-72 | the digit run of a printed number followed by a non-digit reads back as that number |
| `Titles.ChapterMarkRoundTrip` | novels/management/commands/crawl_xqbj.py:70-72 | a title holding `第N章`, with no `第` before it, has number N |
| `Titles.FirstNumberRoundTrip` | novels/management/commands/crawl_xqbj.py:74-76 | without a `第N章`, the number is that of the first digit run |
| `Titles.NoDigitsNoNumber` | novels/management/commands/crawl_xqbj.py:77 | a title without digits has number 0 |
| `Titles.SpecialByKeyword` | novels/management/commands/fix_chapter_order.py:14 | a keyword anywhere in the title makes it special |
| `Titles.RepairNumber` | novels/management/commands/fix_chapter_order.py:17-27 | the number `extract_chapter_number` reads when the title holds a digit, and 999999 when it holds none |
| `Titles.FirstNumberSome` | novels/management/commands/crawl_xqbj.py:74-76 | a first digit run exists exactly when the title holds a digit |
| `Titles.ChapterMarkDigit` | novels/management/commands/crawl_xqbj.py:70-72 | a title with a `第N章` holds a digit |
| `Titles.RepairNumberAgrees` | novels/management/commands/fix_chapter_order.py:17-27 | the two numberings agree exactly on the titles that hold a digit |
| `Batch.UpdateCompose` | novels/management/commands/fix_chapter_order.py:36-56 | two passes over disjoint sets of chapters are one pass over their union |
| `Batch.NovelIdsKept` | novels/management/commands/fix_chapter_order.py:36-56 | a pass whose step keeps novels leaves every novel with the same chapter ids |
| `Batch.NovelWritesKept` | novels/management/commands/update_chapter_order.py:29-39 | a pass over other novels' chapters leaves one novel's writes as they were |
| `Batch.AllDone` | novels/management/commands/update_chapter_order.py:29-39 | once every novel is walked, every chapter is handled and the per-novel counts add up to the whole store's writes |
| `Batch.ListWrites` | novels/admin.py:310-321 | walking, in any order, a repeat-free list of exactly the selected chapters counts their writes |
| `Batch.ListingDone` | novels/management/commands/update_chapter_order.py:31-39 | after walking a novel's listing, each of its chapters is handled once and its writes are counted |
| `Batch.ListDone` | novels/management/commands/process_chapter_titles.py:53-67 | after walking a repeat-free list of exactly the selected chapters, those are handled and their writes counted |
| `Batch.AllRowsDone` | novels/management/commands/update_chapter_titles.py:9-17 | walking all chapters in (order, id) order handles every chapter once and counts every write |
| `Renumber.RenumberedFacts` | novels/management/commands/update_chapter_order.py:22-41 | afterwards every chapter's order is the number in its title, nothing else changed, and a chapter is written exactly when its order differed |
| `Renumber.RenumberIdempotent` | novels/management/commands/update_chapter_order.py:34-39 | a second run changes nothing and writes nothing |
| `Renumber.NoWrites` | novels/management/commands/update_chapter_order.py:36 | a store whose orders all match their titles has nothing to write |
| `Renumber.UpdateNovelOrders` | novels/management/commands/update_chapter_order.py:31-39 | one novel's pass: its chapters get their title numbers, the count is the number changed |
| `Renumber.RenumberChapter` | novels/management/commands/update_chapter_order.py:35-38 | the order becomes the title number; the chapter is written and counted only when that changed it |
| `Renumber.UpdateChapterOrder` | novels/management/commands/update_chapter_order.py:22-41 | the store ends as `Renumbered` and the total is the number of chapters whose order differed |
| `Reorder.WorkFacts` | novels/management/commands/fix_chapter_order.py:40-46 | the working list holds one tuple per chapter of the novel and is in key order |
| `Reorder.WorkOrder` | novels/management/commands/fix_chapter_order.py:46 | in the working list specials precede normal chapters; specials run by descending number, normal ones by ascending |
| `Reorder.FixNovelFacts` | novels/management/commands/fix_chapter_order.py:49-56 | one novel's pass: the chapter at position k gets `NewOrder(k)`; nothing else changes |
| `Reorder.SpecialOrders` | novels/management/commands/fix_chapter_order.py:51 | the special at position p gets 1000000 + p; with normal numbers below that bound, every special ends after every normal chapter |
| `Reorder.SpecialsListedAfter` | novels/management/commands/fix_chapter_order.py:49-56 | after the pass, the specials listed by (order, id) are exactly the specials of the working list, in that order |
| `Reorder.NormalKeepsNumber` | novels/management/commands/fix_chapter_order.py:51 | after the pass a normal chapter's order is its number |
| `Reorder.OrdersSettled` | novels/management/commands/fix_chapter_order.py:30-56 | after the pass every chapter already holds the order a second pass would give it |
| `Reorder.FixIdempotent` | novels/management/commands/fix_chapter_order.py:30-60 | re-running the pass on its own result changes nothing and counts no update |
| `Reorder.FixNovelOrder` | novels/management/commands/fix_chapter_order.py:40-56 | one novel's chapters end as `FixNovel` says, and the count is the number of orders changed |
| `Reorder.AssignOrders` | novels/management/commands/fix_chapter_order.py:49-56 | walks the sorted list, writing each differing order with an order-only save and counting it |
| `Reorder.FixChapterOrder` | novels/management/commands/fix_chapter_order.py:30-60 | the pass over every novel, with the total of updates |
| `Retitle.RenameStepFacts` | novels/management/commands/process_chapter_titles.py:60-67 | a renaming writes a chapter only under a new title, keeps novel and order, and touches the body only on a full save |
| `Retitle.RenameAll` | novels/management/commands/update_chapter_titles.py:9-17 | renames each chapter whose title changes and counts it; the first refused save stops the walk with the constraint error |
| `Retitle.UpdateChapterTitles` | novels/management/commands/update_chapter_titles.py:8-21 | every chapter, by (order, id), gets its title without stamps; a changed title is saved with a cleaned body and counted |
| `Retitle.UnstampedUntouched` | novels/management/commands/update_chapter_titles.py:14-15 | a title with no stamp and no whitespace at either end is not saved |
| `Retitle.UnstampedSettles` | novels/management/commands/update_chapter_titles.py:14 | a title the pass wrote is left alone by a second pass when no stamp is left in it |
| `Retitle.ProcessChapterTitles` | novels/management/commands/process_chapter_titles.py:15-72 | invalid options and an unmatched novel report without writing; otherwise the result is `Rewrote` of the options |
| `Retitle.MatchingFacts` | novels/management/commands/process_chapter_titles.py:40-43 | the collected chapters are each chosen chapter once, in (order, id) order |
| `Retitle.RewroteNone` | novels/management/commands/process_chapter_titles.py:45-47 | nothing collected, nothing changed |
| `Retitle.RewrotePreview` | novels/management/commands/process_chapter_titles.py:53-70 | preview reports the number of chapters collected and writes nothing |
| `Retitle.RewroteUpdate` | novels/management/commands/process_chapter_titles.py:61-72 | update reports the number of titles rewritten |
| `Retitle.CollectMatching` | novels/management/commands/process_chapter_titles.py:40-43 | the queried chapters whose title the pattern matches, in query order |
| `Actions.ReprocessSelected` | novels/admin.py:236-282 | every selected chapter gets its body reflowed and saved; nothing else changes, and every chapter counts as a success |
| `Actions.ReprocessedOneLine` | novels/admin.py:257-275 | a reprocessed body is stored without a line feed: the reflow yields one line, since `strip()` removes U+3000 and the new-paragraph branch never runs, and the save keeps it so |
| `Actions.ScrubStepFacts` | novels/admin.py:318-321 | a chapter is written exactly when one of the selected non-empty words occurs in its body |
| `Actions.RemoveSelected` | novels/admin.py:315-316 | each selected word in turn removed from the text |
| `Actions.ExecuteCleaning` | novels/admin.py:296-333 | no word selected: nothing happens; otherwise every chapter changed by removing the selected words is saved, and the report counts them |
| `Headings.FindHeadingsLeftmost` | novels/management/commands/import_txt_novels.py:84-85 | every listed match is a match, they come in order without overlapping, and no other match is left between or after them |
| `Headings.HeadingShape` | novels/management/commands/import_txt_novels.py:83 | every match text starts with 第, ends with a line feed, and holds no other line break |
| `Headings.BodyStartsWithTitle` | novels/management/commands/import_txt_novels.py:105-109 | a chapter's body opens with its own stripped heading title |
| `Names.StemOfTxt` | novels/admin.py:127 | a `.txt` name loses exactly its extension |
| `Names.SplitLength` | novels/management/commands/import_txt_novels.py:69 | a split yields one piece more than there are separators |
| `Names.SplitNameFacts` | novels/management/commands/import_txt_novels.py:68-72 | a stem with exactly one '-' is cut there into title and author; any other stem is the title, with author 未知 |
| `Names.CandidateNew` | novels/management/commands/import_txt_novels.py:77-80 | each suffixed candidate differs from all before it |
| `Names.FirstFreeFacts` | novels/management/commands/import_txt_novels.py:75-80 | the first free candidate meets `FreshTitle`: it is free and every earlier candidate is in use |
| `Names.FreshTitleUnique` | novels/management/commands/import_txt_novels.py:75-80 | exactly one title meets `FreshTitle` |
| `Names.DedupeAllFacts` | novels/management/commands/import_txt_novels.py:102-115 | the titles are pairwise distinct, and the k-th is the first free candidate for the k-th heading |
| `Names.DedupeAllPrefix` | novels/management/commands/import_txt_novels.py:103-115 | the titles of a prefix of the headings are a prefix of the titles |
| `Names.Intro` | novels/management/commands/import_txt_novels.py:97 | the first 200 characters followed by "..." |
| `Names.SqueezedSafe` | novels/management/commands/import_txt_novels.py:21-23 | no forbidden character remains |
| `Names.SafeFilenameShape` | novels/management/commands/import_txt_novels.py:21-25 | the name fits max_length, holds no forbidden character and no two underscores in a row, and does not start with one |
| `TxtImport.FirstDecodingFacts` | novels/management/commands/import_txt_novels.py:49-60 | the detected codec is the first in the list that accepts the bytes, and the text is what it decodes |
| `TxtImport.ShadowedCodecs` | novels/admin.py:105 | GBK and GB2312 are never chosen where GB18030 accepts what they accept |
| `TxtImport.DetectEncoding` | novels/admin.py:105-120 | the codec loop returns the first decoding, or none when every codec refuses |
| `TxtImport.Dedupe` | novels/admin.py:135-140 | the loop returns the first free candidate title |
| `TxtImport.SectionsFacts` | novels/management/commands/import_txt_novels.py:103-122 | one chapter per heading: of the novel, order 0, titled in turn, each body the cleaned text from its heading to the next |
| `TxtImport.ImportedNovelFresh` | novels/management/commands/import_txt_novels.py:75-99 | the new novel's title is untaken and the first free candidate of the stripped file title |
| `TxtImport.ImportedChaptersFacts` | novels/management/commands/import_txt_novels.py:101-122 | one chapter per heading, all of the new novel and of order 0 with cleaned bodies, titles pairwise distinct, the k-th title the k-th of `DedupeAll` over the heading titles |
| `TxtImport.ImportedBodyOpensWithHeading` | novels/management/commands/import_txt_novels.py:105-109 | each body, before the save cleans it, opens with the chapter's heading title |
| `TxtImport.ImportText` | novels/management/commands/import_txt_novels.py:66-131 | the novels, chapters and reported count end as `AfterImport` gives them |
| `TxtImport.CreateChapters` | novels/management/commands/import_txt_novels.py:101-124 | the loop appends exactly the sections, each under its deduplicated title |
| `TxtImport.ProcessFile` | novels/management/commands/import_txt_novels.py:44-135 | the tables end as `FileOutcome` gives them, and it answers true exactly when that imported the file |
| `TxtImport.FileOutcomeFacts` | novels/management/commands/import_txt_novels.py:44-135 | an importable file adds one novel; any other leaves the tables alone |
| `TxtImport.ImportFilesCount` | novels/management/commands/import_txt_novels.py:155-159 | the count reported is the number of importable files, and the novels grow by exactly that many |
| `TxtImport.TxtFiles` | novels/management/commands/import_txt_novels.py:147 | exactly the names ending in `.txt`, in listing order: the listing filtered by that test |
| `TxtImport.ImportFolder` | novels/management/commands/import_txt_novels.py:137-165 | a missing folder or one without `.txt` files changes nothing; otherwise the tables end as `ImportFiles` over the `.txt` files gives them, and it reports their count and the number imported |
| `TxtImport.UploadTxt` | novels/admin.py:93-197 | a missing or non-`.txt` upload, an undecodable one and one without headings change nothing; otherwise the text is imported with intro and source as the view sets them |
| `Pages.Browser.Load` | novels/management/commands/crawl_book18.py:222-225 | a load answers with the oracle at the current load count and records the url |
| `CrawlNovels.GetOrCreateFacts` | novels/management/commands/crawl_novels.py:60-78 | an existing novel changes only in updated_at; a new one is appended with author 未知 and intro 暂无简介 |
| `CrawlNovels.VisitSkipsStored` | novels/management/commands/crawl_novels.py:102-106 | a title the novel holds loads nothing and changes nothing |
| `CrawlNovels.VisitFetches` | novels/management/commands/crawl_novels.py:108-157 | a missing title loads its page once; a chapter is added exactly when the load gave text |
| `CrawlNovels.VisitAllFacts` | novels/management/commands/crawl_novels.py:97-161 | the loop leaves the novels alone, loads at most one page per remaining link, and only appends chapters of the novel under listed titles it did not hold before |
| `CrawlNovels.VisitAllStored` | novels/management/commands/crawl_novels.py:102-106 | a re-run over titles the novel holds loads no page and creates no chapter |
| `CrawlNovels.VisitAllCovers` | novels/management/commands/crawl_novels.py:97-161 | when every page gives text, every listed title is held afterwards |
| `CrawlNovels.ProcessArticleNoList` | novels/management/commands/crawl_novels.py:85-95 | with no chapter list, only the novel is stored |
| `CrawlNovels.ProcessArticleCleans` | novels/management/commands/crawl_novels.py:138-150 | each new chapter's body is the save of a non-empty scraped text after the three cleanups |
| `CrawlNovels.VisitChapter` | novels/management/commands/crawl_novels.py:97-161 | one turn of the loop computes `Visit` on the state |
| `CrawlNovels.VisitChapters` | novels/management/commands/crawl_novels.py:97-161 | the loop computes `VisitAll` |
| `CrawlNovels.SaveNovel` | novels/management/commands/crawl_novels.py:60-78 | get_or_create on the state, as `GetOrCreate` |
| `CrawlNovels.Process` | novels/management/commands/crawl_novels.py:53-168 | the whole article step, as `ProcessArticle` |
| `Book18.ChapterNameInjective` | novels/management/commands/crawl_book18.py:221-232 | distinct positions give distinct titles |
| `Book18.OpenFacts` | novels/management/commands/crawl_book18.py:95-117 | a stored title is found with its chapter count; otherwise a novel with author 未知 and the pending intro is created, counting zero |
| `Book18.DownloadFacts` | novels/management/commands/crawl_book18.py:221-238 | as intended (content script in scope): the loop loads exactly the links after the first i, in order, leaves the novels alone, and appends at most one chapter per link, each of the novel, of order 0 and named after its position |
| `Book18.DownloadCreates` | novels/management/commands/crawl_book18.py:225-232 | as intended: a position whose load gives text, and whose name was not taken, ends up stored with that text |
| `Book18.DownloadFrom` | novels/management/commands/crawl_book18.py:225-232 | as intended: conversely, an added chapter named after position k comes from that position's load, which gave text |
| `Book18.CrawlUnreachable` | novels/management/commands/crawl_book18.py:128-129 | an unreachable novel page fails, loading no chapter and creating no chapter |
| `Book18.CrawlSingle` | novels/management/commands/crawl_book18.py:142-210 | without a chapter list the run succeeds iff the page has content, creating 第1章 only for a novel counting no chapters |
| `Book18.CrawlListedAsWritten` | novels/management/commands/crawl_book18.py:142-244 | as written: with a list, the run succeeds and loads the links after the stored count but adds no chapter, and still sets the intro to the count |
| `Book18.VisitsFacts` | novels/management/commands/crawl_book18.py:221-238 | as written, the loop only loads the links after the first i |
| `Book18.CrawlListed` | novels/management/commands/crawl_book18.py:212-244 | as intended: with a list, the run loads the links after the stored count, adds only chapters of the novel named after those positions, and sets the intro to the count |
| `Book18.CrawlKeepsExisting` | novels/management/commands/crawl_book18.py:95-117 | an existing novel keeps its title, author and source url |
| `Book18.FetchChapter` | novels/management/commands/crawl_book18.py:221-238 | one turn as intended computes `Fetched` on the state |
| `Book18.DownloadAll` | novels/management/commands/crawl_book18.py:221-238 | the loop as intended computes `Download` and leaves the novels alone |
| `Book18.VisitChapter` | novels/management/commands/crawl_book18.py:221-238 | one turn as written: the page is loaded and nothing is stored |
| `Book18.VisitAll` | novels/management/commands/crawl_book18.py:221-238 | the loop as written computes `Visits` |
| `Book18.OpenNovel` | novels/management/commands/crawl_book18.py:95-117 | computes `Open` |
| `Book18.ProcessNovel` | novels/management/commands/crawl_book18.py:88-252 | computes `Crawl` as written: the listed branch loads the pages and stores no chapter |
| `Xchina.EntriesFacts` | xchina.py:133-149 | exactly the listed items are kept, each title cut to a non-empty prefix of at most 200 characters |
| `Xchina.WalkBounds` | xchina.py:115-160 | the walk parses at most the pages left, never a visited one, and none twice |
| `Xchina.ParseListBounds` | xchina.py:108-167 | parse_list_page parses at most five pages, each at most once |
| `Xchina.ParseListPage` | xchina.py:108-167 | computes the walk's listing and the pages it parsed |
| `Xchina.TextPagesFrom` | xchina.py:191-254 | no more pages than links, each titled after one of them |
| `Xchina.RecordsCount` | xchina.py:258-266 | every entry yields exactly one record |
| `Xchina.RecordsExact` | xchina.py:240-266 | when no title holds a blank line, each entry splits back into its page's stripped title and body |
| `Xchina.TextPagesRecords` | xchina.py:191-266 | the records of a run whose links hold no blank line are those of its pages |
| `Xchina.TargetFacts` | xchina.py:299-321 | the novel row exists afterwards, inserted iff its title was absent; no other novel row changes |
| `Xchina.InsertFacts` | xchina.py:324-344 | the novels stay; only rows of the novel are appended, each from a record whose title had no row, no two alike, every record covered |
| `Xchina.SavedIdempotent` | xchina.py:297-352 | saving the same batch again changes nothing |
| `Xchina.InsertNothing` | xchina.py:324-344 | records whose titles all have rows insert nothing |
| `Xchina.InsertGrows` | xchina.py:324-344 | a prefix of the batch inserts no more than the whole batch |
| `Xchina.Conn.Execute` | xchina.py:300-346 | a statement is recorded and reports whether it raised |
| `Xchina.Conn.Locate` | xchina.py:299-321 | finds or inserts the novel row, as `Target` |
| `Xchina.Conn.InsertRecord` | xchina.py:324-344 | one record looked up and inserted when absent |
| `Xchina.Conn.InsertAll` | xchina.py:324-344 | the loop computes `Insert` |
| `Xchina.Conn.SaveToDb` | xchina.py:297-352 | commits `Saved` when no statement raises, and otherwise rolls back to the old tables; succeeds iff none raised |
| `Xchina.GatherAll` | xchina.py:191-254 | every link loaded once in order; the pages are `TextPages` |
| `Xchina.SplitAll` | xchina.py:258-266 | computes `Records` |
| `Xchina.ProcessArticle` | xchina.py:169-284 | loads exactly the article's links; the data are the records of the loaded pages; no data leaves the connection alone; otherwise the tables become `Saved` when no statement raises and are rolled back when one does |
| `Xqbj.UniqueViolationRecognised` | novels/management/commands/crawl_xqbj.py:447 | the constraint message SQLite gives passes the test |
| `Xqbj.WroteFacts` | novels/management/commands/crawl_xqbj.py:421-434 | only non-empty text is written, and only under a free title |
| `Xqbj.RunCoreSettles` | novels/management/commands/crawl_xqbj.py:399-459 | when earlier attempts failed, the run ends at the first settling attempt or fails after three loads |
| `Xqbj.ChapterRunAttempts` | novels/management/commands/crawl_xqbj.py:377-461 | a stored cleaned title returns True without a load; otherwise one to three pages are loaded; novels and ledger untouched |
| `Xqbj.ChapterRunWrites` | novels/management/commands/crawl_xqbj.py:421-436 | a success writes one chapter of the novel under the twice-cleaned free title with the order of line 423 |
| `Xqbj.ChapterRunDistinct` | novels/management/commands/crawl_xqbj.py:377-461 | process_chapter keeps chapter titles unique within each novel |
| `Xqbj.RunBatchFacts` | novels/management/commands/crawl_xqbj.py:348-352 | a loop of process_chapter calls only appends chapters of the novel, keeps titles unique, and loads at most three pages per call |
| `Xqbj.PlanSorted` | novels/management/commands/crawl_xqbj.py:535 | the plan lists normal chapters before specials, each kind by number |
| `Xqbj.PlanFrom` | novels/management/commands/crawl_xqbj.py:507-548 | every planned dict is a listed chapter whose cleaned title is not stored, with the order of lines 541-548 |
| `Xqbj.PlanCovers` | novels/management/commands/crawl_xqbj.py:520-528 | every listed chapter whose cleaned title is not stored is planned |
| `Xqbj.PlanEmpty` | novels/management/commands/crawl_xqbj.py:516-532 | with every cleaned title stored nothing is planned |
| `Xqbj.PlanOrdersAscend` | novels/management/commands/crawl_xqbj.py:535-548 | with numbers below the special base, the orders along the plan never decrease |
| `Xqbj.CompletenessFacts` | novels/management/commands/crawl_xqbj.py:494-552 | the pass only appends chapters of the novel, keeps titles unique, loads at most three pages per listed chapter, and leaves novels and ledger alone |
| `Xqbj.LedgerNameFacts` | novels/management/commands/crawl_xqbj.py:472 | a ledger name has the title's length and no unsafe character; naming twice is naming once |
| `Xqbj.MergeKeeps` | novels/management/commands/crawl_xqbj.py:484-488 | the file's records stay in front, and a failed dict is added exactly when its url was not in the file |
| `Xqbj.MergeUrls` | novels/management/commands/crawl_xqbj.py:484-488 | afterwards every failed url is recorded, and no other new one |
| `Xqbj.MergeIdempotent` | novels/management/commands/crawl_xqbj.py:484-492 | saving the same failures twice writes nothing the first save did not |
| `Xqbj.UnderscoreRunsFacts` | novels/management/commands/crawl_xqbj.py:579 | no underscore is left; a text without one is unchanged |
| `Xqbj.MostRecent` | novels/models.py:28 | the most recently updated novel the filter keeps, the lowest id among equals, or none when none is kept |
| `Xqbj.OwnerFinds` | novels/management/commands/crawl_xqbj.py:578-582 | the ledger of any stored novel is found, and it is that novel's when no other title gives the same file name |
| `Xqbj.JsonStem` | novels/management/commands/crawl_xqbj.py:578 | removing ".json" from the file name gives back a stem without a dot |
| `Xqbj.AsWrittenMissesOwner` | novels/management/commands/crawl_xqbj.py:578-582 | the title "a:b" is filed as "a_b"; the lookup as written finds no novel for that file, while `Owner` finds it |
| `Xqbj.AsWrittenPicksOther` | novels/management/commands/crawl_xqbj.py:578-582 | with "xab" updated after "ab", the ledger "ab" is replayed into "xab", while `Owner` gives "ab" |
| `Xqbj.AsWrittenReplaySkips` | novels/management/commands/crawl_xqbj.py:572-586 | replayed as written, the ledger file of the novel "a:b" is left as it is, while the corrected lookup finds its novel |
| `Xqbj.RecoverFacts` | novels/management/commands/crawl_xqbj.py:603-648 | each replayed dict becomes one new chapter of the novel or stays in the file; together they are as many as the dicts |
| `Xqbj.ReplayFileFacts` | novels/management/commands/crawl_xqbj.py:561-658 | with either lookup, replaying a file touches no other file and no novel, only appends chapters, keeps titles unique, and leaves no more records than it found |
| `Xqbj.ReplayAllFacts` | novels/management/commands/crawl_xqbj.py:554-661 | with either lookup, the replay adds no ledger file and no novel, only appends chapters, and keeps titles unique |
| `Xqbj.NewIndicesFacts` | novels/management/commands/crawl_xqbj.py:321 | the positions chosen are, in listing order, exactly those whose title is not stored |
| `Xqbj.NovelRunQuiet` | novels/management/commands/crawl_xqbj.py:305-323 | the two runs that change nothing: an empty listing, and a stored novel all of whose listed titles are stored |
| `Xqbj.FilledFacts` | novels/management/commands/crawl_xqbj.py:345-360 | before the intro: novels untouched, chapters only appended, all of this novel, titles unique, loads bounded |
| `Xqbj.FilledLedger` | novels/management/commands/crawl_xqbj.py:345-360 | before the intro, only the novel's own ledger file may have changed |
| `Xqbj.AllStoredNothingPlanned` | novels/management/commands/crawl_xqbj.py:516-518 | every cleaned title stored: nothing is planned |
| `Xqbj.Crawler.Load` | novels/management/commands/crawl_xqbj.py:401-419 | a load answers with the oracle at the current count and records the url |
| `Xqbj.Crawler.TryOnce` | novels/management/commands/crawl_xqbj.py:399-455 | one attempt: the answer is `Try` at attempt 0 and the state `Settled` after it |
| `Xqbj.Crawler.RetryLoop` | novels/management/commands/crawl_xqbj.py:399-459 | the retry loop ends in the state `RunCore` gives |
| `Xqbj.Crawler.ProcessBatch` | novels/management/commands/crawl_xqbj.py:348-352 | computes `RunBatch` and collects the failed dicts |
| `Xqbj.Crawler.ProcessChapter` | novels/management/commands/crawl_xqbj.py:377-461 | computes `RunChapter` |
| `Xqbj.Crawler.SaveFailedChapters` | novels/management/commands/crawl_xqbj.py:463-492 | the ledger becomes `SaveFailed` |
| `Xqbj.Crawler.VerifyCompleteness` | novels/management/commands/crawl_xqbj.py:494-552 | computes `Completeness` |
| `Xqbj.Crawler.RecoverAll` | novels/management/commands/crawl_xqbj.py:603-648 | computes `Recover` |
| `Xqbj.Crawler.ReplayLedgerFile` | novels/management/commands/crawl_xqbj.py:561-661 | computes `ReplayFile` with the lookup chosen by `asWritten`: lines 578-582 as written (`OwnerAsWritten`) or the corrected `Owner`; an unreadable file is skipped |
| `Xqbj.Crawler.ProcessFailedChapters` | novels/management/commands/crawl_xqbj.py:554-661 | computes `ReplayAll` over the directory listing, with the lookup as written or corrected |
| `Xqbj.Crawler.ProcessNovel` | novels/management/commands/crawl_xqbj.py:305-367 | computes `RunNovel` |
| `Views.NovelDetail` | novels/views.py:70-80 | some exactly when the novel exists, and then every chapter of the novel and no other, strictly by ascending (order, id) |
| `Views.PrevOf` | novels/views.py:89-92 | the chapter of the novel with the largest id below the given one, if any |
| `Views.NextOf` | novels/views.py:94-97 | the chapter of the novel with the smallest id above the given one, if any |
| `Views.ChapterDetail` | novels/views.py:82-103 | some exactly when the id exists, and then the chapter itself |
| `Views.ChapterDetailNeighbours` | novels/views.py:82-103 | the links are the nearest chapters of the same novel below and above; none exactly when no such chapter exists |
| `Views.PrevNextInverse` | novels/views.py:89-97 | the next of a chapter's previous one is the chapter itself, and so is the previous of its next |
| `Views.ExtendAll` | novels/views.py:146-151 | the loop extends the list by each chapter's three pieces, in order |
| `Views.ConcatExtend` | novels/views.py:165 | joining an extended list is joining each part and concatenating |
| `Views.LinesBlocks` | novels/views.py:146-165 | joined, the chapters' part of the list is their blocks one after the other |
| `Views.ChaptersOfCovers` | novels/views.py:146 | every chapter of the novel is among those the file lists |
| `Views.BlockAt` | novels/views.py:138-165 | the k-th chapter's block sits right after the header and the blocks of the chapters before it |
| `Views.DownloadNovel` | novels/views.py:132-171 | the view builds the response `Download` specifies |
| `Views.DownloadBody` | novels/views.py:138-165 | an attachment whose text is the header then the blocks of `ChaptersOf` the novel, which holds every chapter of the novel |
| `Views.DownloadLength` | novels/views.py:162 | Content-Length is the UTF-8 byte count: header bytes plus each block's, between one and four bytes a character |

## Left out

- Category rows. `get_or_create` of a category and the category foreign key are not modelled: no property here depends on them.
- Exceptions other than the ones the code handles on purpose. These are the unique constraint in crawl_xqbj.py and xchina.py's rollback. A database or browser failure elsewhere is not modelled.
- Browser internals. Page scripts, selectors, waits, user agents, sleeps, page closing and screenshots are left out. A page load is an oracle `fetch(url, t)` indexed by the number of loads so far, and what a page script extracts is part of its answer.
- The navigation to a novel or listing page is not counted as a chapter load. Titles and urls extracted by page scripts are inputs.
- Clocks. `timezone.now()` is one `now` parameter per run; `created_at` is not modelled.
- Ordering among novels by `-updated_at` appears only where the code takes `.first()` (`Xqbj.MostRecent`). Other novel listings are taken in id order.
- The crawlers' `run`/`handle` loops, login and listing navigation. This covers crawl_novels.py 1-52, crawl_book18.py outside process_novel, xchina.py `run` and the crawl_xqbj.py `run`/`handle`. Only the per-article or per-novel steps are modelled.
- xchina.py `get_chapter_content` (lines 354-396) is never called by the modelled steps. The MySQL schema of `init_db` is assumed: `novels(id, title, …)` and `chapters(novel_id, title, content, …)`.
- Unreadable or corrupt ledger JSON is read as "no file" or skipped, as the bare `except` and the handler at crawl_xqbj.py:660 do. The glob order of ledger files is an input.
- views.py: templates, caching, pagination, search, `get_common_data`, `latest_novels_view` and `ChapterDetailView`'s other context are left out. So is the Content-Disposition header: the percent-encoding of `quote()` is not modelled. The download's 500 path needs an exception the model has no source for.
- Text encodings are an oracle that decodes bytes or refuses. The model does not decode UTF-8, GB18030 or the other codecs itself, and it does not model NFKC normalisation in `safe_filename`, which is given as a function.
- Database collation and case-insensitive lookups beyond ASCII. `title__icontains` folds ASCII letters only (`Retitle.Fold`).
- Regular expressions other than the fixed patterns of the code are parameters, as in `process_chapter_titles.py --pattern`.
- `Strings.IsDigit`: `\d` is read as ASCII digits; Python also matches other Unicode decimal digits.
- `TxtImport.UploadTxt`: the admin messages and redirects are reduced to an outcome value.

## Findings

| source | as written | input that shows it | evidently intended | confidence | as-written member | corrected member |
|---|---|---|---|---|---|---|
| novels/management/commands/crawl_xqbj.py:472,578-582 | the ledger file name replaces `:` and other unsafe characters by `_`; the replay turns `_` runs into spaces and looks the novel up by `title__icontains` | the novel "a:b" is filed as `a_b.json`, read back as "a b", which no title contains: its failed chapters are never replayed | the replay finds the novel whose ledger name is the file's stem | not executed | `Xqbj.AsWrittenMissesOwner` | `Xqbj.OwnerFinds` |
| novels/management/commands/crawl_xqbj.py:578-582 | `title__icontains` with `.first()` under `-updated_at` picks the most recently updated novel whose title contains the stem | novels "ab" and then "xab", with "xab" updated later: the ledger `ab.json` is replayed into "xab" | the ledger of "ab" is replayed into "ab" | not executed | `Xqbj.AsWrittenPicksOther` | `Xqbj.OwnerFinds` |
| novels/management/commands/crawl_book18.py:146,224-225 | the chapter-content script is bound only inside the branch for a page without a chapter list; the loop over listed chapters evaluates it at line 225, which raises, and the handler at line 234 swallows the error | a new novel whose page lists one link whose page has text: no chapter is stored, yet the intro becomes 共1章 and the run returns True | the listed chapters are fetched with the same content script and stored as `第{idx}章` | not executed | `Book18.CrawlListedAsWritten` | `Book18.DownloadCreates` |

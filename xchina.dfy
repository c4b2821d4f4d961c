/** The xchina crawler (xchina.py): the bounded walk over the listing pages, the chapter
    bodies it gathers for an article and splits back into records, and save_to_db, which
    inserts into its own two tables (raw SQL: no clean_content, no unique constraint) what is
    not there yet, inside one transaction. A listing page is an oracle `site(url)` (None
    when its items never appear); `land(url)` is the location a navigation ends on (None
    when it fails and the page stays); the database raises on the statement numbered k of
    the connection exactly when `raises(k)`. */
module Xchina {
  import opened Wrappers
  import opened Strings
  import opened Pages
  import Content
  import Xqbj

  // ---------------------------------------------------------------------------------------
  // parse_list_page (lines 108-167)

  /** A listed book item: the title its script reads (trimmed) and its href. */
  datatype Item = Item(title: string, url: string)

  /** A listing page: its book items and the href of its next-page button, if any. */
  datatype ListPage = ListPage(items: seq<Item>, next: Option<string>)

  /** An article as the listing gives it. */
  datatype Article = Article(title: string, url: string)

  const FictionPath: string := "/fiction/id-"
  const MaxPages: nat := 5
  const TitleLimit: nat := 200

  /** Line 144: an item is kept when its title is non-empty and its url a fiction page. */
  predicate Listed(it: Item) {
    it.title != [] && Contains(it.url, FictionPath)
  }

  /** Line 145: the article an item gives, its title cut to 200 characters. */
  function ArticleOf(it: Item): Article {
    Article(Slice(it.title, 0, TitleLimit), it.url)
  }

  /** Lines 133-149: the articles of the kept items, in page order. */
  function Entries(items: seq<Item>): seq<Article> {
    if items == [] then []
    else
      var init := Entries(items[..|items| - 1]);
      var it := items[|items| - 1];
      if Listed(it) then init + [ArticleOf(it)] else init
  }

  /** Entries keeps exactly the listed items, each cut to at most 200 characters and a
      prefix of the item's title. */
  lemma {:induction false} EntriesFacts(items: seq<Item>)
    ensures |Entries(items)| <= |items|
    ensures forall a | a in Entries(items) ::
      && a.title != [] && |a.title| <= TitleLimit && Contains(a.url, FictionPath)
      && exists it | it in items :: Listed(it) && a == ArticleOf(it)
    ensures forall it | it in items && Listed(it) :: ArticleOf(it) in Entries(items)
  {
    if items != [] {
      var init := items[..|items| - 1];
      EntriesFacts(init);
      assert items == init + [items[|items| - 1]];
      forall a | a in Entries(items)
        ensures && a.title != [] && |a.title| <= TitleLimit && Contains(a.url, FictionPath)
                && exists it | it in items :: Listed(it) && a == ArticleOf(it)
      {
        if a !in Entries(init) {
          var it := items[|items| - 1];
          assert a == ArticleOf(it);
          SliceShape(it.title);
        }
      }
    }
  }

  /** title[:200] of a non-empty title is a non-empty prefix of at most 200 characters. */
  lemma SliceShape(t: string)
    requires t != []
    ensures var r := Slice(t, 0, TitleLimit); r != [] && |r| <= TitleLimit && r == t[..|r|]
  {
  }

  /** What the walk over the listing gives: the articles, or None when a page came with no
      items or timed out (the method then returns []); and the urls of the pages parsed, in
      order. */
  datatype Walk = Walk(articles: Option<seq<Article>>, parsed: seq<string>)

  /** The loop of lines 115-160 from the page at `url`, with `pages` left and the pages in
      `visited` already parsed. */
  function WalkFrom(site: string -> Option<ListPage>, land: string -> Option<string>, url: string,
                    visited: set<string>, pages: nat): Walk
    decreases pages
  {
    if pages == 0 || url in visited then Walk(Some([]), [])
    else match site(url)
      case None => Walk(None, [url])
      case Some(p) =>
        if p.items == [] then Walk(None, [url])
        else match p.next
          case None => Walk(Some(Entries(p.items)), [url])
          case Some(n) =>
            var here := match land(n) case Some(u) => u case None => url;
            Joined(Entries(p.items), [url], WalkFrom(site, land, here, visited + {url}, pages - 1))
  }

  /** A walk continued after `found` was gathered from the pages `log`. */
  function Joined(found: seq<Article>, log: seq<string>, rest: Walk): Walk {
    Walk(if rest.articles.Some? then Some(found + rest.articles.value) else None, log + rest.parsed)
  }

  /** The articles parse_list_page returns. */
  function Listing(w: Walk): seq<Article> {
    if w.articles.Some? then w.articles.value else []
  }

  /** The walk parses at most `pages` pages, never one of `visited`, and never one twice. */
  lemma {:induction false} WalkBounds(site: string -> Option<ListPage>, land: string -> Option<string>,
                                      url: string, visited: set<string>, pages: nat)
    ensures var w := WalkFrom(site, land, url, visited, pages);
      && |w.parsed| <= pages
      && (forall k | 0 <= k < |w.parsed| :: w.parsed[k] !in visited)
      && (forall k, m | 0 <= k < m < |w.parsed| :: w.parsed[k] != w.parsed[m])
    decreases pages
  {
    if pages > 0 && url !in visited && site(url).Some? && site(url).value.items != []
       && site(url).value.next.Some? {
      var n := site(url).value.next.value;
      var here := match land(n) case Some(u) => u case None => url;
      WalkBounds(site, land, here, visited + {url}, pages - 1);
      var rest := WalkFrom(site, land, here, visited + {url}, pages - 1);
      assert WalkFrom(site, land, url, visited, pages).parsed == [url] + rest.parsed;
      ConsFresh(url, rest.parsed, visited);
    }
  }

  /** A url not visited, followed by distinct urls none of which is it or visited, gives
      distinct urls none of which is visited. */
  lemma ConsFresh(u: string, rest: seq<string>, visited: set<string>)
    requires u !in visited
    requires forall k | 0 <= k < |rest| :: rest[k] !in visited + {u}
    requires forall k, m | 0 <= k < m < |rest| :: rest[k] != rest[m]
    ensures var p := [u] + rest;
      && (forall k | 0 <= k < |p| :: p[k] !in visited)
      && (forall k, m | 0 <= k < m < |p| :: p[k] != p[m])
  {
    var p := [u] + rest;
    forall k, m | 0 <= k < m < |p| ensures p[k] != p[m] {
      assert p[m] == rest[m - 1];
      if k > 0 {
        assert p[k] == rest[k - 1];
      }
    }
  }

  /** parse_list_page parses at most five pages, each at most once. */
  lemma ParseListBounds(site: string -> Option<ListPage>, land: string -> Option<string>, start: string)
    ensures var w := WalkFrom(site, land, start, {}, MaxPages);
      && |w.parsed| <= MaxPages
      && forall k, m | 0 <= k < m < |w.parsed| :: w.parsed[k] != w.parsed[m]
  {
    WalkBounds(site, land, start, {}, MaxPages);
  }

  /** The loop of lines 133-149 over one page's items. */
  method EntriesOf(items: seq<Item>) returns (articles: seq<Article>)
    ensures articles == Entries(items)
  {
    articles := [];
    var i := 0;
    while i < |items|
      invariant i <= |items|
      invariant articles == Entries(items[..i])
    {
      assert items[..i + 1][..i] == items[..i];
      if items[i].title != [] && Contains(items[i].url, FictionPath) {
        articles := articles + [Article(Slice(items[i].title, 0, TitleLimit), items[i].url)];
      }
      i := i + 1;
    }
    assert items[..i] == items;
  }

  /** parse_list_page (lines 108-167), from the page at `start`; also gives the urls of the
      pages it parsed. */
  method ParseListPage(site: string -> Option<ListPage>, land: string -> Option<string>, start: string)
    returns (articles: seq<Article>, parsed: seq<string>)
    ensures var w := WalkFrom(site, land, start, {}, MaxPages);
      articles == Listing(w) && parsed == w.parsed
  {
    ghost var total := WalkFrom(site, land, start, {}, MaxPages);
    var url := start;
    var visited: set<string> := {};
    var pages := MaxPages;
    articles := [];
    parsed := [];
    JoinedNil(total);
    while pages > 0
      invariant Joined(articles, parsed, WalkFrom(site, land, url, visited, pages)) == total
      decreases pages
    {
      if url in visited {
        break;
      }
      ghost var a0, p0, u0 := articles, parsed, url;
      var page := site(url);
      visited := visited + {url};
      parsed := parsed + [url];
      if page.None? || page.value.items == [] {
        assert total == Walk(None, parsed);
        return [], parsed;
      }
      var found := EntriesOf(page.value.items);
      articles := articles + found;
      if page.value.next.None? {
        JoinedOne(a0, p0, found, u0);
        break;
      }
      pages := pages - 1;
      var target := land(page.value.next.value);
      if target.Some? {
        url := target.value;
      }
      JoinedAssoc(a0, p0, found, [u0], WalkFrom(site, land, url, visited, pages));
    }
    JoinedDone(articles, parsed);
  }

  lemma JoinedNil(w: Walk)
    ensures Joined([], [], w) == w
  {
    if w.articles.Some? {
      assert [] + w.articles.value == w.articles.value;
    }
    assert [] + w.parsed == w.parsed;
  }

  lemma JoinedDone(found: seq<Article>, log: seq<string>)
    ensures Joined(found, log, Walk(Some([]), [])) == Walk(Some(found), log)
  {
    assert found + [] == found;
    assert log + [] == log;
  }

  lemma JoinedOne(found: seq<Article>, log: seq<string>, more: seq<Article>, url: string)
    ensures Joined(found, log, Walk(Some(more), [url])) == Walk(Some(found + more), log + [url])
  {
  }

  lemma JoinedAssoc(a: seq<Article>, l: seq<string>, b: seq<Article>, m: seq<string>, r: Walk)
    ensures Joined(a, l, Joined(b, m, r)) == Joined(a + b, l + m, r)
  {
    if r.articles.Some? {
      assert a + (b + r.articles.value) == (a + b) + r.articles.value;
    }
    assert l + (m + r.parsed) == (l + m) + r.parsed;
  }

  // ---------------------------------------------------------------------------------------
  // process_article (lines 169-284): gathering and splitting

  /** A chapter page whose load gave text: the link's title and the page's text. */
  datatype Page = Page(title: string, text: string)

  /** The loop of lines 191-254: every chapter link is loaded once, in order (the link at
      index i by load number base + i); a load that gives text yields a page, a failed or
      empty one is skipped. */
  function TextPages(fetch: (string, nat) -> Xqbj.Fetch, base: nat, links: seq<Link>): seq<Page> {
    if links == [] then []
    else
      var l := links[|links| - 1];
      TextPages(fetch, base, links[..|links| - 1]) + Gain(fetch(l.url, base + |links| - 1), l.title)
  }

  /** The page one chapter load yields: one when it gave text, none otherwise. */
  function Gain(f: Xqbj.Fetch, title: string): seq<Page> {
    if f.Loaded? && f.text != [] then [Page(title, f.text)] else []
  }

  lemma TextPagesSnoc(fetch: (string, nat) -> Xqbj.Fetch, base: nat, init: seq<Link>, l: Link)
    ensures TextPages(fetch, base, init + [l])
            == TextPages(fetch, base, init) + Gain(fetch(l.url, base + |init|), l.title)
  {
    assert (init + [l])[..|init|] == init;
  }

  /** Every page comes from a link: there are no more pages than links, and each page has
      the title of one of them. */
  lemma {:induction false} TextPagesFrom(fetch: (string, nat) -> Xqbj.Fetch, base: nat, links: seq<Link>)
    ensures |TextPages(fetch, base, links)| <= |links|
    ensures forall p | p in TextPages(fetch, base, links) :: exists k | 0 <= k < |links| :: links[k].title == p.title
  {
    if links != [] {
      var init := links[..|links| - 1];
      TextPagesFrom(fetch, base, init);
      forall p | p in TextPages(fetch, base, links)
        ensures exists k | 0 <= k < |links| :: links[k].title == p.title
      {
        if p in TextPages(fetch, base, init) {
          var k :| 0 <= k < |init| && init[k].title == p.title;
          assert links[k].title == p.title;
        } else {
          assert links[|links| - 1].title == p.title;
        }
      }
    }
  }

  /** Line 240: what a chapter page contributes to full_content. */
  function Entry(p: Page): string {
    p.title + "\n\n" + Content.CleanScraped(p.text)
  }

  /** full_content: one entry per page, in order. */
  function FullContent(pages: seq<Page>): (r: seq<string>)
    ensures |r| == |pages|
  {
    if pages == [] then [] else FullContent(pages[..|pages| - 1]) + [Entry(pages[|pages| - 1])]
  }

  lemma FullContentSnoc(pages: seq<Page>, p: Page)
    ensures FullContent(pages + [p]) == FullContent(pages) + [Entry(p)]
  {
    assert (pages + [p])[..|pages|] == pages;
  }

  /** Lines 258-266: each entry split at its first blank line, kept when it has two parts. */
  function Records(entries: seq<string>): seq<Content.Record> {
    if entries == [] then []
    else
      var init := Records(entries[..|entries| - 1]);
      match Content.SplitRecord(entries[|entries| - 1])
      case Some(r) => init + [r]
      case None => init
  }

  /** The record a clean split of a page's entry gives: the stripped title and the stripped
      cleaned body. */
  function PageRecord(p: Page): Content.Record {
    Content.Record(Strip(p.title), Strip(Content.CleanScraped(p.text)))
  }

  /** The records of the pages, one each, in order. */
  function PageRecords(pages: seq<Page>): (r: seq<Content.Record>)
    ensures |r| == |pages|
  {
    if pages == [] then [] else PageRecords(pages[..|pages| - 1]) + [PageRecord(pages[|pages| - 1])]
  }

  /** A text holding w has a first occurrence of it. */
  lemma {:induction false} FindFirstFinds(s: string, w: string)
    requires Contains(s, w)
    ensures Content.FindFirst(s, w).Some?
    decreases |s|
  {
    if !StartsWith(s, w) {
      FindFirstFinds(s[1..], w);
    }
  }

  /** An entry always holds the blank line after its title, so it always splits. */
  lemma EntrySplits(p: Page)
    ensures Content.SplitRecord(Entry(p)).Some?
  {
    assert StartsWith("\n\n", "\n\n");
    ContainsSubstring(p.title, "\n\n", Content.CleanScraped(p.text), "\n\n");
    FindFirstFinds(Entry(p), "\n\n");
  }

  /** Every entry yields exactly one record, whatever the titles. */
  lemma {:induction false} RecordsCount(pages: seq<Page>)
    ensures |Records(FullContent(pages))| == |pages|
  {
    if pages != [] {
      var n := |pages| - 1;
      RecordsCount(pages[..n]);
      EntrySplits(pages[n]);
    }
  }

  /** When no title holds a blank line, each entry splits back into its page's stripped
      title and stripped cleaned body. */
  lemma {:induction false} RecordsExact(pages: seq<Page>)
    requires forall k | 0 <= k < |pages| :: !Contains(pages[k].title, "\n\n")
    ensures Records(FullContent(pages)) == PageRecords(pages)
  {
    if pages != [] {
      var n := |pages| - 1;
      RecordsExact(pages[..n]);
      Content.RecordRoundTrip(pages[n].title, Content.CleanScraped(pages[n].text));
    }
  }

  /** The records of a run whose chapter links hold no blank line are those of its pages. */
  lemma TextPagesRecords(fetch: (string, nat) -> Xqbj.Fetch, base: nat, links: seq<Link>)
    requires forall k | 0 <= k < |links| :: !Contains(links[k].title, "\n\n")
    ensures var pages := TextPages(fetch, base, links);
      Records(FullContent(pages)) == PageRecords(pages)
  {
    var pages := TextPages(fetch, base, links);
    TextPagesFrom(fetch, base, links);
    forall k | 0 <= k < |pages|
      ensures !Contains(pages[k].title, "\n\n")
    {
      assert pages[k] in pages;
    }
    RecordsExact(pages);
  }

  // ---------------------------------------------------------------------------------------
  // save_to_db (lines 297-352)

  /** A row of the crawler's `novels` table and one of its `chapters` table. */
  datatype XNovel = XNovel(title: string, sourceUrl: string)
  datatype XChapter = XChapter(novel: nat, title: string, content: string)

  /** The two tables; a row's id is its position. */
  datatype Tables = Tables(novels: seq<XNovel>, chapters: seq<XChapter>)

  /** SELECT id FROM novels WHERE title = %s, first row. */
  function NovelRow(ns: seq<XNovel>, title: string): (r: Option<nat>)
    ensures r.Some? ==> r.value < |ns| && ns[r.value].title == title
    ensures r.None? ==> forall i | 0 <= i < |ns| :: ns[i].title != title
  {
    if ns == [] then None
    else if ns[0].title == title then Some(0)
    else match NovelRow(ns[1..], title)
      case None => None
      case Some(i) => Some(i + 1)
  }

  /** SELECT id FROM chapters WHERE novel_id = %s AND title = %s finds a row. */
  predicate HasRow(chs: seq<XChapter>, novel: nat, title: string) {
    exists i | 0 <= i < |chs| :: chs[i].novel == novel && chs[i].title == title
  }

  /** The novel the records go to, and the tables once it exists. */
  datatype Destination = Destination(novel: nat, tables: Tables)

  /** Lines 299-321. */
  function Target(t: Tables, a: Article): Destination {
    match NovelRow(t.novels, a.title)
    case Some(n) => Destination(n, t)
    case None => Destination(|t.novels|, t.(novels := t.novels + [XNovel(a.title, a.url)]))
  }

  /** The loop of lines 324-344 over `data`: a record is inserted when its (novel, title) has
      no row yet, the rows inserted earlier in the batch included. */
  function Insert(t: Tables, novel: nat, data: seq<Content.Record>): Tables {
    if data == [] then t
    else
      var t1 := Insert(t, novel, data[..|data| - 1]);
      var r := data[|data| - 1];
      if HasRow(t1.chapters, novel, r.title) then t1
      else t1.(chapters := t1.chapters + [XChapter(novel, r.title, r.content)])
  }

  /** The tables save_to_db commits. */
  function Saved(t: Tables, a: Article, data: seq<Content.Record>): Tables {
    var g := Target(t, a);
    Insert(g.tables, g.novel, data)
  }

  /** The statements a run that raises nothing issues: the novel lookup, its insert when
      absent, one lookup per record, one insert per inserted record, and the commit. */
  function Issued(t: Tables, a: Article, data: seq<Content.Record>): int {
    var g := Target(t, a);
    Located(t, a) + |data| + (|Saved(t, a, data).chapters| - |g.tables.chapters|) + 1
  }

  /** The statements of lines 299-321: the lookup, and the insert when the title is absent. */
  function Located(t: Tables, a: Article): int {
    1 + (|Target(t, a).tables.novels| - |t.novels|)
  }

  /** The novel row exists afterwards; it is inserted iff its title was absent, and no other
      novel row changes. */
  lemma TargetFacts(t: Tables, a: Article)
    ensures var g := Target(t, a);
      && g.novel < |g.tables.novels| && g.tables.novels[g.novel].title == a.title
      && g.tables.chapters == t.chapters
      && (NovelRow(t.novels, a.title).Some? ==> g.tables == t)
      && (NovelRow(t.novels, a.title).None? ==> g.tables.novels == t.novels + [XNovel(a.title, a.url)])
  {
  }

  /** The insert loop leaves the novels alone and only appends rows of the novel, each from a
      record whose (novel, title) had no row, no two with the same title; afterwards every
      record's title has a row. */
  lemma {:induction false} InsertFacts(t: Tables, novel: nat, data: seq<Content.Record>)
    ensures var t' := Insert(t, novel, data);
      && t'.novels == t.novels
      && |t.chapters| <= |t'.chapters| <= |t.chapters| + |data|
      && t'.chapters[..|t.chapters|] == t.chapters
      && (forall j | |t.chapters| <= j < |t'.chapters| ::
            && t'.chapters[j].novel == novel
            && !HasRow(t.chapters, novel, t'.chapters[j].title)
            && Content.Record(t'.chapters[j].title, t'.chapters[j].content) in data)
      && (forall j, m | |t.chapters| <= j < m < |t'.chapters| :: t'.chapters[j].title != t'.chapters[m].title)
      && (forall k | 0 <= k < |data| :: HasRow(t'.chapters, novel, data[k].title))
  {
    if data != [] {
      var init := data[..|data| - 1];
      var r := data[|data| - 1];
      InsertFacts(t, novel, init);
      var t1 := Insert(t, novel, init);
      var t' := Insert(t, novel, data);
      assert data == init + [r];
      assert t' == if HasRow(t1.chapters, novel, r.title) then t1
                   else t1.(chapters := t1.chapters + [XChapter(novel, r.title, r.content)]);
      InsertStep(t, t1, t', novel, r);
      InsertStepShape(t, t1, t', novel, init, r);
      InsertStepCovers(t1, t', novel, init, r);
    }
  }

  /** One turn of the insert loop appends at most one row, of the novel, from the record,
      under a title that had no row. */
  lemma InsertStepShape(t: Tables, t1: Tables, t': Tables, novel: nat, init: seq<Content.Record>, r: Content.Record)
    requires |t.chapters| <= |t1.chapters| <= |t.chapters| + |init| && t1.chapters[..|t.chapters|] == t.chapters
    requires forall j | |t.chapters| <= j < |t1.chapters| ::
      && t1.chapters[j].novel == novel && !HasRow(t.chapters, novel, t1.chapters[j].title)
      && Content.Record(t1.chapters[j].title, t1.chapters[j].content) in init
    requires t' == if HasRow(t1.chapters, novel, r.title) then t1
                   else t1.(chapters := t1.chapters + [XChapter(novel, r.title, r.content)])
    requires |t'.chapters| > |t1.chapters| ==> !HasRow(t.chapters, novel, r.title)
    ensures t'.novels == t1.novels
    ensures |t.chapters| <= |t'.chapters| <= |t.chapters| + |init + [r]| && t'.chapters[..|t.chapters|] == t.chapters
    ensures forall j | |t.chapters| <= j < |t'.chapters| ::
      && t'.chapters[j].novel == novel && !HasRow(t.chapters, novel, t'.chapters[j].title)
      && Content.Record(t'.chapters[j].title, t'.chapters[j].content) in init + [r]
  {
    assert t'.chapters[..|t1.chapters|] == t1.chapters;
    assert t'.chapters[..|t.chapters|] == t1.chapters[..|t.chapters|];
    forall j | |t.chapters| <= j < |t'.chapters|
      ensures && t'.chapters[j].novel == novel && !HasRow(t.chapters, novel, t'.chapters[j].title)
              && Content.Record(t'.chapters[j].title, t'.chapters[j].content) in init + [r]
    {
      if j < |t1.chapters| {
        assert t'.chapters[j] == t1.chapters[j];
      }
    }
  }

  /** After one more turn, every record so far has a row. */
  lemma InsertStepCovers(t1: Tables, t': Tables, novel: nat, init: seq<Content.Record>, r: Content.Record)
    requires forall k | 0 <= k < |init| :: HasRow(t1.chapters, novel, init[k].title)
    requires |t1.chapters| <= |t'.chapters| && t'.chapters[..|t1.chapters|] == t1.chapters
    requires HasRow(t'.chapters, novel, r.title)
    ensures forall k | 0 <= k < |init + [r]| :: HasRow(t'.chapters, novel, (init + [r])[k].title)
  {
    forall k | 0 <= k < |init + [r]| ensures HasRow(t'.chapters, novel, (init + [r])[k].title) {
      if k < |init| {
        assert (init + [r])[k] == init[k];
        RowKept(t1.chapters, t'.chapters, novel, init[k].title);
      }
    }
  }

  /** One turn of the insert loop keeps the facts of InsertFacts. */
  lemma InsertStep(t: Tables, t1: Tables, t': Tables, novel: nat, r: Content.Record)
    requires |t.chapters| <= |t1.chapters| && t1.chapters[..|t.chapters|] == t.chapters
    requires forall j | |t.chapters| <= j < |t1.chapters| ::
      t1.chapters[j].novel == novel && !HasRow(t.chapters, novel, t1.chapters[j].title)
    requires forall j, m | |t.chapters| <= j < m < |t1.chapters| :: t1.chapters[j].title != t1.chapters[m].title
    requires t' == if HasRow(t1.chapters, novel, r.title) then t1
                   else t1.(chapters := t1.chapters + [XChapter(novel, r.title, r.content)])
    ensures HasRow(t'.chapters, novel, r.title)
    ensures forall j, m | |t.chapters| <= j < m < |t'.chapters| :: t'.chapters[j].title != t'.chapters[m].title
    ensures |t'.chapters| > |t1.chapters| ==> !HasRow(t.chapters, novel, r.title)
  {
    if !HasRow(t1.chapters, novel, r.title) {
      var n := |t1.chapters|;
      assert t'.chapters[n].novel == novel && t'.chapters[n].title == r.title;
      forall j | |t.chapters| <= j < n ensures t1.chapters[j].title != r.title {
      }
      RowKeptBack(t.chapters, t1.chapters, novel, r.title);
    }
  }

  /** A row found before appending is found after. */
  lemma RowKept(chs: seq<XChapter>, chs': seq<XChapter>, novel: nat, title: string)
    requires |chs| <= |chs'| && chs'[..|chs|] == chs && HasRow(chs, novel, title)
    ensures HasRow(chs', novel, title)
  {
    var i :| 0 <= i < |chs| && chs[i].novel == novel && chs[i].title == title;
    assert chs'[i] == chs[i];
  }

  lemma RowKeptBack(chs: seq<XChapter>, chs': seq<XChapter>, novel: nat, title: string)
    requires |chs| <= |chs'| && chs'[..|chs|] == chs && !HasRow(chs', novel, title)
    ensures !HasRow(chs, novel, title)
  {
    if HasRow(chs, novel, title) {
      RowKept(chs, chs', novel, title);
    }
  }

  /** Saving the same batch again changes nothing. */
  lemma SavedIdempotent(t: Tables, a: Article, data: seq<Content.Record>)
    ensures Saved(Saved(t, a, data), a, data) == Saved(t, a, data)
  {
    var g := Target(t, a);
    TargetFacts(t, a);
    var s := Saved(t, a, data);
    InsertFacts(g.tables, g.novel, data);
    assert s.novels == g.tables.novels;
    NovelRowFinds(s.novels, g.novel, a.title);
    var n := NovelRow(s.novels, a.title).value;
    assert s.novels[n].title == a.title;
    TitlesUnique(t, a, n, g.novel);
    InsertNothing(s, g.novel, data);
  }

  /** NovelRow finds the first row of the title. */
  lemma NovelRowFinds(ns: seq<XNovel>, i: nat, title: string)
    requires i < |ns| && ns[i].title == title
    ensures NovelRow(ns, title).Some?
  {
  }

  /** Rows of the target novel: whichever row of the title the lookup finds is the target,
      since the target is the first row of that title. */
  lemma TitlesUnique(t: Tables, a: Article, n: nat, target: nat)
    requires target == Target(t, a).novel
    requires NovelRow(Target(t, a).tables.novels, a.title).Some?
    requires n == NovelRow(Target(t, a).tables.novels, a.title).value
    ensures n == target
  {
    var ns := Target(t, a).tables.novels;
    if NovelRow(t.novels, a.title).None? {
      assert ns == t.novels + [XNovel(a.title, a.url)];
      FirstRowLast(t.novels, XNovel(a.title, a.url));
    }
  }

  lemma {:induction false} FirstRowLast(ns: seq<XNovel>, x: XNovel)
    requires NovelRow(ns, x.title).None?
    ensures NovelRow(ns + [x], x.title) == Some(|ns|)
  {
    if ns != [] {
      assert (ns + [x])[1..] == ns[1..] + [x];
      FirstRowLast(ns[1..], x);
    }
  }

  /** Inserting records whose titles all have rows changes nothing. */
  lemma {:induction false} InsertNothing(t: Tables, novel: nat, data: seq<Content.Record>)
    requires forall k | 0 <= k < |data| :: HasRow(t.chapters, novel, data[k].title)
    ensures Insert(t, novel, data) == t
  {
    if data != [] {
      InsertNothing(t, novel, data[..|data| - 1]);
    }
  }

  /** The connection: the tables as committed, the statements issued so far, and which
      statement numbers the database refuses. */
  class Conn {
    var tables: Tables
    var issued: nat
    const raises: nat -> bool

    constructor (tables: Tables, raises: nat -> bool)
      ensures this.tables == tables && this.raises == raises && issued == 0
    {
      this.tables := tables;
      this.raises := raises;
      issued := 0;
    }

    /** None of the statements numbered from `lo` up to `hi` raises. */
    predicate Clean(lo: int, hi: int) {
      forall k: nat | lo <= k < hi :: !raises(k)
    }

    /** cursor.execute / commit: reports whether the statement raised. */
    method Execute() returns (failed: bool)
      modifies this
      ensures failed == raises(old(issued)) && issued == old(issued) + 1 && tables == old(tables)
    {
      failed := raises(issued);
      issued := issued + 1;
    }

    /** Lines 299-321: find the novel's row, inserting it when the title is absent. */
    method Locate(a: Article) returns (failed: bool, novel: nat)
      modifies this
      ensures !failed ==>
        && novel == Target(old(tables), a).novel && tables == Target(old(tables), a).tables
        && issued == old(issued) + Located(old(tables), a) && Clean(old(issued), issued)
      ensures failed ==>
        && old(issued) < issued <= old(issued) + Located(old(tables), a) && raises(issued - 1)
    {
      TargetFacts(tables, a);
      novel := 0;
      failed := Execute();
      if failed {
        return;
      }
      var found := NovelRow(tables.novels, a.title);
      if found.Some? {
        novel := found.value;
      } else {
        failed := Execute();
        if failed {
          return;
        }
        tables := tables.(novels := tables.novels + [XNovel(a.title, a.url)]);
        novel := |tables.novels| - 1;
      }
    }

    /** Lines 324-344, one record: look its (novel, title) up and insert it when absent. */
    method InsertRecord(novel: nat, r: Content.Record) returns (failed: bool)
      modifies this
      ensures !failed ==>
        && tables == (if HasRow(old(tables).chapters, novel, r.title) then old(tables)
                      else old(tables).(chapters := old(tables).chapters + [XChapter(novel, r.title, r.content)]))
        && issued == old(issued) + 1 + (|tables.chapters| - |old(tables).chapters|)
        && Clean(old(issued), issued)
      ensures failed ==> old(issued) < issued && raises(issued - 1)
      ensures failed ==> issued == old(issued) + 1 || (issued == old(issued) + 2 && !HasRow(old(tables).chapters, novel, r.title))
    {
      failed := Execute();
      if failed {
        return;
      }
      if !HasRow(tables.chapters, novel, r.title) {
        failed := Execute();
        if failed {
          return;
        }
        tables := tables.(chapters := tables.chapters + [XChapter(novel, r.title, r.content)]);
      }
    }

    /** The loop of lines 324-344. */
    method InsertAll(novel: nat, data: seq<Content.Record>) returns (failed: bool)
      modifies this
      ensures !failed ==>
        && tables == Insert(old(tables), novel, data)
        && issued == old(issued) + |data| + (|tables.chapters| - |old(tables).chapters|)
        && Clean(old(issued), issued)
      ensures failed ==>
        && old(issued) < issued <= old(issued) + |data| + (|Insert(old(tables), novel, data).chapters| - |old(tables).chapters|)
        && raises(issued - 1)
    {
      ghost var t0 := tables;
      var i := 0;
      while i < |data|
        invariant i <= |data|
        invariant tables == Insert(t0, novel, data[..i])
        invariant |t0.chapters| <= |tables.chapters|
        invariant issued == old(issued) + i + (|tables.chapters| - |t0.chapters|)
        invariant Clean(old(issued), issued)
      {
        assert data[..i + 1][..i] == data[..i];
        InsertGrows(t0, novel, data, i + 1);
        failed := InsertRecord(novel, data[i]);
        if failed {
          return;
        }
        i := i + 1;
      }
      assert data[..i] == data;
      failed := false;
    }

    /** save_to_db (lines 297-352): the whole batch is committed, or, when a statement
        raises, rolled back; it succeeds iff none of the statements a clean run issues
        raises. */
    method SaveToDb(a: Article, data: seq<Content.Record>) returns (ok: bool)
      modifies this
      ensures ok ==> tables == Saved(old(tables), a, data)
      ensures !ok ==> tables == old(tables)
      ensures ok <==> Clean(old(issued), old(issued) + Issued(old(tables), a, data))
    {
      var t0 := tables;
      ghost var i0 := issued;
      ghost var g := Target(t0, a);
      TargetFacts(t0, a);
      InsertFacts(g.tables, g.novel, data);
      var failed, novel := Locate(a);
      if failed {
        tables := t0;
        return false;
      }
      ghost var i1 := issued;
      failed := InsertAll(novel, data);
      if failed {
        tables := t0;
        return false;
      }
      ghost var i2 := issued;
      failed := Execute();
      if failed {
        tables := t0;
        return false;
      }
      assert issued == i0 + Issued(t0, a, data);
      return true;
    }
  }

  /** The rows a prefix of the batch inserts are at most those the whole batch inserts. */
  lemma {:induction false} InsertGrows(t: Tables, novel: nat, data: seq<Content.Record>, i: nat)
    requires i <= |data|
    ensures |Insert(t, novel, data[..i]).chapters| <= |Insert(t, novel, data).chapters|
    decreases |data| - i
  {
    if i < |data| {
      InsertGrows(t, novel, data, i + 1);
      assert data[..i + 1][..i] == data[..i];
    } else {
      assert data[..i] == data;
    }
  }

  // ---------------------------------------------------------------------------------------
  // process_article (lines 169-284)

  /** One turn of the loop of lines 191-254: the link's page is loaded, and its entry
      appended to full_content when it gave text. */
  method GatherNext(b: Browser, link: Link, full: seq<string>, ghost pages: seq<Page>)
    returns (full': seq<string>, ghost pages': seq<Page>)
    requires full == FullContent(pages)
    modifies b
    ensures b.loaded == old(b.loaded) + [link.url]
    ensures pages' == pages + Gain(b.fetch(link.url, |old(b.loaded)|), link.title)
    ensures full' == FullContent(pages')
  {
    var f := b.Load(link.url);
    full', pages' := full, pages;
    if f.Loaded? && f.text != [] {
      var content := Content.CleanScraped(f.text);
      FullContentSnoc(pages, Page(link.title, f.text));
      full' := full + [link.title + "\n\n" + content];
      pages' := pages + [Page(link.title, f.text)];
    }
  }

  /** The loop of lines 191-254: every link loaded once, in order. */
  method GatherAll(b: Browser, links: seq<Link>) returns (full: seq<string>)
    modifies b
    ensures b.loaded == old(b.loaded) + UrlsOf(links)
    ensures full == FullContent(TextPages(b.fetch, |old(b.loaded)|, links))
  {
    ghost var base := |b.loaded|;
    ghost var pages: seq<Page> := [];
    full := [];
    var i := 0;
    while i < |links|
      invariant i <= |links|
      invariant b.loaded == old(b.loaded) + UrlsOf(links[..i])
      invariant |b.loaded| == base + i
      invariant pages == TextPages(b.fetch, base, links[..i])
      invariant full == FullContent(pages)
    {
      ghost var prior := b.loaded;
      full, pages := GatherNext(b, links[i], full, pages);
      GatheredStep(b.fetch, base, links, i, old(b.loaded), prior, pages);
      i := i + 1;
    }
    assert links[..i] == links;
  }

  /** Lines 258-266. */
  method SplitAll(entries: seq<string>) returns (data: seq<Content.Record>)
    ensures data == Records(entries)
  {
    data := [];
    var i := 0;
    while i < |entries|
      invariant i <= |entries|
      invariant data == Records(entries[..i])
    {
      assert entries[..i + 1][..i] == entries[..i];
      var parts := Content.SplitRecord(entries[i]);
      if parts.Some? {
        data := data + [parts.value];
      }
      i := i + 1;
    }
    assert entries[..i] == entries;
  }

  /** process_article (lines 169-284) for an article whose chapter list is `page` (None
      when the list page fails to load or its list never appears): every link is loaded
      once, and the records of the bodies found, if any, are saved in one transaction. */
  method ProcessArticle(conn: Conn, b: Browser, a: Article, page: Option<seq<Link>>)
    returns (data: seq<Content.Record>)
    modifies conn, b
    ensures var links := if page.Some? then page.value else [];
      && b.loaded == old(b.loaded) + UrlsOf(links)
      && data == Records(FullContent(TextPages(b.fetch, |old(b.loaded)|, links)))
    ensures data == [] ==> conn.tables == old(conn.tables) && conn.issued == old(conn.issued)
    ensures data != [] && conn.Clean(old(conn.issued), old(conn.issued) + Issued(old(conn.tables), a, data)) ==>
      conn.tables == Saved(old(conn.tables), a, data)
    ensures data != [] && !conn.Clean(old(conn.issued), old(conn.issued) + Issued(old(conn.tables), a, data)) ==>
      conn.tables == old(conn.tables)
  {
    if page.None? || page.value == [] {
      assert UrlsOf([]) == [];
      return [];
    }
    var full := GatherAll(b, page.value);
    data := SplitAll(full);
    if data != [] {
      var ok := conn.SaveToDb(a, data);
    }
  }

  /** One turn of GatherAll keeps its invariant: link i loaded and its page gained extend
      the urls and the pages of links[..i] to those of links[..i + 1]. */
  lemma GatheredStep(fetch: (string, nat) -> Xqbj.Fetch, base: nat, links: seq<Link>, i: nat,
                     before: seq<string>, prior: seq<string>, pages: seq<Page>)
    requires i < |links| && prior == before + UrlsOf(links[..i]) && |prior| == base + i
    requires pages == TextPages(fetch, base, links[..i]) + Gain(fetch(links[i].url, |prior|), links[i].title)
    ensures prior + [links[i].url] == before + UrlsOf(links[..i + 1])
    ensures pages == TextPages(fetch, base, links[..i + 1])
  {
    assert links[..i + 1] == links[..i] + [links[i]];
    TextPagesSnoc(fetch, base, links[..i], links[i]);
    UrlsSnoc(before, prior, links[..i], links[i]);
  }

  lemma UrlsSnoc(before: seq<string>, prior: seq<string>, init: seq<Link>, l: Link)
    requires prior == before + UrlsOf(init)
    ensures prior + [l.url] == before + UrlsOf(init + [l])
  {
    assert UrlsOf(init + [l]) == UrlsOf(init) + [l.url];
  }

  /** The urls of the links, in order. */
  function UrlsOf(links: seq<Link>): (us: seq<string>)
    ensures |us| == |links| && forall k | 0 <= k < |links| :: us[k] == links[k].url
  {
    seq(|links|, (k: int) requires 0 <= k < |links| => links[k].url)
  }
}

/** The book18 crawler's process_novel (crawl_book18.py): find or create the novel, fall
    back to a single chapter when the page lists none, otherwise load the listed chapter
    pages after the chapters already stored, and record the number of listed chapters in
    the intro. As written, the listed branch stores no chapter, because its content script
    is bound only in the other branch; the intended behaviour, which names each fetched
    chapter by its position, is modelled beside it. The novel page is an input (None when
    navigation fails); chapter pages come from the browser of module Pages. */
module Book18 {
  import opened Wrappers
  import opened Strings
  import opened Store
  import Names
  import Xqbj
  import opened Pages

  /** The intro a novel is created with, before its chapters are counted. */
  const Pending: string := "正在获取..."

  /** What the novel page's scripts give: the chapter links, and the text of the page's own
      content block (read only when there are no links). */
  datatype NovelPage = NovelPage(links: seq<Link>, content: string)

  datatype Outcome = Outcome(ok: bool, world: World)

  /** The novel a run works on, its chapter count when the run starts, and the store once
      the novel exists. */
  datatype Start = Start(novel: nat, count: nat, world: World)

  /** The title given to the chapter at 1-based position idx. */
  function ChapterName(idx: nat): (r: string)
    ensures |r| >= 3 && r[0] == '第' && r[|r| - 1] == '章'
  {
    "第" + Decimal(idx) + "章"
  }

  /** Different positions give different titles, so the chapters a run creates never
      collide with each other. */
  lemma ChapterNameInjective(i: nat, j: nat)
    requires ChapterName(i) == ChapterName(j)
    ensures i == j
  {
    var a := ChapterName(i);
    assert Decimal(i) == a[1..|a| - 1];
    assert Decimal(j) == ChapterName(j)[1..|a| - 1];
    DecimalInjective(i, j);
  }

  /** Lines 95-117: the novel titled `title` and its chapter count, or a new novel with
      author 未知 and the pending intro, counting no chapters. */
  function Open(w: World, url: string, title: string, now: int): (s: Start)
  {
    match FindNovel(w.novels, title)
    case Some(n) => Start(n, CountOf(w.chapters, n), w)
    case None =>
      Start(|w.novels|, 0, w.(novels := w.novels + [Novel(title, Names.UnknownAuthor, Pending, url, now)]))
  }

  /** One turn of the loop of lines 221-238 as written: line 224 loads the chapter page,
      then line 225 runs a content script that is bound only inside the branch of lines
      142-210. That raises on every turn, and the handler of line 234 swallows it, so the
      turn creates nothing. */
  function Visited(w: World, link: Link): (w': World)
  {
    w.(loaded := w.loaded + [link.url])
  }

  /** The loop of lines 221-238 as written, from the link at index i on. */
  function Visits(w: World, links: seq<Link>, i: nat): (w': World)
    decreases |links| - i
  {
    if i >= |links| then w else Visits(Visited(w, links[i]), links, i + 1)
  }

  /** One turn of the loop of lines 221-238 as evidently intended, with the content script
      of lines 146-200 in scope: load the chapter page and, when the script found text,
      create the chapter named after its position; a duplicate title is an exception the
      turn swallows. */
  function Fetched(e: Env, w: World, novel: nat, link: Link, idx: nat): (w': World)
  {
    var w1 := w.(loaded := w.loaded + [link.url]);
    match e.fetch(link.url, |w.loaded|)
    case Loaded(text) =>
      if text != [] && !HasChapter(w.chapters, novel, ChapterName(idx)) then
        w1.(chapters := w.chapters + [Chapter(novel, ChapterName(idx), e.save(text), 0)])
      else w1
    case Raised(_) => w1
  }

  /** The loop of lines 221-238 as intended, from the link at index i on: position i + 1 is
      fetched next. */
  function Download(e: Env, w: World, novel: nat, links: seq<Link>, i: nat): (w': World)
    decreases |links| - i
  {
    if i >= |links| then w
    else Download(e, Fetched(e, w, novel, links[i], i + 1), novel, links, i + 1)
  }

  /** The urls of the links from index i on. */
  function UrlsFrom(links: seq<Link>, i: nat): (us: seq<string>)
    ensures |us| == if i < |links| then |links| - i else 0
    ensures forall k | 0 <= k < |us| :: us[k] == links[i + k].url
  {
    if i >= |links| then [] else seq(|links| - i, (k: int) requires 0 <= k < |links| - i => links[i + k].url)
  }

  /** process_novel (lines 88-252) for the novel titled `title` at `url`. With `fixed` false
      this is the code as written, whose listed branch creates no chapter (Visits); with
      `fixed` true the listed branch fetches as intended (Download). */
  function Crawl(e: Env, w: World, url: string, title: string, page: Option<NovelPage>, now: int, fixed: bool): (o: Outcome)
  {
    var s := Open(w, url, title, now);
    if page.None? then Outcome(false, s.world)
    else if page.value.links == [] then
      if page.value.content == [] then Outcome(false, s.world)
      else if s.count == 0 then
        Outcome(true, s.world.(chapters := s.world.chapters + [Chapter(s.novel, ChapterName(1), e.save(page.value.content), 0)]))
      else Outcome(true, s.world)
    else
      var d := if fixed then Download(e, s.world, s.novel, page.value.links, s.count)
               else Visits(s.world, page.value.links, s.count);
      if s.novel < |d.novels| then
        Outcome(true, d.(novels := d.novels[s.novel := d.novels[s.novel].(intro := Xqbj.CountIntro(|page.value.links|), updatedAt := now)]))
      else Outcome(true, d)
  }

  // ---------------------------------------------------------------------------------------
  // What a run does

  /** Open finds the novel when its title is stored and creates it otherwise. */
  lemma OpenFacts(w: World, url: string, title: string, now: int)
    ensures var s := Open(w, url, title, now);
      && s.novel < |s.world.novels| && s.world.novels[s.novel].title == title
      && s.world.chapters == w.chapters && s.world.loaded == w.loaded
      && (FindNovel(w.novels, title).Some? ==>
            s.world == w && s.novel == FindNovel(w.novels, title).value && s.count == CountOf(w.chapters, s.novel))
      && (FindNovel(w.novels, title).None? ==>
            s.count == 0 && s.world.novels == w.novels + [Novel(title, Names.UnknownAuthor, Pending, url, now)])
  {
  }

  /** A novel no chapter refers to counts zero chapters. */
  lemma {:induction false} NoneCounted(chs: seq<Chapter>, novel: nat)
    requires forall i | 0 <= i < |chs| :: chs[i].novel < novel
    ensures CountOf(chs, novel) == 0
  {
    if chs != [] {
      NoneCounted(chs[..|chs| - 1], novel);
    }
  }

  /** A novel counting no chapters has none of any title. */
  lemma CountedNone(chs: seq<Chapter>, novel: nat, title: string)
    requires CountOf(chs, novel) == 0
    ensures !HasChapter(chs, novel, title)
  {
  }

  /** The loop loads exactly the links after the first i, in order, leaves the novels
      alone, and only appends chapters of the novel, each named after a position after i
      and stored with the default order 0. */
  lemma {:induction false} DownloadFacts(e: Env, w: World, novel: nat, links: seq<Link>, i: nat)
    ensures var w' := Download(e, w, novel, links, i);
      && w'.novels == w.novels
      && w'.loaded == w.loaded + UrlsFrom(links, i)
      && |w.chapters| <= |w'.chapters| <= |w.chapters| + |UrlsFrom(links, i)|
      && w'.chapters[..|w.chapters|] == w.chapters
      && forall j | |w.chapters| <= j < |w'.chapters| ::
           && w'.chapters[j].novel == novel && w'.chapters[j].order == 0
           && exists k :: i < k <= |links| && w'.chapters[j].title == ChapterName(k)
    decreases |links| - i
  {
    if i < |links| {
      var w1 := Fetched(e, w, novel, links[i], i + 1);
      FetchedFacts(e, w, novel, links[i], i + 1);
      DownloadFacts(e, w1, novel, links, i + 1);
      assert Download(e, w, novel, links, i) == Download(e, w1, novel, links, i + 1);
      UrlsFromCons(links, i);
      DownloadStep(w.chapters, w1.chapters, Download(e, w1, novel, links, i + 1).chapters, novel, |links|, i);
    }
  }

  /** The chapters of one fetch followed by those of the rest of the loop are chapters the
      loop from position i appends. */
  lemma DownloadStep(a: seq<Chapter>, b: seq<Chapter>, c: seq<Chapter>, novel: nat, n: nat, i: nat)
    requires i < n
    requires |a| <= |b| <= |a| + 1 && b[..|a|] == a
    requires forall j | |a| <= j < |b| :: b[j].novel == novel && b[j].order == 0 && b[j].title == ChapterName(i + 1)
    requires |b| <= |c| <= |b| + (n - (i + 1)) && c[..|b|] == b
    requires forall j | |b| <= j < |c| ::
      && c[j].novel == novel && c[j].order == 0
      && exists k :: i + 1 < k <= n && c[j].title == ChapterName(k)
    ensures |a| <= |c| <= |a| + (n - i) && c[..|a|] == a
    ensures forall j | |a| <= j < |c| ::
      && c[j].novel == novel && c[j].order == 0
      && exists k :: i < k <= n && c[j].title == ChapterName(k)
  {
    PrefixChain(a, b, c);
    forall j | |a| <= j < |c|
      ensures && c[j].novel == novel && c[j].order == 0
              && exists k :: i < k <= n && c[j].title == ChapterName(k)
    {
      if j < |b| {
        assert c[j] == b[j];
        assert c[j].title == ChapterName(i + 1);
      } else {
        var k :| i + 1 < k <= n && c[j].title == ChapterName(k);
      }
    }
  }

  /** One link fetched: the novels stay, its url is loaded, and at most one chapter of the
      novel, named after position idx, is appended. */
  lemma FetchedFacts(e: Env, w: World, novel: nat, link: Link, idx: nat)
    ensures var w1 := Fetched(e, w, novel, link, idx);
      && w1.novels == w.novels && w1.loaded == w.loaded + [link.url]
      && |w.chapters| <= |w1.chapters| <= |w.chapters| + 1
      && w1.chapters[..|w.chapters|] == w.chapters
      && forall j | |w.chapters| <= j < |w1.chapters| ::
           w1.chapters[j].novel == novel && w1.chapters[j].order == 0 && w1.chapters[j].title == ChapterName(idx)
  {
  }

  lemma UrlsFromCons(links: seq<Link>, i: nat)
    requires i < |links|
    ensures UrlsFrom(links, i) == [links[i].url] + UrlsFrom(links, i + 1)
  {
  }

  lemma PrefixChain<T>(a: seq<T>, b: seq<T>, c: seq<T>)
    requires |a| <= |b| <= |c| && b[..|a|] == a && c[..|b|] == b
    ensures c[..|a|] == a
  {
    assert c[..|a|] == b[..|a|];
  }

  /** Position k (after i) ends up stored when its page load gives text and no chapter of
      that name was there before; it is stored with the text as saved. */
  lemma {:induction false} DownloadCreates(e: Env, w: World, novel: nat, links: seq<Link>, i: nat, k: nat, text: string)
    requires i < k <= |links|
    requires e.fetch(links[k - 1].url, |w.loaded| + (k - 1 - i)) == Xqbj.Loaded(text) && text != []
    requires !HasChapter(w.chapters, novel, ChapterName(k))
    ensures Chapter(novel, ChapterName(k), e.save(text), 0) in Download(e, w, novel, links, i).chapters
    decreases |links| - i
  {
    var w1 := Fetched(e, w, novel, links[i], i + 1);
    DownloadFacts(e, w1, novel, links, i + 1);
    var w' := Download(e, w, novel, links, i);
    if k == i + 1 {
      var c := Chapter(novel, ChapterName(k), e.save(text), 0);
      assert w1.chapters == w.chapters + [c];
      assert w'.chapters[|w.chapters|] == w1.chapters[|w.chapters|];
    } else {
      if HasChapter(w1.chapters, novel, ChapterName(k)) {
        var j :| 0 <= j < |w1.chapters| && w1.chapters[j].novel == novel && w1.chapters[j].title == ChapterName(k);
        if j >= |w.chapters| {
          ChapterNameInjective(k, i + 1);
        }
      }
      DownloadCreates(e, w1, novel, links, i + 1, k, text);
    }
  }

  /** Conversely, a chapter the loop adds named after position k comes from that
      position's page load, which gave non-empty text, stored as saved. */
  lemma {:induction false} DownloadFrom(e: Env, w: World, novel: nat, links: seq<Link>, i: nat, j: nat, k: nat)
    requires var w' := Download(e, w, novel, links, i);
      |w.chapters| <= j < |w'.chapters| && w'.chapters[j].title == ChapterName(k)
    ensures i < k <= |links|
    ensures exists text :: && e.fetch(links[k - 1].url, |w.loaded| + (k - 1 - i)) == Xqbj.Loaded(text)
                           && text != [] && Download(e, w, novel, links, i).chapters[j].content == e.save(text)
    decreases |links| - i
  {
    var w' := Download(e, w, novel, links, i);
    if i >= |links| {
      // No link is left, so the loop added no chapter and no j meets the requires.
      assert false;
    } else {
      var w1 := Fetched(e, w, novel, links[i], i + 1);
      DownloadFacts(e, w1, novel, links, i + 1);
      if j < |w1.chapters| {
        assert w'.chapters[j] == w1.chapters[j];
        ChapterNameInjective(k, i + 1);
        var text := e.fetch(links[i].url, |w.loaded|).text;
        assert e.fetch(links[k - 1].url, |w.loaded| + (k - 1 - i)) == Xqbj.Loaded(text);
      } else {
        DownloadFrom(e, w1, novel, links, i + 1, j, k);
        assert |w1.loaded| == |w.loaded| + 1;
      }
    }
  }

  /** Lines 128-129: when the novel page does not load, the run fails having loaded no
      chapter page and created no chapter (a new novel stays created). */
  lemma CrawlUnreachable(e: Env, w: World, url: string, title: string, now: int, fixed: bool)
    ensures var o := Crawl(e, w, url, title, None, now, fixed);
      !o.ok && o.world.chapters == w.chapters && o.world.loaded == w.loaded
  {
    OpenFacts(w, url, title, now);
  }

  /** Lines 142-210: with no chapter list, the run succeeds iff the page has content, and
      creates the single chapter 第1章 holding it only when the novel had no chapter. */
  lemma CrawlSingle(e: Env, w: World, url: string, title: string, content: string, now: int, fixed: bool)
    ensures var o := Crawl(e, w, url, title, Some(NovelPage([], content)), now, fixed);
      var s := Open(w, url, title, now);
      && o.ok == (content != [])
      && o.world.loaded == w.loaded
      && o.world.novels == s.world.novels
      && (content != [] && s.count == 0 ==>
            o.world.chapters == w.chapters + [Chapter(s.novel, "第1章", e.save(content), 0)])
      && (content == [] || s.count > 0 ==> o.world.chapters == w.chapters)
  {
    OpenFacts(w, url, title, now);
    assert ChapterName(1) == "第1章";
  }

  /** Lines 212-244 as written: with a chapter list, the run succeeds and loads exactly the
      links after the stored chapter count, but adds no chapter at all; it still sets the
      intro to 共{links}章, nothing else of the novels changing. */
  lemma CrawlListedAsWritten(e: Env, w: World, url: string, title: string, links: seq<Link>, content: string, now: int)
    requires links != []
    ensures var o := Crawl(e, w, url, title, Some(NovelPage(links, content)), now, false);
      var s := Open(w, url, title, now);
      && o.ok
      && o.world.loaded == w.loaded + UrlsFrom(links, s.count)
      && o.world.chapters == w.chapters
      && |o.world.novels| == |s.world.novels|
      && o.world.novels[s.novel] == s.world.novels[s.novel].(intro := Xqbj.CountIntro(|links|), updatedAt := now)
      && forall n | 0 <= n < |s.world.novels| && n != s.novel :: o.world.novels[n] == s.world.novels[n]
  {
    OpenFacts(w, url, title, now);
    var s := Open(w, url, title, now);
    VisitsFacts(s.world, links, s.count);
  }

  /** The loop as written only loads the links after the first i. */
  lemma {:induction false} VisitsFacts(w: World, links: seq<Link>, i: nat)
    ensures Visits(w, links, i) == w.(loaded := w.loaded + UrlsFrom(links, i))
    decreases |links| - i
  {
    if i < |links| {
      var w1 := Visited(w, links[i]);
      VisitsFacts(w1, links, i + 1);
      UrlsFromCons(links, i);
      assert w1.loaded + UrlsFrom(links, i + 1) == w.loaded + UrlsFrom(links, i);
    }
  }

  /** Lines 212-244 as intended: with a chapter list, the run succeeds, loads exactly the
      links after the stored chapter count, adds only chapters of the novel named after
      those positions, and sets the intro to 共{links}章, nothing else of the novels
      changing. */
  lemma CrawlListed(e: Env, w: World, url: string, title: string, links: seq<Link>, content: string, now: int)
    requires links != []
    ensures var o := Crawl(e, w, url, title, Some(NovelPage(links, content)), now, true);
      var s := Open(w, url, title, now);
      && o.ok
      && o.world.loaded == w.loaded + UrlsFrom(links, s.count)
      && |w.chapters| <= |o.world.chapters|
      && o.world.chapters[..|w.chapters|] == w.chapters
      && (forall j | |w.chapters| <= j < |o.world.chapters| ::
            && o.world.chapters[j].novel == s.novel
            && exists k :: s.count < k <= |links| && o.world.chapters[j].title == ChapterName(k))
      && |o.world.novels| == |s.world.novels|
      && o.world.novels[s.novel] == s.world.novels[s.novel].(intro := Xqbj.CountIntro(|links|), updatedAt := now)
      && forall n | 0 <= n < |s.world.novels| && n != s.novel :: o.world.novels[n] == s.world.novels[n]
  {
    OpenFacts(w, url, title, now);
    var s := Open(w, url, title, now);
    DownloadFacts(e, s.world, s.novel, links, s.count);
  }

  /** Lines 95-117: an existing novel keeps its author, source url and every other field
      but the intro and updated_at; the defaults apply only to a novel the run creates. */
  lemma CrawlKeepsExisting(e: Env, w: World, url: string, title: string, page: Option<NovelPage>, now: int, n: nat, fixed: bool)
    requires FindNovel(w.novels, title) == Some(n)
    ensures var o := Crawl(e, w, url, title, page, now, fixed);
      && |o.world.novels| == |w.novels|
      && o.world.novels[n].title == w.novels[n].title && o.world.novels[n].author == w.novels[n].author
      && o.world.novels[n].sourceUrl == w.novels[n].sourceUrl
      && forall m | 0 <= m < |w.novels| && m != n :: o.world.novels[m] == w.novels[m]
  {
    OpenFacts(w, url, title, now);
    if page.Some? && page.value.links != [] {
      DownloadFacts(e, w, n, page.value.links, CountOf(w.chapters, n));
      VisitsFacts(w, page.value.links, CountOf(w.chapters, n));
    }
  }

  // ---------------------------------------------------------------------------------------
  // The crawler

  /** One turn of lines 221-238 as written: the page load of line 224, whose result line 225
      never gets to use; the exception it raises is swallowed at line 234. */
  method VisitChapter(db: Db, b: Browser, link: Link)
    modifies b
    ensures State(db, b) == Visited(old(State(db, b)), link)
  {
    var _ := b.Load(link.url);
  }

  /** The loop of lines 221-238 as written: the links after the first `start`. */
  method VisitAll(db: Db, b: Browser, links: seq<Link>, start: nat)
    modifies b
    ensures State(db, b) == Visits(old(State(db, b)), links, start)
  {
    var i := start;
    while i < |links|
      invariant Visits(old(State(db, b)), links, start) == Visits(State(db, b), links, i)
      decreases |links| - i
    {
      VisitChapter(db, b, links[i]);
      i := i + 1;
    }
  }

  /** One turn of lines 221-238 as intended, with the content script in scope. */
  method FetchChapter(db: Db, b: Browser, novel: nat, link: Link, idx: nat, ghost e: Env)
    requires db.Valid() && novel < |db.novels| && Serves(e, db.filterWords, b.fetch)
    modifies db, b
    ensures db.Valid() && db.filterWords == old(db.filterWords)
    ensures State(db, b) == Fetched(e, old(State(db, b)), novel, link, idx)
  {
    var f := b.Load(link.url);
    match f
    case Loaded(text) =>
      if text != [] {
        var r := db.CreateChapter(novel, ChapterName(idx), text, 0);
      }
    case Raised(_) =>
  }

  /** The loop of lines 221-238 as intended: the links after the first `start`, position
      start + 1 first. */
  method DownloadAll(db: Db, b: Browser, novel: nat, links: seq<Link>, start: nat, ghost e: Env)
    requires db.Valid() && novel < |db.novels| && Serves(e, db.filterWords, b.fetch)
    modifies db, b
    ensures db.Valid() && db.filterWords == old(db.filterWords)
    ensures State(db, b) == Download(e, old(State(db, b)), novel, links, start)
    ensures db.novels == old(db.novels)
  {
    var i := start;
    while i < |links|
      invariant db.Valid() && db.filterWords == old(db.filterWords)
      invariant db.novels == old(db.novels)
      invariant Download(e, old(State(db, b)), novel, links, start) == Download(e, State(db, b), novel, links, i)
      decreases |links| - i
    {
      FetchChapter(db, b, novel, links[i], i + 1, e);
      i := i + 1;
    }
  }

  /** Lines 95-117. */
  method OpenNovel(db: Db, b: Browser, url: string, title: string, now: int) returns (novel: nat, count: nat)
    requires db.Valid()
    modifies db
    ensures db.Valid() && db.filterWords == old(db.filterWords)
    ensures var s := Open(old(State(db, b)), url, title, now);
      novel == s.novel && count == s.count && State(db, b) == s.world
    ensures novel < |db.novels| && count == CountOf(db.chapters, novel)
  {
    OpenFacts(State(db, b), url, title, now);
    var found := FindNovel(db.novels, title);
    if found.Some? {
      novel := found.value;
      count := CountOf(db.chapters, novel);
    } else {
      NoneCounted(db.chapters, |db.novels|);
      var r := db.CreateNovel(title, Names.UnknownAuthor, Pending, url, now);
      novel := |db.novels| - 1;
      count := 0;
    }
  }

  /** process_novel (lines 88-252) as written: the listed branch only loads the pages. */
  method ProcessNovel(db: Db, b: Browser, url: string, title: string, page: Option<NovelPage>, now: int)
    returns (ok: bool)
    requires db.Valid()
    modifies db, b
    ensures db.Valid() && db.filterWords == old(db.filterWords)
    ensures var o := Crawl(EnvFor(old(db.filterWords), b.fetch), old(State(db, b)), url, title, page, now, false);
      ok == o.ok && State(db, b) == o.world
  {
    ghost var e := EnvFor(db.filterWords, b.fetch);
    ServesEnvFor(db.filterWords, b.fetch);
    var novel, count := OpenNovel(db, b, url, title, now);
    if page.None? {
      return false;
    }
    var links := page.value.links;
    if links == [] {
      if page.value.content != [] {
        if count == 0 {
          CountedNone(db.chapters, novel, ChapterName(1));
          var r := db.CreateChapter(novel, ChapterName(1), page.value.content, 0);
        }
        return true;
      }
      return false;
    }
    VisitAll(db, b, links, count);
    db.SetIntro(novel, Xqbj.CountIntro(|links|), now);
    return true;
  }
}

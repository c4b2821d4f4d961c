/** The process_article step of crawl_novels.py: get or create the novel by title, then
    visit its chapter links, skipping a title the novel already holds without loading its
    page, and storing each loaded body after the scraped-text cleanup. The article's chapter
    list is an input (None when its page fails to load); chapter pages come from the browser
    of module Pages. */
module CrawlNovels {
  import opened Wrappers
  import opened Store
  import opened Pages
  import Content
  import Names
  import Xqbj

  /** The intro a created novel gets. */
  const NoIntro: string := "暂无简介"

  /** A listed article: its title and the url of its chapter list. */
  datatype Article = Article(title: string, url: string)

  /** The novel a run works on and the store once it is saved. */
  datatype Start = Start(novel: nat, world: World)

  /** Lines 60-78: Novel.objects.get_or_create by title; the defaults apply only to a new
      novel, an existing one is saved with updated_at moved on. */
  function GetOrCreate(w: World, a: Article, now: int): Start {
    match FindNovel(w.novels, a.title)
    case Some(n) => Start(n, w.(novels := w.novels[n := w.novels[n].(updatedAt := now)]))
    case None =>
      Start(|w.novels|, w.(novels := w.novels + [Novel(a.title, Names.UnknownAuthor, NoIntro, a.url, now)]))
  }

  /** One turn of lines 97-161: a title the novel holds is skipped before any load;
      otherwise the chapter page is loaded, and a non-empty body is cleaned and stored. A
      failed load or an exception only ends the turn. */
  function Visit(e: Env, w: World, novel: nat, link: Link): World {
    if HasChapter(w.chapters, novel, link.title) then w
    else
      var w1 := w.(loaded := w.loaded + [link.url]);
      match e.fetch(link.url, |w.loaded|)
      case Loaded(text) =>
        if text != [] then
          w1.(chapters := w.chapters + [Chapter(novel, link.title, e.save(Content.CleanScraped(text)), 0)])
        else w1
      case Raised(_) => w1
  }

  /** The loop of lines 97-161 from the link at index i on. */
  function VisitAll(e: Env, w: World, novel: nat, links: seq<Link>, i: nat): World
    decreases |links| - i
  {
    if i >= |links| then w else VisitAll(e, Visit(e, w, novel, links[i]), novel, links, i + 1)
  }

  /** process_article (lines 53-168): the chapter list page failing to load, or listing no
      link, ends the article after the novel is saved. */
  function ProcessArticle(e: Env, w: World, a: Article, page: Option<seq<Link>>, now: int): World {
    var s := GetOrCreate(w, a, now);
    if page.None? || page.value == [] then s.world
    else VisitAll(e, s.world, s.novel, page.value, 0)
  }

  // ---------------------------------------------------------------------------------------
  // What a run does

  /** get_or_create: an existing novel changes only in updated_at; a new one is appended
      with author 未知, intro 暂无简介 and the article's url; nothing else changes. */
  lemma GetOrCreateFacts(w: World, a: Article, now: int)
    ensures var s := GetOrCreate(w, a, now);
      && s.novel < |s.world.novels| && s.world.novels[s.novel].title == a.title
      && s.world.chapters == w.chapters && s.world.loaded == w.loaded
      && (FindNovel(w.novels, a.title).Some? ==>
            && s.novel == FindNovel(w.novels, a.title).value
            && |s.world.novels| == |w.novels|
            && s.world.novels[s.novel] == w.novels[s.novel].(updatedAt := now)
            && forall m | 0 <= m < |w.novels| && m != s.novel :: s.world.novels[m] == w.novels[m])
      && (FindNovel(w.novels, a.title).None? ==>
            s.world.novels == w.novels + [Novel(a.title, Names.UnknownAuthor, NoIntro, a.url, now)])
  {
  }

  /** Lines 102-106: a title the novel already holds loads nothing and changes nothing. */
  lemma VisitSkipsStored(e: Env, w: World, novel: nat, link: Link)
    requires HasChapter(w.chapters, novel, link.title)
    ensures Visit(e, w, novel, link) == w
  {
  }

  /** Lines 108-157: a title the novel lacks loads its page once, and a chapter is added
      exactly when the load gave text, holding that text cleaned and saved. */
  lemma VisitFetches(e: Env, w: World, novel: nat, link: Link)
    requires !HasChapter(w.chapters, novel, link.title)
    ensures var w' := Visit(e, w, novel, link);
      && w'.novels == w.novels
      && w'.loaded == w.loaded + [link.url]
      && var f := e.fetch(link.url, |w.loaded|);
         && (f.Loaded? && f.text != [] ==>
               w'.chapters == w.chapters + [Chapter(novel, link.title, e.save(Content.CleanScraped(f.text)), 0)])
         && (f.Raised? || f.text == [] ==> w'.chapters == w.chapters)
  {
  }

  /** The loop leaves the novels alone, loads at most one page per link, and only appends
      chapters of the novel, each under a listed title that it did not hold before. */
  lemma {:induction false} VisitAllFacts(e: Env, w: World, novel: nat, links: seq<Link>, i: nat)
    ensures var w' := VisitAll(e, w, novel, links, i);
      && w'.novels == w.novels
      && |w.loaded| <= |w'.loaded| <= |w.loaded| + (if i < |links| then |links| - i else 0)
      && w'.loaded[..|w.loaded|] == w.loaded
      && |w.chapters| <= |w'.chapters|
      && w'.chapters[..|w.chapters|] == w.chapters
      && forall j | |w.chapters| <= j < |w'.chapters| ::
           && w'.chapters[j].novel == novel
           && !HasChapter(w.chapters, novel, w'.chapters[j].title)
           && exists k :: i <= k < |links| && w'.chapters[j].title == links[k].title
    decreases |links| - i
  {
    if i < |links| {
      var w1 := Visit(e, w, novel, links[i]);
      VisitAllFacts(e, w1, novel, links, i + 1);
      var w' := VisitAll(e, w, novel, links, i);
      assert w'.loaded[..|w1.loaded|] == w1.loaded;
      assert w1.loaded[..|w.loaded|] == w.loaded;
      assert w'.chapters[..|w1.chapters|] == w1.chapters;
      assert w1.chapters[..|w.chapters|] == w.chapters;
      forall j | |w.chapters| <= j < |w'.chapters|
        ensures && w'.chapters[j].novel == novel
                && !HasChapter(w.chapters, novel, w'.chapters[j].title)
                && exists k :: i <= k < |links| && w'.chapters[j].title == links[k].title
      {
        if j < |w1.chapters| {
          assert w'.chapters[j] == w1.chapters[j];
          assert w'.chapters[j].title == links[i].title;
        } else {
          Holds(w.chapters, w1.chapters, novel, w'.chapters[j].title);
        }
      }
    }
  }

  /** A title held before a step that only appends is still held after it. */
  lemma Holds(chs: seq<Chapter>, chs': seq<Chapter>, novel: nat, title: string)
    requires |chs| <= |chs'| && chs'[..|chs|] == chs
    requires !HasChapter(chs', novel, title)
    ensures !HasChapter(chs, novel, title)
  {
    forall i | 0 <= i < |chs| ensures !(chs[i].novel == novel && chs[i].title == title) {
      assert chs'[i] == chs[i];
    }
  }

  /** A re-run over a chapter list whose titles the novel already holds loads no page and
      creates no chapter. */
  lemma {:induction false} VisitAllStored(e: Env, w: World, novel: nat, links: seq<Link>, i: nat)
    requires forall k | i <= k < |links| :: HasChapter(w.chapters, novel, links[k].title)
    ensures VisitAll(e, w, novel, links, i) == w
    decreases |links| - i
  {
    if i < |links| {
      VisitAllStored(e, w, novel, links, i + 1);
    }
  }

  /** When every chapter page gives text, every listed title is held afterwards. */
  lemma {:induction false} VisitAllCovers(e: Env, w: World, novel: nat, links: seq<Link>, i: nat, k: nat)
    requires forall u, t :: e.fetch(u, t).Loaded? && e.fetch(u, t).text != []
    requires i <= k < |links|
    ensures HasChapter(VisitAll(e, w, novel, links, i).chapters, novel, links[k].title)
    decreases |links| - i
  {
    var w1 := Visit(e, w, novel, links[i]);
    VisitAllFacts(e, w1, novel, links, i + 1);
    if k == i {
      var w' := VisitAll(e, w, novel, links, i);
      if HasChapter(w.chapters, novel, links[i].title) {
        var j :| 0 <= j < |w.chapters| && w.chapters[j].novel == novel && w.chapters[j].title == links[i].title;
        assert w'.chapters[j] == w.chapters[j];
      } else {
        var f := e.fetch(links[i].url, |w.loaded|);
        assert w1.chapters[|w.chapters|].title == links[i].title;
        assert w'.chapters[|w.chapters|] == w1.chapters[|w.chapters|];
      }
    } else {
      VisitAllCovers(e, w1, novel, links, i + 1, k);
    }
  }

  /** Lines 85-95: with no chapter list, the article stores its novel and nothing else. */
  lemma ProcessArticleNoList(e: Env, w: World, a: Article, page: Option<seq<Link>>, now: int)
    requires page.None? || page.value == []
    ensures var w' := ProcessArticle(e, w, a, page, now);
      w'.chapters == w.chapters && w'.loaded == w.loaded && w'.novels == GetOrCreate(w, a, now).world.novels
  {
  }

  /** A scraped body is cleaned before the store's own clean_content: what is stored is the
      save of a text free of control characters and of runs of four line feeds. */
  lemma ProcessArticleCleans(e: Env, w: World, a: Article, links: seq<Link>, now: int, j: nat)
    requires var w' := ProcessArticle(e, w, a, Some(links), now); |w.chapters| <= j < |w'.chapters|
    ensures exists text :: && ProcessArticle(e, w, a, Some(links), now).chapters[j].content == e.save(Content.CleanScraped(text))
                           && text != []
  {
    var s := GetOrCreate(w, a, now);
    VisitAllContent(e, s.world, s.novel, links, 0, j);
  }

  lemma {:induction false} VisitAllContent(e: Env, w: World, novel: nat, links: seq<Link>, i: nat, j: nat)
    requires |w.chapters| <= j < |VisitAll(e, w, novel, links, i).chapters|
    ensures exists text :: VisitAll(e, w, novel, links, i).chapters[j].content == e.save(Content.CleanScraped(text)) && text != []
    decreases |links| - i
  {
    if i < |links| {
      var w1 := Visit(e, w, novel, links[i]);
      VisitAllFacts(e, w1, novel, links, i + 1);
      var w' := VisitAll(e, w, novel, links, i);
      if j < |w1.chapters| {
        assert w'.chapters[j] == w1.chapters[j];
        var text := e.fetch(links[i].url, |w.loaded|).text;
        assert w'.chapters[j].content == e.save(Content.CleanScraped(text));
      } else {
        VisitAllContent(e, w1, novel, links, i + 1, j);
      }
    }
  }

  // ---------------------------------------------------------------------------------------
  // The command

  /** One turn of lines 97-161. */
  method VisitChapter(db: Db, b: Browser, novel: nat, link: Link, ghost e: Env)
    requires db.Valid() && novel < |db.novels| && Serves(e, db.filterWords, b.fetch)
    modifies db, b
    ensures db.Valid() && db.filterWords == old(db.filterWords)
    ensures State(db, b) == Visit(e, old(State(db, b)), novel, link)
  {
    if exists i | 0 <= i < |db.chapters| :: db.chapters[i].novel == novel && db.chapters[i].title == link.title {
      return;
    }
    var f := b.Load(link.url);
    match f
    case Loaded(text) =>
      if text != [] {
        var content := Content.CleanScraped(text);
        var r := db.CreateChapter(novel, link.title, content, 0);
      }
    case Raised(_) =>
  }

  /** The loop of lines 97-161. */
  method VisitChapters(db: Db, b: Browser, novel: nat, links: seq<Link>, ghost e: Env)
    requires db.Valid() && novel < |db.novels| && Serves(e, db.filterWords, b.fetch)
    modifies db, b
    ensures db.Valid() && db.filterWords == old(db.filterWords)
    ensures State(db, b) == VisitAll(e, old(State(db, b)), novel, links, 0)
  {
    var i := 0;
    while i < |links|
      invariant i <= |links|
      invariant db.Valid() && db.filterWords == old(db.filterWords)
      invariant db.novels == old(db.novels)
      invariant VisitAll(e, old(State(db, b)), novel, links, 0) == VisitAll(e, State(db, b), novel, links, i)
    {
      VisitChapter(db, b, novel, links[i], e);
      i := i + 1;
    }
  }

  /** Lines 60-78. */
  method SaveNovel(db: Db, b: Browser, a: Article, now: int) returns (novel: nat)
    requires db.Valid()
    modifies db
    ensures db.Valid() && db.filterWords == old(db.filterWords)
    ensures var s := GetOrCreate(old(State(db, b)), a, now); novel == s.novel && State(db, b) == s.world
    ensures novel < |db.novels|
  {
    var found := FindNovel(db.novels, a.title);
    if found.Some? {
      novel := found.value;
      db.Touch(novel, now);
    } else {
      var r := db.CreateNovel(a.title, Names.UnknownAuthor, NoIntro, a.url, now);
      novel := |db.novels| - 1;
    }
  }

  /** process_article (lines 53-168). */
  method Process(db: Db, b: Browser, a: Article, page: Option<seq<Link>>, now: int)
    requires db.Valid()
    modifies db, b
    ensures db.Valid() && db.filterWords == old(db.filterWords)
    ensures State(db, b) == ProcessArticle(EnvFor(old(db.filterWords), b.fetch), old(State(db, b)), a, page, now)
  {
    ghost var e := EnvFor(db.filterWords, b.fetch);
    ServesEnvFor(db.filterWords, b.fetch);
    var novel := SaveNovel(db, b, a, now);
    if page.None? || page.value == [] {
      return;
    }
    VisitChapters(db, b, novel, page.value, e);
  }
}

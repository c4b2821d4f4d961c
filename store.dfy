/** The two tables of the `novels` application (novels/models.py) as one in-memory store:
    novels with unique titles, chapters unique per (novel, title), and the filter words that
    every chapter save applies through clean_content. Row ids are positions: a novel's id is
    its index in `novels`, a chapter's id its index in `chapters`; nothing is deleted, so ids
    grow with creation as the database's auto-increment keys do. */
module Store {
  import opened Wrappers
  import opened Strings
  import opened Sorting
  import Content

  datatype Novel = Novel(title: string, author: string, intro: string, sourceUrl: string,
                         updatedAt: int)

  datatype Chapter = Chapter(novel: nat, title: string, content: string, order: int)

  /** The database refusals the model raises: the unique title of a novel, and the unique
      (novel, title) pair of a chapter. */
  datatype DbError = DuplicateNovel | DuplicateChapter

  /** A body as Chapter.save leaves it: no carriage return, and either empty or made of
      paragraph lines. */
  predicate Cleaned(body: string) {
    '\r' !in body && (body == [] || forall l | l in Split(body, '\n') :: Content.ParagraphLine(l))
  }

  /** The body a save stores: clean_content under the current filter words. */
  function Stored(content: string, words: seq<string>): string {
    Content.CleanText(content, words)
  }

  /** Whatever is saved, the stored body is a cleaned one. */
  lemma StoredCleaned(content: string, words: seq<string>)
    ensures Cleaned(Stored(content, words))
  {
    Content.CleanTextShape(content, words);
  }

  /** Some chapter of `novel` is titled `title`. */
  predicate HasChapter(chs: seq<Chapter>, novel: nat, title: string) {
    exists i | 0 <= i < |chs| :: chs[i].novel == novel && chs[i].title == title
  }

  /** The id of the novel titled `title`, if there is one. */
  function FindNovel(ns: seq<Novel>, title: string): (r: Option<nat>)
    ensures r.Some? ==> r.value < |ns| && ns[r.value].title == title
    ensures r.None? ==> forall i | 0 <= i < |ns| :: ns[i].title != title
  {
    if ns == [] then None
    else if ns[|ns| - 1].title == title then Some(|ns| - 1)
    else FindNovel(ns[..|ns| - 1], title)
  }

  /** The ids of the chapters of `novel`, by increasing id. */
  function ChapterIds(chs: seq<Chapter>, novel: nat): (ids: seq<nat>)
    ensures forall k | 0 <= k < |ids| :: ids[k] < |chs| && chs[ids[k]].novel == novel
    ensures forall i | 0 <= i < |chs| && chs[i].novel == novel :: i in ids
    ensures forall k, m | 0 <= k < m < |ids| :: ids[k] < ids[m]
  {
    if chs == [] then []
    else
      var init := chs[..|chs| - 1];
      var ids := ChapterIds(init, novel);
      if chs[|chs| - 1].novel == novel then ids + [|chs| - 1] else ids
  }

  /** The ids of the chapters `sel` keeps, by increasing id. */
  function IdsWhere(chs: seq<Chapter>, sel: nat -> bool): (ids: seq<nat>)
    ensures forall k | 0 <= k < |ids| :: ids[k] < |chs| && sel(ids[k])
    ensures forall i | 0 <= i < |chs| && sel(i) :: i in ids
    ensures forall k, m | 0 <= k < m < |ids| :: ids[k] < ids[m]
  {
    if chs == [] then []
    else
      var ids := IdsWhere(chs[..|chs| - 1], sel);
      if sel(|chs| - 1) then ids + [|chs| - 1] else ids
  }

  /** The chapter count of a novel (novel.chapters.count()). */
  function CountOf(chs: seq<Chapter>, novel: nat): nat {
    |ChapterIds(chs, novel)|
  }

  /** The titles of all chapters, indexed by id. */
  function TitlesOf(chs: seq<Chapter>): (ts: seq<string>)
    ensures |ts| == |chs| && forall i | 0 <= i < |chs| :: ts[i] == chs[i].title
  {
    seq(|chs|, i requires 0 <= i < |chs| => chs[i].title)
  }

  /** The orders of all chapters, indexed by id. */
  function OrdersOf(chs: seq<Chapter>): (os: seq<int>)
    ensures |os| == |chs| && forall i | 0 <= i < |chs| :: os[i] == chs[i].order
  {
    seq(|chs|, i requires 0 <= i < |chs| => chs[i].order)
  }

  /** Chapter.Meta.ordering = ['order', 'id'] as a sort key on ids. */
  function ListingKey(orders: seq<int>): nat -> Key {
    (id: nat) => Key(if id < |orders| then orders[id] else 0, id)
  }

  /** A novel's chapters as every default query lists them: by (order, id). */
  function Listing(chs: seq<Chapter>, novel: nat): (l: seq<nat>)
    ensures forall k | 0 <= k < |l| :: l[k] < |chs| && chs[l[k]].novel == novel
  {
    SortPreserves(ChapterIds(chs, novel), ListingKey(OrdersOf(chs)), OfNovel(chs, novel));
    Sort(ChapterIds(chs, novel), ListingKey(OrdersOf(chs)))
  }

  /** The id names a chapter of `novel`. */
  function OfNovel(chs: seq<Chapter>, novel: nat): nat -> bool {
    (id: nat) => id < |chs| && chs[id].novel == novel
  }

  /** A query over the chapters `sel` keeps, listed by (order, id) as Chapter.Meta.ordering
      makes every query list them. */
  function Query(chs: seq<Chapter>, sel: nat -> bool): seq<nat> {
    Sort(IdsWhere(chs, sel), ListingKey(OrdersOf(chs)))
  }

  /** The query lists each chapter `sel` keeps exactly once, by ascending (order, id). */
  lemma QueryFacts(chs: seq<Chapter>, sel: nat -> bool)
    ensures var l := Query(chs, sel);
      && StrictlySortedBy(l, ListingKey(OrdersOf(chs)))
      && NoRepeats(l)
      && (forall k | 0 <= k < |l| :: l[k] < |chs| && sel(l[k]))
      && (forall i | 0 <= i < |chs| && sel(i) :: i in l)
  {
    var ids := IdsWhere(chs, sel);
    var key := ListingKey(OrdersOf(chs));
    SortFacts(ids, key);
    var l := Sort(ids, key);
    forall k | 0 <= k < |l| ensures l[k] < |chs| && sel(l[k]) {
      assert l[k] in multiset(ids);
    }
    forall i | 0 <= i < |chs| && sel(i) ensures i in l {
      assert i in multiset(l);
    }
    NoRepeatsPerm(l, ids);
    forall k, m | 0 <= k < m < |l| ensures KeyLess(key(l[k]), key(l[m])) {
      assert KeyLessEq(key(l[k]), key(l[m]));
    }
  }

  /** The listing holds each chapter of the novel exactly once, by ascending (order, id). */
  lemma ListingFacts(chs: seq<Chapter>, novel: nat)
    ensures var l := Listing(chs, novel);
      && multiset(l) == multiset(ChapterIds(chs, novel))
      && StrictlySortedBy(l, ListingKey(OrdersOf(chs)))
      && NoRepeats(l)
      && (forall k | 0 <= k < |l| :: l[k] < |chs| && chs[l[k]].novel == novel)
      && (forall i | 0 <= i < |chs| && chs[i].novel == novel :: i in l)
  {
    var ids := ChapterIds(chs, novel);
    var key := ListingKey(OrdersOf(chs));
    SortFacts(ids, key);
    var l := Sort(ids, key);
    forall k | 0 <= k < |l| ensures l[k] < |chs| && chs[l[k]].novel == novel {
      assert l[k] in multiset(ids);
    }
    forall i | 0 <= i < |chs| && chs[i].novel == novel ensures i in l {
      assert i in multiset(l);
    }
    NoRepeatsPerm(l, ids);
    forall k, m | 0 <= k < m < |l| ensures KeyLess(key(l[k]), key(l[m])) {
      assert KeyLessEq(key(l[k]), key(l[m]));
    }
  }

  /** Every chapter belongs to a stored novel, novel titles are unique, (novel, title) is
      unique among chapters (Chapter.Meta.unique_together), and every body was cleaned by
      a save. */
  ghost predicate Consistent(ns: seq<Novel>, chs: seq<Chapter>) {
    && (forall i | 0 <= i < |chs| :: chs[i].novel < |ns|)
    && (forall i, j | 0 <= i < j < |ns| :: ns[i].title != ns[j].title)
    && (forall i, j | 0 <= i < j < |chs| && chs[i].novel == chs[j].novel ::
          chs[i].title != chs[j].title)
    && (forall i | 0 <= i < |chs| :: Cleaned(chs[i].content))
  }

  /** A new chapter of a stored novel, with a title the novel does not hold yet and a
      cleaned body, keeps the tables consistent. */
  lemma ConsistentAppend(ns: seq<Novel>, chs: seq<Chapter>, c: Chapter)
    requires Consistent(ns, chs) && c.novel < |ns| && !HasChapter(chs, c.novel, c.title)
    requires Cleaned(c.content)
    ensures Consistent(ns, chs + [c])
  {
    var chs' := chs + [c];
    forall i, j | 0 <= i < j < |chs'| && chs'[i].novel == chs'[j].novel
      ensures chs'[i].title != chs'[j].title
    {
      if j == |chs| {
        assert chs[i].novel == c.novel;
      }
    }
  }

  /** The database, with the filter words ordered as FilterWord.objects lists them. */
  class Db {
    var novels: seq<Novel>
    var chapters: seq<Chapter>
    var filterWords: seq<string>

    /** The tables are consistent. */
    ghost predicate Valid()
      reads this
    {
      Consistent(novels, chapters)
    }

    constructor (words: seq<string>)
      ensures Valid()
      ensures novels == [] && chapters == [] && filterWords == words
    {
      novels := [];
      chapters := [];
      filterWords := words;
    }

    /** Novel.objects.create: refused when the title is taken. */
    method CreateNovel(title: string, author: string, intro: string, url: string, now: int)
      returns (r: Result<nat, DbError>)
      requires Valid()
      modifies this
      ensures Valid()
      ensures chapters == old(chapters) && filterWords == old(filterWords)
      ensures FindNovel(old(novels), title).Some? ==> r == Err(DuplicateNovel) && novels == old(novels)
      ensures FindNovel(old(novels), title).None? ==>
        r == Ok(|old(novels)|) && novels == old(novels) + [Novel(title, author, intro, url, now)]
    {
      if FindNovel(novels, title).Some? {
        return Err(DuplicateNovel);
      }
      novels := novels + [Novel(title, author, intro, url, now)];
      r := Ok(|novels| - 1);
    }

    /** Novel.save after setting the intro (updated_at is auto_now). */
    method SetIntro(novel: nat, intro: string, now: int)
      requires Valid() && novel < |novels|
      modifies this
      ensures Valid()
      ensures chapters == old(chapters) && filterWords == old(filterWords)
      ensures novels == old(novels)[novel := old(novels)[novel].(intro := intro, updatedAt := now)]
    {
      novels := novels[novel := novels[novel].(intro := intro, updatedAt := now)];
    }

    /** Novel.save with only updated_at moved on. */
    method Touch(novel: nat, now: int)
      requires Valid() && novel < |novels|
      modifies this
      ensures Valid()
      ensures chapters == old(chapters) && filterWords == old(filterWords)
      ensures novels == old(novels)[novel := old(novels)[novel].(updatedAt := now)]
    {
      novels := novels[novel := novels[novel].(updatedAt := now)];
    }

    /** Chapter.objects.create: Chapter.save stores the cleaned body; the (novel, title)
        constraint refuses a second chapter of the same title. */
    method CreateChapter(novel: nat, title: string, content: string, order: int)
      returns (r: Result<nat, DbError>)
      requires Valid() && novel < |novels|
      modifies this
      ensures Valid()
      ensures novels == old(novels) && filterWords == old(filterWords)
      ensures HasChapter(old(chapters), novel, title) ==>
        r == Err(DuplicateChapter) && chapters == old(chapters)
      ensures !HasChapter(old(chapters), novel, title) ==>
        && r == Ok(|old(chapters)|)
        && chapters == old(chapters) + [Chapter(novel, title, Stored(content, filterWords), order)]
    {
      if exists i | 0 <= i < |chapters| :: chapters[i].novel == novel && chapters[i].title == title {
        return Err(DuplicateChapter);
      }
      StoredCleaned(content, filterWords);
      ConsistentAppend(novels, chapters, Chapter(novel, title, Stored(content, filterWords), order));
      chapters := chapters + [Chapter(novel, title, Stored(content, filterWords), order)];
      r := Ok(|chapters| - 1);
    }

    /** chapter.save(update_fields=['order']): only the order column is written. */
    method SaveOrder(id: nat, order: int)
      requires Valid() && id < |chapters|
      modifies this
      ensures Valid()
      ensures novels == old(novels) && filterWords == old(filterWords)
      ensures chapters == old(chapters)[id := old(chapters)[id].(order := order)]
    {
      chapters := chapters[id := chapters[id].(order := order)];
    }

    /** chapter.save() on a chapter whose title is as loaded: the body is cleaned and
        written, and the chapter's own title never collides. */
    method SaveContent(id: nat, content: string)
      requires Valid() && id < |chapters|
      modifies this
      ensures Valid()
      ensures novels == old(novels) && filterWords == old(filterWords)
      ensures chapters == old(chapters)[id := old(chapters)[id].(content := Stored(content, filterWords))]
    {
      StoredCleaned(content, filterWords);
      chapters := chapters[id := chapters[id].(content := Stored(content, filterWords))];
    }

    /** chapter.save(update_fields=['title']): only the title column is written; another
        chapter of the novel with that title makes the constraint refuse it. */
    method SaveTitle(id: nat, title: string) returns (r: Result<(), DbError>)
      requires Valid() && id < |chapters|
      modifies this
      ensures Valid()
      ensures novels == old(novels) && filterWords == old(filterWords)
      ensures TitleTaken(old(chapters), id, title) ==> r.Err? && chapters == old(chapters)
      ensures !TitleTaken(old(chapters), id, title) ==>
        r.Ok? && chapters == old(chapters)[id := old(chapters)[id].(title := title)]
    {
      if TitleTaken(chapters, id, title) {
        return Err(DuplicateChapter);
      }
      chapters := chapters[id := chapters[id].(title := title)];
      r := Ok(());
    }

    /** chapter.save(): title and a freshly cleaned body are written together, under the
        same (novel, title) constraint. */
    method SaveChapter(id: nat, title: string, content: string) returns (r: Result<(), DbError>)
      requires Valid() && id < |chapters|
      modifies this
      ensures Valid()
      ensures novels == old(novels) && filterWords == old(filterWords)
      ensures TitleTaken(old(chapters), id, title) ==> r.Err? && chapters == old(chapters)
      ensures !TitleTaken(old(chapters), id, title) ==>
        && r.Ok?
        && chapters == old(chapters)[id := old(chapters)[id].(title := title,
                                                               content := Stored(content, filterWords))]
    {
      if TitleTaken(chapters, id, title) {
        return Err(DuplicateChapter);
      }
      StoredCleaned(content, filterWords);
      chapters := chapters[id := chapters[id].(title := title, content := Stored(content, filterWords))];
      r := Ok(());
    }
  }

  /** Another chapter of the same novel already carries `title`. */
  predicate TitleTaken(chs: seq<Chapter>, id: nat, title: string)
    requires id < |chs|
  {
    exists j | 0 <= j < |chs| :: j != id && chs[j].novel == chs[id].novel && chs[j].title == title
  }

  /** A chapter created into a store holding none of that title is found under it
      afterwards, and the store then refuses a second one. */
  lemma CreatedIsFound(chs: seq<Chapter>, c: Chapter)
    ensures HasChapter(chs + [c], c.novel, c.title)
    ensures forall n, t | HasChapter(chs, n, t) :: HasChapter(chs + [c], n, t)
  {
    assert (chs + [c])[|chs|] == c;
    forall n, t | HasChapter(chs, n, t) ensures HasChapter(chs + [c], n, t) {
      var i :| 0 <= i < |chs| && chs[i].novel == n && chs[i].title == t;
      assert (chs + [c])[i] == chs[i];
    }
  }
}

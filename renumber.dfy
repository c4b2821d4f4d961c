/** The order-update command (update_chapter_order.py): every chapter's order becomes the
    number extract_chapter_number reads from its title; only differing orders are written,
    with the order column alone, and counted. */
module Renumber {
  import opened Wrappers
  import opened Sorting
  import opened Titles
  import opened Store
  import opened Batch

  /** update_chapter_order.py:35-38 for one chapter. */
  function RenumberStep(c: Chapter): Option<Chapter> {
    var n := ChapterNumber(c.title);
    if c.order != n then Some(c.(order := n)) else None
  }

  /** The store after the pass over every chapter. */
  function Renumbered(chs: seq<Chapter>): seq<Chapter> {
    UpdateIn(chs, Ids(chs), RenumberStep)
  }

  /** After the pass every chapter's order is the number in its title, nothing but orders
      has changed, and a chapter is written exactly when its order differed. */
  lemma RenumberedFacts(chs: seq<Chapter>)
    ensures var r := Renumbered(chs);
      && |r| == |chs|
      && (forall x | 0 <= x < |r| :: r[x].order == ChapterNumber(r[x].title))
      && (forall x | 0 <= x < |r| :: r[x] == chs[x].(order := r[x].order))
      && (forall x | 0 <= x < |r| :: RenumberStep(chs[x]).Some? <==> r[x] != chs[x])
  {
    var r := Renumbered(chs);
    forall x | 0 <= x < |r|
      ensures r[x].order == ChapterNumber(r[x].title) && r[x] == chs[x].(order := r[x].order)
      ensures RenumberStep(chs[x]).Some? <==> r[x] != chs[x]
    {
      assert x in Ids(chs);
    }
  }

  /** update_chapter_order.py:34-39 — a second run changes nothing and writes nothing. */
  lemma RenumberIdempotent(chs: seq<Chapter>)
    ensures Renumbered(Renumbered(chs)) == Renumbered(chs)
    ensures CountWrites(Renumbered(chs), RenumberStep, |chs|) == 0
  {
    var r := Renumbered(chs);
    RenumberedFacts(chs);
    var rr := Renumbered(r);
    forall x | 0 <= x < |r| ensures rr[x] == r[x] {
      assert x in Ids(r);
    }
    NoWrites(r, |r|);
  }

  /** A store whose orders all match their titles has nothing to write. */
  lemma {:induction false} NoWrites(chs: seq<Chapter>, k: nat)
    requires k <= |chs|
    requires forall x | 0 <= x < |chs| :: chs[x].order == ChapterNumber(chs[x].title)
    ensures CountWrites(chs, RenumberStep, k) == 0
  {
    if k > 0 {
      NoWrites(chs, k - 1);
    }
  }

  /** update_chapter_order.py:31-39 for one novel: the chapters listed by (order, id),
      each given the number in its title when that differs from its order. */
  method UpdateNovelOrders(db: Db, novel: nat) returns (updated: nat)
    requires db.Valid()
    modifies db
    ensures db.Valid()
    ensures db.novels == old(db.novels) && db.filterWords == old(db.filterWords)
    ensures db.chapters == UpdateIn(old(db.chapters), NovelIds(old(db.chapters), novel), RenumberStep)
    ensures updated == NovelWrites(old(db.chapters), RenumberStep, novel, |old(db.chapters)|)
  {
    var chapters := Listing(db.chapters, novel);
    ListingFacts(db.chapters, novel);
    ListingDone(db.chapters, RenumberStep, novel);
    ghost var start := db.chapters;
    updated := 0;
    var j := 0;
    while j < |chapters|
      invariant 0 <= j <= |chapters|
      invariant db.Valid()
      invariant db.novels == old(db.novels) && db.filterWords == old(db.filterWords)
      invariant db.chapters == UpdateIn(start, Prefix(chapters, j), RenumberStep)
      invariant updated == CountWritten(start, RenumberStep, chapters, j)
    {
      updated := RenumberNext(db, start, chapters, j, updated);
      j := j + 1;
    }
  }

  /** One turn of the loop over a novel's listing: the chapter at position j is handled. */
  method RenumberNext(db: Db, ghost start: seq<Chapter>, chapters: seq<nat>, j: nat, updated: nat)
    returns (updated': nat)
    requires db.Valid() && j < |chapters|
    requires NoRepeats(chapters) && forall k | 0 <= k < |chapters| :: chapters[k] < |start|
    requires db.chapters == UpdateIn(start, Prefix(chapters, j), RenumberStep)
    requires updated == CountWritten(start, RenumberStep, chapters, j)
    modifies db
    ensures db.Valid()
    ensures db.novels == old(db.novels) && db.filterWords == old(db.filterWords)
    ensures db.chapters == UpdateIn(start, Prefix(chapters, j + 1), RenumberStep)
    ensures updated' == CountWritten(start, RenumberStep, chapters, j + 1)
  {
    var id := chapters[j];
    PrefixFresh(chapters, j);
    UpdateStep(start, Prefix(chapters, j), RenumberStep, id);
    var wrote := RenumberChapter(db, id);
    updated' := if wrote then updated + 1 else updated;
  }

  /** update_chapter_order.py:35-38 on the store: the chapter's order is set to the number
      in its title, and written, when the two differ. */
  method RenumberChapter(db: Db, id: nat) returns (wrote: bool)
    requires db.Valid() && id < |db.chapters|
    modifies db
    ensures db.Valid()
    ensures db.novels == old(db.novels) && db.filterWords == old(db.filterWords)
    ensures db.chapters == old(db.chapters)[id := Apply(old(db.chapters)[id], RenumberStep)]
    ensures wrote <==> RenumberStep(old(db.chapters)[id]).Some?
  {
    var order := ChapterNumber(db.chapters[id].title);
    wrote := db.chapters[id].order != order;
    if wrote {
      db.SaveOrder(id, order);
    } else {
      assert db.chapters[id := db.chapters[id]] == db.chapters;
    }
  }

  /** update_chapter_order.py:22-41: every novel in turn; the total is the number of
      chapters whose order differed from the number in their title. */
  method UpdateChapterOrder(db: Db) returns (total: nat)
    requires db.Valid()
    modifies db
    ensures db.Valid()
    ensures db.novels == old(db.novels) && db.filterWords == old(db.filterWords)
    ensures db.chapters == Renumbered(old(db.chapters))
    ensures total == CountWrites(old(db.chapters), RenumberStep, |old(db.chapters)|)
  {
    ghost var start := db.chapters;
    AllDone(start, RenumberStep, |db.novels|);
    total := 0;
    var n := 0;
    while n < |db.novels|
      invariant 0 <= n <= |db.novels|
      invariant db.Valid()
      invariant db.novels == old(db.novels) && db.filterWords == old(db.filterWords)
      invariant db.chapters == UpdateIn(start, NovelsBelow(start, n), RenumberStep)
      invariant total == SumWrites(start, RenumberStep, n)
    {
      total := UpdateNextNovel(db, start, n, total);
      n := n + 1;
    }
  }

  /** One turn of the loop over novels: novel n's chapters join those already handled. */
  method UpdateNextNovel(db: Db, ghost start: seq<Chapter>, n: nat, total: nat) returns (total': nat)
    requires db.Valid()
    requires db.chapters == UpdateIn(start, NovelsBelow(start, n), RenumberStep)
    requires total == SumWrites(start, RenumberStep, n)
    modifies db
    ensures db.Valid()
    ensures db.novels == old(db.novels) && db.filterWords == old(db.filterWords)
    ensures db.chapters == UpdateIn(start, NovelsBelow(start, n + 1), RenumberStep)
    ensures total' == SumWrites(start, RenumberStep, n + 1)
  {
    ghost var done := NovelsBelow(start, n);
    NovelIdsKept(start, done, RenumberStep, n);
    NovelsBelowApart(start, n);
    UpdateCompose(start, done, NovelIds(start, n), RenumberStep);
    NovelWritesKept(start, done, RenumberStep, n, |start|);
    var updated := UpdateNovelOrders(db, n);
    total' := total + updated;
  }
}

/** The xqbj crawler's bookkeeping (crawl_xqbj.py): which listed chapters a run fetches, the
    three attempts per chapter, the failure ledger, the completeness pass that fills the gaps
    of a novel, and the replay of the ledger. The browser is an oracle: the page load numbered
    t of the run, for a url, gives `fetch(url, t)`; the failure directory is a map from the
    ledger's file stem to its records. */
module Xqbj {
  import opened Wrappers
  import opened Strings
  import opened Sorting
  import opened Store
  import opened Titles
  import Retitle
  import Names
  import Reorder

  /** What loading a chapter page gives: the text the page script returns (empty when the
      page has no body or no paragraph), or the message of an exception. */
  datatype Fetch = Loaded(text: string) | Raised(message: string)

  /** A chapter dict as the crawler passes it around: {title, url} from the listing, plus
      the 'order' key the completeness pass sets. */
  datatype Record = Record(title: string, url: string, order: Option<int>)

  /** The listing entry of a novel: title, url and intro text. */
  datatype NovelInfo = NovelInfo(title: string, url: string, intro: string)

  /** Everything a run changes: the two tables, the failure ledger (file stem to records)
      and the number of chapter pages loaded so far. */
  datatype World = World(novels: seq<Novel>, chapters: seq<Chapter>,
                         ledger: map<string, seq<Record>>, loads: nat)

  /** What a run does not change: the body Chapter.save stores for a text (Stored under the
      filter words), the title cleaner (CleanTitle, clean_chapter_title), the network, and
      the text of the exception the database raises for a duplicate (novel, title). */
  datatype Env = Env(save: string -> string, clean: string -> string,
                     fetch: (string, nat) -> Fetch, duplicateMessage: string)

  const UniquePhrase: string := "UNIQUE constraint failed"
  const UniqueColumns: string := "novels_chapter.novel_id, novels_chapter.title"

  /** The test of lines 447-449: the message names the (novel_id, title) unique constraint. */
  predicate UniqueViolation(message: string) {
    Contains(message, UniquePhrase) && Contains(message, UniqueColumns)
  }

  /** A message made of the phrase, anything, then the two columns passes the test, as the
      text SQLite gives for the constraint does. */
  lemma UniqueViolationRecognised(between: string, after: string)
    ensures UniqueViolation(UniquePhrase + between + UniqueColumns + after)
  {
    var m := UniquePhrase + between + UniqueColumns + after;
    assert m[0..|UniquePhrase|] == UniquePhrase;
    ContainsAt(m, UniquePhrase, 0);
    var i := |UniquePhrase + between|;
    assert m[i..i + |UniqueColumns|] == UniqueColumns;
    ContainsAt(m, UniqueColumns, i);
  }

  // ---------------------------------------------------------------------------------------
  // process_chapter (lines 377-461)

  /** How one attempt ends: the chapter is written (break), the call returns True, or the
      attempt counts as a failure (retry_count += 1). */
  datatype Attempt = Wrote | Accepted | Retry

  /** One attempt, given whether the title to be inserted is already taken: non-empty text is
      inserted, and a refused insert or an exception is accepted only when its message names
      the unique constraint. */
  function AttemptOf(f: Fetch, taken: bool, duplicateMessage: string): Attempt {
    match f
    case Loaded(text) =>
      if text == [] then Retry
      else if !taken then Wrote
      else if UniqueViolation(duplicateMessage) then Accepted
      else Retry
    case Raised(message) => if UniqueViolation(message) then Accepted else Retry
  }

  /** Only non-empty text is written, and only under a free title. */
  lemma WroteFacts(f: Fetch, taken: bool, duplicateMessage: string)
    requires AttemptOf(f, taken, duplicateMessage) == Wrote
    ensures f.Loaded? && f.text != [] && !taken
  {
  }

  /** Attempt number k of a chapter whose first load is load t. */
  function Try(e: Env, url: string, t: nat, taken: bool, k: nat): Attempt {
    AttemptOf(e.fetch(url, t + k), taken, e.duplicateMessage)
  }

  /** The first attempt from a on, below 3, that does not count as a failure. */
  function FirstSettled(e: Env, url: string, t: nat, taken: bool, a: nat): Option<nat>
    decreases 3 - a
  {
    if a >= 3 then None
    else if Try(e, url, t, taken, a) != Retry then Some(a)
    else FirstSettled(e, url, t, taken, a + 1)
  }

  lemma {:induction false} FirstSettledFacts(e: Env, url: string, t: nat, taken: bool, a: nat)
    requires a <= 3
    ensures var r := FirstSettled(e, url, t, taken, a);
      && (r.None? <==> forall k | a <= k < 3 :: Try(e, url, t, taken, k) == Retry)
      && (r.Some? ==> a <= r.value < 3 && Try(e, url, t, taken, r.value) != Retry
                      && forall k | a <= k < r.value :: Try(e, url, t, taken, k) == Retry)
    decreases 3 - a
  {
    if a < 3 && Try(e, url, t, taken, a) == Retry {
      FirstSettledFacts(e, url, t, taken, a + 1);
    }
  }

  /** The order a new chapter gets: chapter_info['order'] when set, else the number in the
      (already cleaned) title (line 423). */
  function OrderFor(info: Record): int {
    if info.order.Some? then info.order.value else ChapterNumber(info.title)
  }

  /** What process_chapter returns, the state it leaves, and the chapter dict afterwards
      (its title is replaced by the cleaned one once the existence check has passed). */
  datatype ChapterRun = ChapterRun(ok: bool, world: World, info: Record)

  /** The state after an attempt that ends the loop: k + 1 pages loaded and, when the
      attempt wrote, the new chapter appended. */
  function Settled(e: Env, w: World, novel: nat, info': Record, title: string, k: nat, a: Attempt): World {
    var f := e.fetch(info'.url, w.loads + k);
    var w' := w.(loads := w.loads + k + 1);
    if a == Wrote && f.Loaded? then
      w'.(chapters := w.chapters + [Chapter(novel, title, e.save(f.text), OrderFor(info'))])
    else w'
  }

  /** process_chapter, with `clean` the title the first clean_chapter_title gives (line 383),
      `title` the one the second gives (line 426), and whether each is already stored. */
  function RunCore(e: Env, w: World, novel: nat, info: Record, clean: string, title: string,
                   present: bool, taken: bool): ChapterRun
  {
    if present then ChapterRun(true, w, info)
    else
      var info' := info.(title := clean);
      match FirstSettled(e, info.url, w.loads, taken, 0)
      case None => ChapterRun(false, w.(loads := w.loads + 3), info')
      case Some(k) => ChapterRun(true, Settled(e, w, novel, info', title, k, Try(e, info.url, w.loads, taken, k)), info')
  }

  function RunChapter(e: Env, w: World, novel: nat, info: Record): ChapterRun {
    var clean := e.clean(info.title);
    var title := e.clean(clean);
    RunCore(e, w, novel, info, clean, title, HasChapter(w.chapters, novel, clean), HasChapter(w.chapters, novel, title))
  }

  /** When attempts before k all failed, the run from w ends at attempt k or, with k = 3,
      fails having loaded three pages. */
  lemma RunCoreSettles(e: Env, w: World, novel: nat, info: Record, clean: string, title: string,
                       taken: bool, k: nat)
    requires k <= 3 && FirstSettled(e, info.url, w.loads, taken, 0) == FirstSettled(e, info.url, w.loads, taken, k)
    requires k < 3 ==> Try(e, info.url, w.loads, taken, k) != Retry
    ensures var info' := info.(title := clean);
      RunCore(e, w, novel, info, clean, title, false, taken) ==
        if k < 3 then ChapterRun(true, Settled(e, w, novel, info', title, k, Try(e, info.url, w.loads, taken, k)), info')
        else ChapterRun(false, w.(loads := w.loads + 3), info')
  {
  }

  /** A loop turn that settles ends process_chapter with the state that turn left. */
  lemma RetryEnds(e: Env, w: World, novel: nat, info: Record, clean: string, title: string,
                  taken: bool, k: nat, a: Attempt)
    requires k < 3 && FirstSettled(e, info.url, w.loads, taken, 0) == FirstSettled(e, info.url, w.loads, taken, k)
    requires a == Try(e, info.url, w.loads + k, taken, 0) && a != Retry
    ensures var info' := info.(title := clean);
      RunCore(e, w, novel, info, clean, title, false, taken)
        == ChapterRun(true, Settled(e, w.(loads := w.loads + k), novel, info', title, 0, a), info')
  {
    TryShift(e, info.url, w.loads, taken, k);
    SettledShift(e, w, novel, info.(title := clean), title, k, a);
    RunCoreSettles(e, w, novel, info, clean, title, taken, k);
  }

  /** A loop turn that counts as a failure moves the first settling attempt past it. */
  lemma RetrySkips(e: Env, url: string, t: nat, taken: bool, k: nat)
    requires k < 3 && FirstSettled(e, url, t, taken, 0) == FirstSettled(e, url, t, taken, k)
    requires Try(e, url, t + k, taken, 0) == Retry
    ensures FirstSettled(e, url, t, taken, 0) == FirstSettled(e, url, t, taken, k + 1)
  {
    TryShift(e, url, t, taken, k);
  }

  /** Attempt k of a chapter whose first load is load t is attempt 0 from load t + k. */
  lemma TryShift(e: Env, url: string, t: nat, taken: bool, k: nat)
    ensures Try(e, url, t + k, taken, 0) == Try(e, url, t, taken, k)
  {
    assert t + k + 0 == t + k;
  }

  /** Settling at attempt k of a run from w is settling at attempt 0 of a run whose first
      load is w's load k. */
  lemma SettledShift(e: Env, w: World, novel: nat, info': Record, title: string, k: nat, a: Attempt)
    ensures Settled(e, w.(loads := w.loads + k), novel, info', title, 0, a) == Settled(e, w, novel, info', title, k, a)
  {
  }

  /** No two chapters of a novel share a title (Chapter.Meta.unique_together). */
  predicate DistinctTitles(chs: seq<Chapter>) {
    forall i, j | 0 <= i < j < |chs| && chs[i].novel == chs[j].novel :: chs[i].title != chs[j].title
  }

  lemma RunCoreAttempts(e: Env, w: World, novel: nat, info: Record, clean: string, title: string,
                        present: bool, taken: bool)
    ensures var r := RunCore(e, w, novel, info, clean, title, present, taken);
      && r.world.novels == w.novels && r.world.ledger == w.ledger
      && w.loads <= r.world.loads <= w.loads + 3
      && (present ==> r.ok && r.world == w && r.info == info)
      && (!present ==> r.info == info.(title := clean) && r.world.loads > w.loads)
      && (!r.ok <==> !present && forall k | 0 <= k < 3 :: Try(e, info.url, w.loads, taken, k) == Retry)
      && (!r.ok ==> r.world.loads == w.loads + 3 && r.world.chapters == w.chapters)
  {
    FirstSettledFacts(e, info.url, w.loads, taken, 0);
  }

  lemma RunCoreWrites(e: Env, w: World, novel: nat, info: Record, clean: string, title: string,
                      present: bool, taken: bool)
    ensures var r := RunCore(e, w, novel, info, clean, title, present, taken);
      r.world.chapters == w.chapters ||
      (&& !taken
       && r.world.chapters == w.chapters + [r.world.chapters[|w.chapters|]]
       && var c := r.world.chapters[|w.chapters|];
          && c.novel == novel && c.title == title
          && c.order == OrderFor(info.(title := clean)))
  {
    var r := RunCore(e, w, novel, info, clean, title, present, taken);
    if r.world.chapters != w.chapters {
      var info' := info.(title := clean);
      var k := FirstSettled(e, info.url, w.loads, taken, 0).value;
      var a := Try(e, info.url, w.loads, taken, k);
      assert r.world == Settled(e, w, novel, info', title, k, a);
      var f := e.fetch(info.url, w.loads + k);
      assert a == Wrote && f.Loaded?;
      WroteFacts(f, taken, e.duplicateMessage);
      var c := Chapter(novel, title, e.save(f.text), OrderFor(info'));
      assert r.world.chapters == w.chapters + [c];
    }
  }

  /** process_chapter leaves the novels and the ledger alone; with the cleaned title already
      stored it returns True without loading a page; otherwise it loads one to three pages
      and returns False exactly when all three attempts failed, loading three. */
  lemma ChapterRunAttempts(e: Env, w: World, novel: nat, info: Record)
    ensures var r := RunChapter(e, w, novel, info);
      && r.world.novels == w.novels && r.world.ledger == w.ledger
      && w.loads <= r.world.loads <= w.loads + 3
      && (HasChapter(w.chapters, novel, e.clean(info.title)) ==> r.ok && r.world == w && r.info == info)
      && (!HasChapter(w.chapters, novel, e.clean(info.title)) ==>
            r.info == info.(title := e.clean(info.title)) && r.world.loads > w.loads)
      && (!r.ok <==>
            && !HasChapter(w.chapters, novel, e.clean(info.title))
            && forall k | 0 <= k < 3 ::
                 Try(e, info.url, w.loads, HasChapter(w.chapters, novel, e.clean(e.clean(info.title))), k) == Retry)
      && (!r.ok ==> r.world.loads == w.loads + 3 && r.world.chapters == w.chapters)
  {
    var clean := e.clean(info.title);
    var title := e.clean(clean);
    RunCoreAttempts(e, w, novel, info, clean, title, HasChapter(w.chapters, novel, clean), HasChapter(w.chapters, novel, title));
  }

  /** A successful attempt writes exactly one chapter: of this novel, under the twice-cleaned
      title, which was free, with the order of line 423; nothing else in
      the store changes. */
  lemma ChapterRunWrites(e: Env, w: World, novel: nat, info: Record)
    ensures var r := RunChapter(e, w, novel, info);
      r.world.chapters == w.chapters ||
      (&& r.world.chapters == w.chapters + [r.world.chapters[|w.chapters|]]
       && var c := r.world.chapters[|w.chapters|];
          && c.novel == novel && c.title == e.clean(e.clean(info.title))
          && !HasChapter(w.chapters, novel, c.title)
          && c.order == OrderFor(info.(title := e.clean(info.title))))
  {
    var clean := e.clean(info.title);
    var title := e.clean(clean);
    RunCoreWrites(e, w, novel, info, clean, title, HasChapter(w.chapters, novel, clean), HasChapter(w.chapters, novel, title));
  }

  /** Appending a chapter whose title its novel does not have keeps titles unique. */
  lemma AppendDistinct(chs: seq<Chapter>, c: Chapter)
    requires DistinctTitles(chs) && !HasChapter(chs, c.novel, c.title)
    ensures DistinctTitles(chs + [c])
  {
    forall i, j | 0 <= i < j < |chs + [c]| && (chs + [c])[i].novel == (chs + [c])[j].novel
      ensures (chs + [c])[i].title != (chs + [c])[j].title
    {
      if j == |chs| {
        assert chs[i].novel == c.novel;
      }
    }
  }

  /** process_chapter keeps chapter titles unique within each novel. */
  lemma ChapterRunDistinct(e: Env, w: World, novel: nat, info: Record)
    requires DistinctTitles(w.chapters)
    ensures DistinctTitles(RunChapter(e, w, novel, info).world.chapters)
  {
    var r := RunChapter(e, w, novel, info);
    ChapterRunWrites(e, w, novel, info);
    if r.world.chapters != w.chapters {
      AppendDistinct(w.chapters, r.world.chapters[|w.chapters|]);
    }
  }

  // ---------------------------------------------------------------------------------------
  // The per-chapter loops (lines 348-352 and 540-548)

  /** Every index is a position of a list of length n. */
  predicate Indices(idx: seq<nat>, n: nat) {
    forall k | 0 <= k < |idx| :: idx[k] < n
  }

  /** What a loop of process_chapter calls leaves: the state, the dicts of the calls that
      returned False, and the list whose dicts the calls updated in place. */
  datatype BatchRun = BatchRun(world: World, failed: seq<Record>, recs: seq<Record>)

  /** process_chapter on recs[idx[0]], recs[idx[1]], ... in turn. */
  function RunBatch(e: Env, w: World, novel: nat, recs: seq<Record>, idx: seq<nat>): (b: BatchRun)
    requires Indices(idx, |recs|)
    ensures |b.recs| == |recs|
    decreases |idx|
  {
    if idx == [] then BatchRun(w, [], recs)
    else
      var b := RunBatch(e, w, novel, recs, idx[..|idx| - 1]);
      var i := idx[|idx| - 1];
      var r := RunChapter(e, b.world, novel, b.recs[i]);
      BatchRun(r.world, b.failed + (if r.ok then [] else [r.info]), b.recs[i := r.info])
  }

  /** A loop of process_chapter calls only appends chapters of its novel, keeps titles unique,
      loads at most three pages per call, and each call either adds one chapter, reports a
      failure, or neither; the dicts keep their urls and orders, and only the processed ones
      change. */
  lemma {:induction false} RunBatchFacts(e: Env, w: World, novel: nat, recs: seq<Record>, idx: seq<nat>)
    requires Indices(idx, |recs|)
    ensures var b := RunBatch(e, w, novel, recs, idx);
      && b.world.novels == w.novels && b.world.ledger == w.ledger
      && w.loads <= b.world.loads <= w.loads + 3 * |idx|
      && |w.chapters| <= |b.world.chapters| && b.world.chapters[..|w.chapters|] == w.chapters
      && (forall j | |w.chapters| <= j < |b.world.chapters| :: b.world.chapters[j].novel == novel)
      && |b.world.chapters| - |w.chapters| + |b.failed| <= |idx|
      && (DistinctTitles(w.chapters) ==> DistinctTitles(b.world.chapters))
      && (forall k | 0 <= k < |recs| :: b.recs[k].url == recs[k].url && b.recs[k].order == recs[k].order)
      && (forall k | 0 <= k < |recs| && k !in idx :: b.recs[k] == recs[k])
    decreases |idx|
  {
    if idx != [] {
      var idx' := idx[..|idx| - 1];
      RunBatchFacts(e, w, novel, recs, idx');
      var b := RunBatch(e, w, novel, recs, idx');
      var i := idx[|idx| - 1];
      ChapterRunAttempts(e, b.world, novel, b.recs[i]);
      ChapterRunWrites(e, b.world, novel, b.recs[i]);
      if DistinctTitles(w.chapters) {
        ChapterRunDistinct(e, b.world, novel, b.recs[i]);
      }
      var b' := RunBatch(e, w, novel, recs, idx);
      var r := RunChapter(e, b.world, novel, b.recs[i]);
      assert b'.world == r.world;
      assert r.world.chapters[..|b.world.chapters|] == b.world.chapters;
      AppendedChain(w.chapters, b.world.chapters, b'.world.chapters, novel);
      forall k | 0 <= k < |recs| && k !in idx ensures b'.recs[k] == recs[k] {
        assert k !in idx';
      }
    }
  }

  // ---------------------------------------------------------------------------------------
  // verify_chapters_completeness (lines 494-548)

  /** The positions 0 .. n - 1 in turn. */
  function Range(n: nat): (r: seq<nat>)
    ensures |r| == n && Indices(r, n)
    ensures forall k | 0 <= k < n :: r[k] == k
  {
    seq(n, (i: int) requires 0 <= i < n => i as nat)
  }

  /** Copies of the listed dicts with their titles cleaned once more (lines 507-512). */
  function Recleaned(e: Env, all: seq<Record>): (r: seq<Record>)
    ensures |r| == |all|
  {
    seq(|all|, i requires 0 <= i < |all| => all[i].(title := e.clean(all[i].title)))
  }

  /** A dict none of whose novel's chapters, as read in `chs`, has its title. */
  function Unstored(chs: seq<Chapter>, novel: nat): Record -> bool {
    (r: Record) => !HasChapter(chs, novel, r.title)
  }

  /** The dicts of lines 520-528: the cleaned ones whose title is not stored, in listing order. */
  function Missing(e: Env, chs: seq<Chapter>, novel: nat, all: seq<Record>): seq<Record> {
    Filter(Recleaned(e, all), Unstored(chs, novel))
  }

  /** The sort key of line 535: normal chapters (0) before specials (1), then by number. */
  function TitleKey(title: string): Key {
    Key(if IsSpecial(title) then 1 else 0, ChapterNumber(title))
  }

  function MissingKey(r: Record): Key {
    TitleKey(r.title)
  }

  /** The order lines 541-548 give a missing chapter: a special one is placed after all
      numbered ones. */
  function PlannedOrder(title: string): int {
    if IsSpecial(title) then Reorder.SpecialBase + ChapterNumber(title) else ChapterNumber(title)
  }

  /** The dicts with their 'order' set as lines 541-548 set it. */
  function WithOrders(rs: seq<Record>): (r: seq<Record>)
    ensures |r| == |rs|
  {
    seq(|rs|, i requires 0 <= i < |rs| => rs[i].(order := Some(PlannedOrder(rs[i].title))))
  }

  /** What the pass hands to process_chapter, in turn. */
  function Plan(e: Env, chs: seq<Chapter>, novel: nat, all: seq<Record>): seq<Record> {
    WithOrders(Sort(Missing(e, chs, novel, all), MissingKey))
  }

  /** The pass: process_chapter on each planned dict; the failures are counted but not
      recorded anywhere (lines 550-552). */
  function Completeness(e: Env, w: World, novel: nat, all: seq<Record>): World {
    var p := Plan(e, w.chapters, novel, all);
    RunBatch(e, w, novel, p, Range(|p|)).world
  }

  /** The plan lists the missing chapters normal ones first, each kind by number. */
  lemma PlanSorted(e: Env, chs: seq<Chapter>, novel: nat, all: seq<Record>)
    ensures |Plan(e, chs, novel, all)| == |Missing(e, chs, novel, all)| <= |all|
    ensures SortedBy(Plan(e, chs, novel, all), MissingKey)
  {
    var m := Missing(e, chs, novel, all);
    var s := Sort(m, MissingKey);
    SortFacts(m, MissingKey);
    assert |s| == |m| by {
      assert |multiset(s)| == |multiset(m)|;
    }
    var p := WithOrders(s);
    forall i, j | 0 <= i < j < |p| ensures KeyLessEq(MissingKey(p[i]), MissingKey(p[j])) {
      assert p[i].title == s[i].title && p[j].title == s[j].title;
      assert KeyLessEq(MissingKey(s[i]), MissingKey(s[j]));
    }
  }

  /** Every planned dict is a listed chapter whose cleaned title is not stored, carrying
      the order of lines 541-548. */
  lemma PlanFrom(e: Env, chs: seq<Chapter>, novel: nat, all: seq<Record>)
    ensures var p := Plan(e, chs, novel, all);
      forall i | 0 <= i < |p| ::
        && p[i].order == Some(PlannedOrder(p[i].title))
        && !HasChapter(chs, novel, p[i].title)
        && exists j | 0 <= j < |all| :: p[i].url == all[j].url && p[i].title == e.clean(all[j].title)
  {
    var m := Missing(e, chs, novel, all);
    var s := Sort(m, MissingKey);
    var p := WithOrders(s);
    var r := Recleaned(e, all);
    SortFacts(m, MissingKey);
    forall i | 0 <= i < |p|
      ensures && p[i].order == Some(PlannedOrder(p[i].title))
              && !HasChapter(chs, novel, p[i].title)
              && exists j | 0 <= j < |all| :: p[i].url == all[j].url && p[i].title == e.clean(all[j].title)
    {
      assert s[i] in m;
      FilterMembers(r, Unstored(chs, novel), s[i]);
      var j :| 0 <= j < |r| && r[j] == s[i];
      assert p[i].url == all[j].url;
    }
  }

  /** Every listed chapter whose cleaned title is not stored is planned. */
  lemma PlanCovers(e: Env, chs: seq<Chapter>, novel: nat, all: seq<Record>)
    ensures var p := Plan(e, chs, novel, all);
      forall j | 0 <= j < |all| && !HasChapter(chs, novel, e.clean(all[j].title)) ::
        exists i | 0 <= i < |p| :: p[i].url == all[j].url && p[i].title == e.clean(all[j].title)
  {
    var m := Missing(e, chs, novel, all);
    var s := Sort(m, MissingKey);
    var p := WithOrders(s);
    var r := Recleaned(e, all);
    SortFacts(m, MissingKey);
    forall j | 0 <= j < |all| && !HasChapter(chs, novel, e.clean(all[j].title))
      ensures exists i | 0 <= i < |p| :: p[i].url == all[j].url && p[i].title == e.clean(all[j].title)
    {
      FilterMembers(r, Unstored(chs, novel), r[j]);
      assert r[j] in multiset(s);
      var i :| 0 <= i < |s| && s[i] == r[j];
      assert p[i].url == all[j].url;
    }
    assert p == Plan(e, chs, novel, all);
  }

  /** With every cleaned title already stored, nothing is planned. */
  lemma PlanEmpty(e: Env, chs: seq<Chapter>, novel: nat, all: seq<Record>)
    requires forall j | 0 <= j < |all| :: HasChapter(chs, novel, e.clean(all[j].title))
    ensures Plan(e, chs, novel, all) == []
  {
    var r := Recleaned(e, all);
    FilterNone(r, Unstored(chs, novel));
  }

  /** When every numbered chapter's number is below the special base, the orders along the
      plan never decrease, so the specials are listed after all of the numbered ones. */
  lemma PlanOrdersAscend(e: Env, chs: seq<Chapter>, novel: nat, all: seq<Record>)
    requires var p := Plan(e, chs, novel, all);
      forall i | 0 <= i < |p| && !IsSpecial(p[i].title) :: ChapterNumber(p[i].title) < Reorder.SpecialBase
    ensures var p := Plan(e, chs, novel, all);
      forall i, j | 0 <= i < j < |p| :: p[i].order.Some? && p[j].order.Some? && p[i].order.value <= p[j].order.value
  {
    var p := Plan(e, chs, novel, all);
    PlanSorted(e, chs, novel, all);
    PlanFrom(e, chs, novel, all);
    forall i, j | 0 <= i < j < |p| ensures p[i].order.Some? && p[j].order.Some? && p[i].order.value <= p[j].order.value {
      assert KeyLessEq(MissingKey(p[i]), MissingKey(p[j]));
    }
  }

  /** The pass only appends chapters of its novel, keeps titles unique, loads at most three
      pages per listed chapter, leaves the novels and the ledger alone, and changes nothing
      when every cleaned title is already stored. */
  lemma CompletenessFacts(e: Env, w: World, novel: nat, all: seq<Record>)
    ensures var w' := Completeness(e, w, novel, all);
      && w'.novels == w.novels && w'.ledger == w.ledger
      && w.loads <= w'.loads <= w.loads + 3 * |all|
      && |w.chapters| <= |w'.chapters| <= |w.chapters| + |all| && w'.chapters[..|w.chapters|] == w.chapters
      && (forall j | |w.chapters| <= j < |w'.chapters| :: w'.chapters[j].novel == novel)
      && (DistinctTitles(w.chapters) ==> DistinctTitles(w'.chapters))
      && ((forall j | 0 <= j < |all| :: HasChapter(w.chapters, novel, e.clean(all[j].title))) ==> w' == w)
  {
    var p := Plan(e, w.chapters, novel, all);
    PlanSorted(e, w.chapters, novel, all);
    if forall j | 0 <= j < |all| :: HasChapter(w.chapters, novel, e.clean(all[j].title)) {
      PlanEmpty(e, w.chapters, novel, all);
    }
    RunBatchFacts(e, w, novel, p, Range(|p|));
  }

  // ---------------------------------------------------------------------------------------
  // The failure ledger: save_failed_chapters (lines 463-492)

  /** The characters line 472 turns into '_' in a file name. */
  predicate LedgerUnsafe(c: char) {
    c == '\\' || c == '/' || c == '*' || c == '?' || c == ':' || c == '"' || c == '<' || c == '>' || c == '|'
  }

  /** The ledger file stem of a novel title (line 472). */
  function LedgerName(title: string): (s: string) {
    seq(|title|, i requires 0 <= i < |title| => if LedgerUnsafe(title[i]) then '_' else title[i])
  }

  /** A ledger name has the title's length and no unsafe character; a title without unsafe
      characters is its own ledger name, so naming twice is naming once. */
  lemma LedgerNameFacts(title: string)
    ensures |LedgerName(title)| == |title|
    ensures forall i | 0 <= i < |title| :: !LedgerUnsafe(LedgerName(title)[i])
    ensures (forall i | 0 <= i < |title| :: !LedgerUnsafe(title[i])) ==> LedgerName(title) == title
    ensures LedgerName(LedgerName(title)) == LedgerName(title)
  {
  }

  /** The urls of a list of dicts (line 484). */
  function Urls(rs: seq<Record>): set<string> {
    set i | 0 <= i < |rs| :: rs[i].url
  }

  /** A dict whose url is not among `urls`. */
  function FreshUrl(urls: set<string>): Record -> bool {
    (r: Record) => r.url !in urls
  }

  /** Lines 484-487: the failed dicts whose url the file did not hold are appended in turn;
      the urls are those of the file as read, so two new dicts with one url are both kept. */
  function Merge(existing: seq<Record>, failed: seq<Record>): seq<Record> {
    existing + Filter(failed, FreshUrl(Urls(existing)))
  }

  /** The records of a ledger file, none when there is no file. */
  function LedgerOf(ledger: map<string, seq<Record>>, stem: string): seq<Record> {
    if stem in ledger then ledger[stem] else []
  }

  /** save_failed_chapters: the novel's file holds the merge of what it held and the failures. */
  function SaveFailed(ledger: map<string, seq<Record>>, title: string, failed: seq<Record>): map<string, seq<Record>> {
    ledger[LedgerName(title) := Merge(LedgerOf(ledger, LedgerName(title)), failed)]
  }

  /** The merge keeps the file's records in front and adds a failed dict exactly when its
      url was not in the file. */
  lemma MergeKeeps(existing: seq<Record>, failed: seq<Record>)
    ensures var m := Merge(existing, failed);
      && |existing| <= |m| <= |existing| + |failed| && m[..|existing|] == existing
      && (forall r :: r in m <==> r in existing || (r in failed && r.url !in Urls(existing)))
  {
    var m := Merge(existing, failed);
    assert m[..|existing|] == existing;
    forall r ensures r in m <==> r in existing || (r in failed && r.url !in Urls(existing)) {
      FilterMembers(failed, FreshUrl(Urls(existing)), r);
    }
  }

  /** After the merge every failed url is recorded, and no other. */
  lemma MergeUrls(existing: seq<Record>, failed: seq<Record>)
    ensures Urls(Merge(existing, failed)) == Urls(existing) + Urls(failed)
  {
    var m := Merge(existing, failed);
    MergeKeeps(existing, failed);
    forall u | u in Urls(failed) ensures u in Urls(m) {
      var k :| 0 <= k < |failed| && failed[k].url == u;
      if u !in Urls(existing) {
        assert failed[k] in m;
        var j :| 0 <= j < |m| && m[j] == failed[k];
      } else {
        var j :| 0 <= j < |existing| && existing[j].url == u;
        assert m[j] == m[..|existing|][j];
      }
    }
    forall u | u in Urls(m) ensures u in Urls(existing) + Urls(failed) {
      var j :| 0 <= j < |m| && m[j].url == u;
      assert m[j] in m;
      if m[j] !in existing {
        assert m[j] in failed;
        var k :| 0 <= k < |failed| && failed[k] == m[j];
      } else {
        var k :| 0 <= k < |existing| && existing[k] == m[j];
      }
    }
  }

  /** Saving the same failures twice writes nothing the first save did not. */
  lemma MergeIdempotent(existing: seq<Record>, failed: seq<Record>)
    ensures Merge(Merge(existing, failed), failed) == Merge(existing, failed)
  {
    var m := Merge(existing, failed);
    MergeUrls(existing, failed);
    forall k | 0 <= k < |failed| ensures !FreshUrl(Urls(m))(failed[k]) {
      assert failed[k].url in Urls(failed);
    }
    FilterNone(failed, FreshUrl(Urls(m)));
  }

  // ---------------------------------------------------------------------------------------
  // process_failed_chapters (lines 554-661)

  /** The underscores at the front of s dropped. */
  function DropUnderscores(s: string): (r: string)
    ensures |r| <= |s| && (r == [] || r[0] != '_')
  {
    if s != [] && s[0] == '_' then DropUnderscores(s[1..]) else s
  }

  /** Line 579: every run of underscores becomes one space. */
  function UnderscoreRuns(s: string): string
    decreases |s|
  {
    if s == [] then []
    else if s[0] == '_' then " " + UnderscoreRuns(DropUnderscores(s[1..]))
    else [s[0]] + UnderscoreRuns(s[1..])
  }

  /** No underscore is left, and a string without one is unchanged. */
  lemma {:induction false} UnderscoreRunsFacts(s: string)
    ensures '_' !in UnderscoreRuns(s)
    ensures '_' !in s ==> UnderscoreRuns(s) == s
    decreases |s|
  {
    if s != [] {
      if s[0] == '_' {
        UnderscoreRunsFacts(DropUnderscores(s[1..]));
      } else {
        UnderscoreRunsFacts(s[1..]);
        assert s == [s[0]] + s[1..];
      }
    }
  }

  /** The novel title lines 578-579 read back from the ledger file `stem`.json. */
  function Recovered(stem: string): string {
    Strip(UnderscoreRuns(ReplaceAll(stem + ".json", ".json", "")))
  }

  /** The novel Novel.objects.filter(...).first() gives among those `sel` keeps: the most
      recently updated one (Meta.ordering is -updated_at), the lowest id among equals. */
  function MostRecent(ns: seq<Novel>, sel: Novel -> bool): (r: Option<nat>)
    ensures r.None? <==> forall k | 0 <= k < |ns| :: !sel(ns[k])
    ensures r.Some? ==> && r.value < |ns| && sel(ns[r.value])
                        && forall k | 0 <= k < |ns| && sel(ns[k]) ::
                             || ns[k].updatedAt < ns[r.value].updatedAt
                             || (ns[k].updatedAt == ns[r.value].updatedAt && r.value <= k)
    decreases |ns|
  {
    if ns == [] then None
    else
      var r := MostRecent(ns[..|ns| - 1], sel);
      var last := |ns| - 1;
      if !sel(ns[last]) then r
      else if r.None? || ns[r.value].updatedAt < ns[last].updatedAt then Some(last)
      else r
  }

  /** Line 582 as written: a novel whose title contains the recovered title, ignoring case. */
  function NamesAsWritten(stem: string): Novel -> bool {
    (n: Novel) => Retitle.IContains(n.title, Recovered(stem))
  }

  function OwnerAsWritten(ns: seq<Novel>, stem: string): Option<nat> {
    MostRecent(ns, NamesAsWritten(stem))
  }

  /** The novels whose ledger file is `stem`. */
  function NamedBy(stem: string): Novel -> bool {
    (n: Novel) => LedgerName(n.title) == stem
  }

  /** The owner of a ledger file: the most recent novel whose title gives that file name. */
  function Owner(ns: seq<Novel>, stem: string): Option<nat> {
    MostRecent(ns, NamedBy(stem))
  }

  /** The novel a ledger file is replayed into: by lines 578-582 as written (`asWritten`),
      or by the corrected owner lookup. */
  function Lookup(ns: seq<Novel>, stem: string, asWritten: bool): Option<nat> {
    if asWritten then OwnerAsWritten(ns, stem) else Owner(ns, stem)
  }

  /** The ledger of any stored novel is found, and it is that novel's when no other title
      gives the same file name. */
  lemma OwnerFinds(ns: seq<Novel>, i: nat)
    requires i < |ns|
    ensures Owner(ns, LedgerName(ns[i].title)).Some?
    ensures (forall k | 0 <= k < |ns| && k != i :: LedgerName(ns[k].title) != LedgerName(ns[i].title)) ==>
      Owner(ns, LedgerName(ns[i].title)) == Some(i)
  {
    assert NamedBy(LedgerName(ns[i].title))(ns[i]);
  }

  /** Removing ".json" from the file name gives back a stem without a dot. */
  lemma {:induction false} JsonStem(stem: string)
    requires '.' !in stem
    ensures ReplaceAll(stem + ".json", ".json", "") == stem
    decreases |stem|
  {
    if stem == [] {
      JsonAlone();
      assert stem + ".json" == ".json";
    } else {
      JsonStem(stem[1..]);
      JsonSkip(stem[0], stem[1..] + ".json");
      assert [stem[0]] + (stem[1..] + ".json") == stem + ".json";
      assert [stem[0]] + stem[1..] == stem;
    }
  }

  lemma JsonAlone()
    ensures ReplaceAll(".json", ".json", "") == ""
  {
    assert StartsWith(".json", ".json");
    assert ".json"[|".json"|..] == [];
  }

  lemma JsonSkip(c: char, rest: string)
    requires c != '.'
    ensures ReplaceAll([c] + rest, ".json", "") == [c] + ReplaceAll(rest, ".json", "")
  {
    assert ([c] + rest)[0] == c;
    assert !StartsWith([c] + rest, ".json");
    assert ([c] + rest)[1..] == rest;
  }

  // ColonTitleRead, ColonTitleMissed and ShortTitleShared (with its helpers) only build the
  // counterexamples of AsWrittenMissesOwner and AsWrittenPicksOther.

  /** The file of "a:b" is "a_b", read back as "a b". */
  lemma ColonTitleRead()
    ensures LedgerName("a:b") == "a_b" && Recovered("a_b") == "a b"
  {
    assert LedgerName("a:b") == "a_b";
    JsonStem("a_b");
    assert UnderscoreRuns("a_b") == "a b" by {
      assert "a_b"[1..] == "_b" && "_b"[1..] == "b" && "b"[1..] == [];
      assert DropUnderscores("b") == "b";
    }
    TrimByNoop("a b", IsSpace);
  }

  /** "a:b" does not contain "a b", in any case. */
  lemma ColonTitleMissed()
    ensures !Retitle.IContains("a:b", "a b")
  {
    assert Retitle.Lower("a b") == "a b" && Retitle.Lower("a:b") == "a:b";
    assert !Contains("a:b", "a b") by {
      assert "a:b"[..3] != "a b";
      assert "a:b"[1..] == ":b";
    }
  }

  /** The title "a:b" is filed as "a_b", read back as "a b", and no title contains that: the
      ledger of that novel is never replayed, where the owner lookup finds it. */
  lemma AsWrittenMissesOwner()
    ensures var ns := [Novel("a:b", Names.UnknownAuthor, "", "", 0)];
      && LedgerName(ns[0].title) == "a_b"
      && OwnerAsWritten(ns, "a_b") == None
      && Owner(ns, "a_b") == Some(0)
  {
    var ns := [Novel("a:b", Names.UnknownAuthor, "", "", 0)];
    ColonTitleRead();
    ColonTitleMissed();
    assert !NamesAsWritten("a_b")(ns[0]);
    OwnerFinds(ns, 0);
  }

  /** Replayed as written, the ledger file of the only novel "a:b" is left as it is, however
      many records it holds; replayed with the corrected lookup, it is not. */
  lemma AsWrittenReplaySkips(e: Env, w: World)
    requires w.novels == [Novel("a:b", Names.UnknownAuthor, "", "", 0)]
    ensures ReplayFile(e, w, "a_b", true) == w
    ensures "a_b" in w.ledger && w.ledger["a_b"] != [] ==> Lookup(w.novels, "a_b", false) == Some(0)
  {
    AsWrittenMissesOwner();
  }

  /** The file "ab" is read back as "ab", which both "ab" and "xab" contain. */
  lemma ShortTitleShared()
    ensures LedgerName("ab") == "ab" && LedgerName("xab") == "xab" && Recovered("ab") == "ab"
    ensures Retitle.IContains("ab", "ab") && Retitle.IContains("xab", "ab")
  {
    LedgerNamesPlain();
    RecoveredPlain();
    SharedSubstring();
  }

  lemma LedgerNamesPlain()
    ensures LedgerName("ab") == "ab" && LedgerName("xab") == "xab"
  {
    assert LedgerName("ab") == "ab";
    assert LedgerName("xab") == "xab";
  }

  lemma RecoveredPlain()
    ensures Recovered("ab") == "ab"
  {
    JsonStem("ab");
    UnderscoreRunsFacts("ab");
    TrimByNoop("ab", IsSpace);
  }

  lemma SharedSubstring()
    ensures Retitle.IContains("ab", "ab") && Retitle.IContains("xab", "ab")
  {
    assert Retitle.Lower("ab") == "ab" && Retitle.Lower("xab") == "xab";
    ContainsAt("xab", "ab", 1);
    ContainsAt("ab", "ab", 0);
  }

  /** A novel "xab" updated after the novel "ab": the ledger "ab" is read back as "ab", which
      both titles contain, and the lookup replays it into "xab". */
  lemma AsWrittenPicksOther()
    ensures var ns := [Novel("ab", Names.UnknownAuthor, "", "", 0), Novel("xab", Names.UnknownAuthor, "", "", 1)];
      && LedgerName(ns[0].title) == "ab"
      && OwnerAsWritten(ns, "ab") == Some(1)
      && Owner(ns, "ab") == Some(0)
  {
    var ns := [Novel("ab", Names.UnknownAuthor, "", "", 0), Novel("xab", Names.UnknownAuthor, "", "", 1)];
    ShortTitleShared();
    assert NamesAsWritten("ab")(ns[1]) && NamesAsWritten("ab")(ns[0]);
    assert !NamedBy("ab")(ns[1]);
    OwnerFinds(ns, 0);
  }

  /** What replaying a ledger file leaves: the state and the dicts that failed again. */
  datatype Replay = Replay(world: World, remaining: seq<Record>)

  /** Lines 603-648 on todo[0], todo[1], ...: each page is loaded once; a non-empty text
      creates the chapter under the cleaned title, ordered by the number in it; an empty
      page, an exception, or a create the (novel, title) constraint refuses keeps the dict. */
  function Recover(e: Env, w: World, novel: nat, todo: seq<Record>): Replay
    decreases |todo|
  {
    if todo == [] then Replay(w, [])
    else
      var p := Recover(e, w, novel, todo[..|todo| - 1]);
      var r := todo[|todo| - 1];
      var f := e.fetch(r.url, p.world.loads);
      var w' := p.world.(loads := p.world.loads + 1);
      var clean := e.clean(r.title);
      if f.Loaded? && f.text != [] && !HasChapter(p.world.chapters, novel, clean) then
        Replay(w'.(chapters := p.world.chapters + [Chapter(novel, clean, e.save(f.text), ChapterNumber(clean))]), p.remaining)
      else Replay(w', p.remaining + [r])
  }

  /** Every dict of the replay either becomes one new chapter of the novel or stays in the
      file: new chapters and remaining dicts together are as many as the dicts tried, one
      page is loaded per dict, and titles stay unique. */
  lemma {:induction false} RecoverFacts(e: Env, w: World, novel: nat, todo: seq<Record>)
    ensures var p := Recover(e, w, novel, todo);
      && p.world.novels == w.novels && p.world.ledger == w.ledger
      && p.world.loads == w.loads + |todo|
      && |w.chapters| <= |p.world.chapters| && p.world.chapters[..|w.chapters|] == w.chapters
      && (forall j | |w.chapters| <= j < |p.world.chapters| :: p.world.chapters[j].novel == novel)
      && |p.world.chapters| - |w.chapters| + |p.remaining| == |todo|
      && (forall r | r in p.remaining :: r in todo)
      && (DistinctTitles(w.chapters) ==> DistinctTitles(p.world.chapters))
    decreases |todo|
  {
    if todo != [] {
      var init := todo[..|todo| - 1];
      RecoverFacts(e, w, novel, init);
      var p := Recover(e, w, novel, init);
      var r := todo[|todo| - 1];
      var f := e.fetch(r.url, p.world.loads);
      var clean := e.clean(r.title);
      var p' := Recover(e, w, novel, todo);
      if f.Loaded? && f.text != [] && !HasChapter(p.world.chapters, novel, clean) {
        var c := Chapter(novel, clean, e.save(f.text), ChapterNumber(clean));
        assert p'.world.chapters == p.world.chapters + [c];
        assert p'.world.chapters[..|p.world.chapters|] == p.world.chapters;
        assert p'.world.chapters[..|w.chapters|] == p.world.chapters[..|w.chapters|];
        if DistinctTitles(w.chapters) {
          AppendDistinct(p.world.chapters, c);
        }
      }
      forall x | x in p'.remaining ensures x in todo {
        if x in p.remaining {
          assert x in init;
        }
      }
    }
  }

  /** One ledger file (lines 561-658): nothing happens to an empty file or to one whose
      novel is not found; the dicts whose title is stored are dropped; the file is deleted
      when nothing is left to do or everything was recovered, else rewritten with the dicts
      that failed again. The novel is found by Lookup, as written or corrected. */
  function ReplayFile(e: Env, w: World, stem: string, asWritten: bool): World {
    if stem !in w.ledger || w.ledger[stem] == [] then w
    else match Lookup(w.novels, stem, asWritten)
      case None => w
      case Some(novel) =>
        var todo := Filter(w.ledger[stem], Unstored(w.chapters, novel));
        if todo == [] then w.(ledger := w.ledger - {stem})
        else
          var p := Recover(e, w, novel, todo);
          if p.remaining == [] then p.world.(ledger := p.world.ledger - {stem})
          else p.world.(ledger := p.world.ledger[stem := p.remaining])
  }

  /** Replaying a file touches no other file and no novel, only appends chapters, keeps
      titles unique, and never leaves more records than it found minus what it recovered;
      what stays in the file are dicts it held whose title is not stored. */
  lemma ReplayFileFacts(e: Env, w: World, stem: string, asWritten: bool)
    ensures var w' := ReplayFile(e, w, stem, asWritten);
      && w'.novels == w.novels
      && (forall s | s != stem :: (s in w'.ledger <==> s in w.ledger) && (s in w.ledger ==> w'.ledger[s] == w.ledger[s]))
      && |w.chapters| <= |w'.chapters| && w'.chapters[..|w.chapters|] == w.chapters
      && (DistinctTitles(w.chapters) ==> DistinctTitles(w'.chapters))
      && |w'.chapters| - |w.chapters| + |LedgerOf(w'.ledger, stem)| <= |LedgerOf(w.ledger, stem)|
      && (stem in w'.ledger ==>
            && stem in w.ledger && (forall r | r in w'.ledger[stem] :: r in w.ledger[stem])
            && (w'.ledger[stem] == [] ==> w.ledger[stem] == []))
  {
    if stem in w.ledger && w.ledger[stem] != [] && Lookup(w.novels, stem, asWritten).Some? {
      var novel := Lookup(w.novels, stem, asWritten).value;
      var todo := Filter(w.ledger[stem], Unstored(w.chapters, novel));
      if todo != [] {
        RecoverFacts(e, w, novel, todo);
      }
    }
  }

  /** process_failed_chapters: each ledger file in the order the directory lists them. */
  function ReplayAll(e: Env, w: World, stems: seq<string>, asWritten: bool): World
    decreases |stems|
  {
    if stems == [] then w
    else ReplayFile(e, ReplayAll(e, w, stems[..|stems| - 1], asWritten), stems[|stems| - 1], asWritten)
  }

  /** The replay adds no ledger file and no novel, only appends chapters, and keeps titles
      unique. */
  lemma {:induction false} ReplayAllFacts(e: Env, w: World, stems: seq<string>, asWritten: bool)
    ensures var w' := ReplayAll(e, w, stems, asWritten);
      && w'.novels == w.novels && w'.ledger.Keys <= w.ledger.Keys
      && |w.chapters| <= |w'.chapters| && w'.chapters[..|w.chapters|] == w.chapters
      && (DistinctTitles(w.chapters) ==> DistinctTitles(w'.chapters))
    decreases |stems|
  {
    if stems != [] {
      var v := ReplayAll(e, w, stems[..|stems| - 1], asWritten);
      ReplayAllFacts(e, w, stems[..|stems| - 1], asWritten);
      ReplayFileFacts(e, v, stems[|stems| - 1], asWritten);
      var v' := ReplayAll(e, w, stems, asWritten);
      assert v'.chapters[..|w.chapters|] == v'.chapters[..|v.chapters|][..|w.chapters|];
    }
  }

  // ---------------------------------------------------------------------------------------
  // process_novel, after the listing is read (lines 305-366)

  /** A listed position whose title, as listed, is not among the novel's stored titles. */
  function UnstoredAt(chs: seq<Chapter>, novel: nat, all: seq<Record>): nat -> bool {
    (k: nat) => k < |all| && !HasChapter(chs, novel, all[k].title)
  }

  /** The new_chapters of line 321, as positions in the listing: the dicts are the listed
      ones themselves, so what process_chapter writes into them shows in the listing. */
  function NewIndices(chs: seq<Chapter>, novel: nat, all: seq<Record>): (idx: seq<nat>)
    ensures Indices(idx, |all|)
  {
    var idx := Filter<nat>(Range(|all|), UnstoredAt(chs, novel, all));
    assert forall k | 0 <= k < |idx| :: idx[k] in idx;
    idx
  }

  /** The positions are, in listing order, exactly those whose listed title is not stored. */
  lemma NewIndicesFacts(chs: seq<Chapter>, novel: nat, all: seq<Record>)
    ensures var idx := NewIndices(chs, novel, all);
      && (forall k: nat :: k in idx <==> k < |all| && !HasChapter(chs, novel, all[k].title))
      && (forall a, b | 0 <= a < b < |idx| :: idx[a] < idx[b])
      && ((forall k | 0 <= k < |all| :: HasChapter(chs, novel, all[k].title)) ==> idx == [])
  {
    var r := Range(|all|);
    if forall k | 0 <= k < |all| :: HasChapter(chs, novel, all[k].title) {
      FilterNone<nat>(r, UnstoredAt(chs, novel, all));
    }
    forall k: nat ensures k in NewIndices(chs, novel, all) <==> k < |all| && !HasChapter(chs, novel, all[k].title) {
      FilterMembers(r, UnstoredAt(chs, novel, all), k);
      if k < |all| {
        assert r[k] == k;
      }
    }
    var key := (k: nat) => Key(k, 0);
    assert StrictlySortedBy(r, key);
    FilterStrict(r, UnstoredAt(chs, novel, all), key);
  }

  /** The text line 364 writes into the intro. */
  function CountIntro(count: nat): string {
    "共" + Decimal(count) + "章"
  }

  /** Lines 345-365 for the novel at `novel`: process_chapter on the chosen dicts, the failures
      merged into the ledger, the completeness pass over the listing as those calls left it,
      then the intro set to the chapter count (and updated_at moved to `now`). */
  function Finish(e: Env, w: World, novel: nat, title: string, all: seq<Record>, idx: seq<nat>, now: int): (w': World)
    requires novel < |w.novels| && Indices(idx, |all|)
    ensures |w'.novels| == |w.novels|
    ensures w'.novels[novel] == w.novels[novel].(intro := CountIntro(CountOf(w'.chapters, novel)), updatedAt := now)
    ensures forall k | 0 <= k < |w.novels| && k != novel :: w'.novels[k] == w.novels[k]
    ensures w'.chapters == Filled(e, w, novel, title, all, idx).chapters
    ensures w'.ledger == Filled(e, w, novel, title, all, idx).ledger
    ensures w'.loads == Filled(e, w, novel, title, all, idx).loads
  {
    var w2 := Filled(e, w, novel, title, all, idx);
    FilledFacts(e, w, novel, title, all, idx);
    w2.(novels := w2.novels[novel := w2.novels[novel].(intro := CountIntro(CountOf(w2.chapters, novel)), updatedAt := now)])
  }

  /** What process_novel returns and the state it leaves. */
  datatype NovelRun = NovelRun(ok: bool, world: World)

  /** process_novel from the listing on: False for an empty listing; for a stored novel, the
      listed dicts whose title is not stored, and True with nothing done when there are none;
      for a new novel, the novel created (author 未知, intro cut to 200 characters) and every
      listed dict. */
  function RunNovel(e: Env, w: World, info: NovelInfo, all: seq<Record>, now: int): NovelRun {
    if all == [] then NovelRun(false, w)
    else match FindNovel(w.novels, info.title)
      case Some(n) =>
        var idx := NewIndices(w.chapters, n, all);
        if idx == [] then NovelRun(true, w) else NovelRun(true, Finish(e, w, n, info.title, all, idx, now))
      case None =>
        var w1 := w.(novels := w.novels + [Novel(info.title, Names.UnknownAuthor, Slice(info.intro, 0, 200), info.url, now)]);
        NovelRun(true, Finish(e, w1, |w.novels|, info.title, all, Range(|all|), now))
  }

  /** The two runs that change nothing: an empty listing, which fails, and a stored novel all
      of whose listed titles are stored, which succeeds without loading a page. */
  lemma NovelRunQuiet(e: Env, w: World, info: NovelInfo, all: seq<Record>, now: int)
    ensures all == [] ==> RunNovel(e, w, info, all, now) == NovelRun(false, w)
    ensures all != [] ==> RunNovel(e, w, info, all, now).ok
    ensures (&& FindNovel(w.novels, info.title).Some?
             && forall k | 0 <= k < |all| :: HasChapter(w.chapters, FindNovel(w.novels, info.title).value, all[k].title)) ==>
      RunNovel(e, w, info, all, now).world == w
  {
    var f := FindNovel(w.novels, info.title);
    if f.Some? && forall k | 0 <= k < |all| :: HasChapter(w.chapters, f.value, all[k].title) {
      NewIndicesFacts(w.chapters, f.value, all);
    }
  }

  /** The state lines 345-360 leave before the intro is written: the batch, the ledger
      merge, and the completeness pass. */
  function Filled(e: Env, w: World, novel: nat, title: string, all: seq<Record>, idx: seq<nat>): World
    requires Indices(idx, |all|)
  {
    var b := RunBatch(e, w, novel, all, idx);
    var w1 := if b.failed == [] then b.world else b.world.(ledger := SaveFailed(b.world.ledger, title, b.failed));
    Completeness(e, w1, novel, b.recs)
  }

  /** Before the intro is written: the novels are untouched, chapters are only appended, all
      of this novel, titles stay unique, and at most three pages are loaded per chosen and per
      listed dict. */
  lemma FilledFacts(e: Env, w: World, novel: nat, title: string, all: seq<Record>, idx: seq<nat>)
    requires Indices(idx, |all|)
    ensures var w' := Filled(e, w, novel, title, all, idx);
      && w'.novels == w.novels
      && |w.chapters| <= |w'.chapters| && w'.chapters[..|w.chapters|] == w.chapters
      && (forall j | |w.chapters| <= j < |w'.chapters| :: w'.chapters[j].novel == novel)
      && (DistinctTitles(w.chapters) ==> DistinctTitles(w'.chapters))
      && w'.loads <= w.loads + 3 * |idx| + 3 * |all|
  {
    var b := RunBatch(e, w, novel, all, idx);
    RunBatchFacts(e, w, novel, all, idx);
    var w1 := if b.failed == [] then b.world else b.world.(ledger := SaveFailed(b.world.ledger, title, b.failed));
    CompletenessFacts(e, w1, novel, b.recs);
    var w2 := Completeness(e, w1, novel, b.recs);
    AppendedChain(w.chapters, w1.chapters, w2.chapters, novel);
  }

  /** Chapters of the novel appended twice are chapters of the novel appended once. */
  lemma AppendedChain(a: seq<Chapter>, b: seq<Chapter>, c: seq<Chapter>, novel: nat)
    requires |a| <= |b| && b[..|a|] == a && forall j | |a| <= j < |b| :: b[j].novel == novel
    requires |b| <= |c| && c[..|b|] == b && forall j | |b| <= j < |c| :: c[j].novel == novel
    ensures |a| <= |c| && c[..|a|] == a && forall j | |a| <= j < |c| :: c[j].novel == novel
  {
    assert c[..|a|] == c[..|b|][..|a|];
    forall j | |a| <= j < |c| ensures c[j].novel == novel {
      if j < |b| {
        assert c[j] == c[..|b|][j];
      }
    }
  }

  /** Saving failures touches only the novel's own ledger file. */
  lemma SaveFailedOthers(ledger: map<string, seq<Record>>, title: string, failed: seq<Record>, s: string)
    requires s != LedgerName(title)
    ensures (s in SaveFailed(ledger, title, failed) <==> s in ledger)
    ensures s in ledger ==> SaveFailed(ledger, title, failed)[s] == ledger[s]
  {
  }

  /** Before the intro is written, only the novel's own ledger file may have changed. */
  lemma FilledLedger(e: Env, w: World, novel: nat, title: string, all: seq<Record>, idx: seq<nat>)
    requires Indices(idx, |all|)
    ensures var w' := Filled(e, w, novel, title, all, idx);
      forall s | s != LedgerName(title) :: (s in w'.ledger <==> s in w.ledger) && (s in w.ledger ==> w'.ledger[s] == w.ledger[s])
  {
    var b := RunBatch(e, w, novel, all, idx);
    RunBatchFacts(e, w, novel, all, idx);
    var w1 := if b.failed == [] then b.world else b.world.(ledger := SaveFailed(b.world.ledger, title, b.failed));
    CompletenessFacts(e, w1, novel, b.recs);
    forall s | s != LedgerName(title) ensures (s in w1.ledger <==> s in w.ledger) && (s in w.ledger ==> w1.ledger[s] == w.ledger[s]) {
      SaveFailedOthers(b.world.ledger, title, b.failed, s);
    }
  }

  /** e's cleaner is CleanTitle, matched only where the code itself calls CleanTitle. */
  ghost predicate Cleans(e: Env) {
    forall t {:trigger CleanTitle(t)} :: e.clean(t) == CleanTitle(t)
  }

  /** Lines 507-512: copies of the listed dicts with their titles cleaned. */
  method CleanListing(all: seq<Record>, ghost e: Env) returns (cleaned: seq<Record>)
    requires Cleans(e)
    ensures cleaned == Recleaned(e, all)
  {
    cleaned := [];
    var i := 0;
    while i < |all|
      invariant 0 <= i <= |all|
      invariant cleaned == Recleaned(e, all[..i])
    {
      var c := all[i].(title := CleanTitle(all[i].title));
      assert Recleaned(e, all[..i + 1]) == Recleaned(e, all[..i]) + [c];
      cleaned := cleaned + [c];
      i := i + 1;
    }
    assert all[..|all|] == all;
  }

  /** Lines 520-528: the cleaned dicts whose title is not among the stored ones. */
  method MissingOf(cleaned: seq<Record>, chs: seq<Chapter>, novel: nat) returns (missing: seq<Record>)
    ensures missing == Filter(cleaned, Unstored(chs, novel))
  {
    missing := [];
    var i := 0;
    while i < |cleaned|
      invariant 0 <= i <= |cleaned|
      invariant missing == Filter(cleaned[..i], Unstored(chs, novel))
    {
      FilterSnoc(cleaned[..i], cleaned[i], Unstored(chs, novel));
      assert cleaned[..i + 1] == cleaned[..i] + [cleaned[i]];
      if !HasChapter(chs, novel, cleaned[i].title) {
        missing := missing + [cleaned[i]];
      }
      i := i + 1;
    }
    assert cleaned[..|cleaned|] == cleaned;
  }

  /** Lines 484-487: append, in turn, the failed dicts whose url is not among `urls`. */
  method AppendFresh(existing: seq<Record>, failed: seq<Record>, urls: set<string>) returns (data: seq<Record>)
    ensures data == existing + Filter(failed, FreshUrl(urls))
  {
    data := existing;
    var i := 0;
    while i < |failed|
      invariant 0 <= i <= |failed|
      invariant data == existing + Filter(failed[..i], FreshUrl(urls))
    {
      FilterSnoc(failed[..i], failed[i], FreshUrl(urls));
      assert failed[..i + 1] == failed[..i] + [failed[i]];
      if failed[i].url !in urls {
        data := data + [failed[i]];
      }
      i := i + 1;
    }
    assert failed[..|failed|] == failed;
  }

  /** Every cleaned title of the listing is stored: nothing is planned. */
  lemma AllStoredNothingPlanned(e: Env, chs: seq<Chapter>, novel: nat, all: seq<Record>)
    requires forall k | 0 <= k < |all| :: HasChapter(chs, novel, Recleaned(e, all)[k].title)
    ensures Plan(e, chs, novel, all) == []
  {
    forall j | 0 <= j < |all| ensures HasChapter(chs, novel, e.clean(all[j].title)) {
      assert Recleaned(e, all)[j].title == e.clean(all[j].title);
    }
    PlanEmpty(e, chs, novel, all);
  }

  // ---------------------------------------------------------------------------------------
  // The crawler object

  /** The Command object of crawl_xqbj.py as far as the bookkeeping goes: the browser, seen
      as the network oracle and a count of the chapter pages loaded, the failure directory,
      and the text the database gives for a duplicate (novel, title). */
  class Crawler {
    const fetch: (string, nat) -> Fetch
    const duplicateMessage: string
    var loads: nat
    var ledger: map<string, seq<Record>>

    constructor (fetch: (string, nat) -> Fetch, duplicateMessage: string, ledger: map<string, seq<Record>>)
      ensures this.fetch == fetch && this.duplicateMessage == duplicateMessage
      ensures this.ledger == ledger && loads == 0
    {
      this.fetch := fetch;
      this.duplicateMessage := duplicateMessage;
      this.ledger := ledger;
      loads := 0;
    }

    /** The fixed part of a run for a store whose filter words are `words`. */
    function EnvFor(words: seq<string>): Env {
      Env((t: string) => Stored(t, words), CleanTitle, fetch, duplicateMessage)
    }

    /** e is this crawler's environment for a store with filter words `words`: its save is
        Stored and its cleaner CleanTitle, each matched only where the code itself calls them. */
    ghost predicate Serves(e: Env, words: seq<string>) {
      && e.fetch == fetch && e.duplicateMessage == duplicateMessage
      && (forall t {:trigger Stored(t, words)} :: e.save(t) == Stored(t, words))
      && Cleans(e)
    }

    /** The environment the crawler's own saves and loads give. */
    lemma ServesEnvFor(words: seq<string>)
      ensures Serves(EnvFor(words), words)
    {
    }

    /** The store, the ledger and the page count as one value. */
    function State(db: Db): World
      reads this, db
    {
      World(db.novels, db.chapters, ledger, loads)
    }

    /** A chapter page load: goto, then the page script (lines 401-419). */
    method Load(url: string) returns (f: Fetch)
      modifies this
      ensures f == fetch(url, old(loads)) && loads == old(loads) + 1 && ledger == old(ledger)
    {
      f := fetch(url, loads);
      loads := loads + 1;
    }

    /** One turn of the retry loop (lines 399-455): load the page and, when the script found
        text, create the chapter; report how the attempt ends. */
    method TryOnce(db: Db, novel: nat, info': Record, title: string, ghost e: Env, ghost taken: bool)
      returns (a: Attempt)
      requires db.Valid() && novel < |db.novels| && Serves(e, db.filterWords)
      requires taken == HasChapter(db.chapters, novel, title)
      modifies this, db
      ensures db.Valid() && db.filterWords == old(db.filterWords)
      ensures a == Try(e, info'.url, old(loads), taken, 0)
      ensures State(db) == Settled(e, old(State(db)), novel, info', title, 0, a)
    {
      var f := Load(info'.url);
      assert f == fetch(info'.url, old(loads) + 0);
      match f
      case Loaded(content) =>
        if content != [] {
          var order := if info'.order.Some? then info'.order.value else ChapterNumber(info'.title);
          var r := db.CreateChapter(novel, title, content, order);
          if r.Ok? {
            return Wrote;
          }
          if UniqueViolation(duplicateMessage) {
            return Accepted;
          }
          return Retry;
        } else {
          return Retry;
        }
      case Raised(message) =>
        if UniqueViolation(message) {
          return Accepted;
        }
        return Retry;
    }

    /** The retry loop of process_chapter (lines 399-455), for a title not yet stored. */
    method RetryLoop(db: Db, novel: nat, info: Record, clean: string, title: string, ghost e: Env, ghost taken: bool)
      returns (ok: bool)
      requires db.Valid() && novel < |db.novels| && Serves(e, db.filterWords)
      requires taken == HasChapter(db.chapters, novel, title)
      modifies this, db
      ensures db.Valid() && db.filterWords == old(db.filterWords)
      ensures var r := RunCore(e, old(State(db)), novel, info, clean, title, false, taken);
        ok == r.ok && State(db) == r.world
    {
      var info' := info.(title := clean);
      ghost var w := State(db);
      var retry := 0;
      while retry < 3
        invariant 0 <= retry <= 3
        invariant db.Valid() && db.filterWords == old(db.filterWords)
        invariant State(db) == w.(loads := w.loads + retry)
        invariant FirstSettled(e, info.url, w.loads, taken, 0) == FirstSettled(e, info.url, w.loads, taken, retry)
      {
        ghost var t := loads;
        assert t == w.loads + retry;
        var a := TryOnce(db, novel, info', title, e, taken);
        assert a == Try(e, info.url, t, taken, 0);
        if a != Retry {
          RetryEnds(e, w, novel, info, clean, title, taken, retry, a);
          return true;
        }
        RetrySkips(e, info.url, w.loads, taken, retry);
        retry := retry + 1;
      }
      RunCoreSettles(e, w, novel, info, clean, title, taken, 3);
      return false;
    }

    /** The loop of lines 348-352 (and 540-548): process_chapter on each listed dict, the
        dict updated in place, the failed ones collected. */
    method ProcessBatch(db: Db, novel: nat, recs: seq<Record>, idx: seq<nat>, ghost e: Env)
      returns (failed: seq<Record>, recs': seq<Record>)
      requires db.Valid() && novel < |db.novels| && Serves(e, db.filterWords) && Indices(idx, |recs|)
      modifies this, db
      ensures db.Valid() && db.filterWords == old(db.filterWords)
      ensures db.novels == old(db.novels)
      ensures var b := RunBatch(e, old(State(db)), novel, recs, idx);
        State(db) == b.world && failed == b.failed && recs' == b.recs
    {
      ghost var w := State(db);
      failed := [];
      recs' := recs;
      var j := 0;
      while j < |idx|
        invariant 0 <= j <= |idx| && Indices(idx[..j], |recs|)
        invariant db.Valid() && db.filterWords == old(db.filterWords) && db.novels == w.novels
        invariant var b := RunBatch(e, w, novel, recs, idx[..j]);
          State(db) == b.world && failed == b.failed && recs' == b.recs
      {
        assert idx[..j + 1][..j] == idx[..j];
        var ok, info' := ProcessChapter(db, novel, recs'[idx[j]], e);
        ChapterRunAttempts(e, RunBatch(e, w, novel, recs, idx[..j]).world, novel, recs'[idx[j]]);
        if !ok {
          failed := failed + [info'];
        }
        recs' := recs'[idx[j] := info'];
        j := j + 1;
      }
      assert idx[..|idx|] == idx;
    }

    /** process_chapter (lines 377-461). */
    method ProcessChapter(db: Db, novel: nat, info: Record, ghost e: Env) returns (ok: bool, info': Record)
      requires db.Valid() && novel < |db.novels| && Serves(e, db.filterWords)
      modifies this, db
      ensures db.Valid() && db.filterWords == old(db.filterWords)
      ensures var r := RunChapter(e, old(State(db)), novel, info);
        ok == r.ok && info' == r.info && State(db) == r.world
    {
      var clean := CleanTitle(info.title);
      if HasChapter(db.chapters, novel, clean) {
        return true, info;
      }
      info' := info.(title := clean);
      var title := CleanTitle(clean);
      ok := RetryLoop(db, novel, info, clean, title, e, HasChapter(db.chapters, novel, title));
    }

    /** save_failed_chapters (lines 463-492): merge the failures into the novel's file. */
    method SaveFailedChapters(title: string, failed: seq<Record>)
      modifies this
      ensures ledger == SaveFailed(old(ledger), title, failed) && loads == old(loads)
    {
      var stem := LedgerName(title);
      var existing := if stem in ledger then ledger[stem] else [];
      var data := AppendFresh(existing, failed, Urls(existing));
      ledger := ledger[stem := data];
    }

    /** verify_chapters_completeness (lines 494-548). */
    method VerifyCompleteness(db: Db, novel: nat, all: seq<Record>, ghost e: Env)
      requires db.Valid() && novel < |db.novels| && Serves(e, db.filterWords)
      modifies this, db
      ensures db.Valid() && db.filterWords == old(db.filterWords) && db.novels == old(db.novels)
      ensures State(db) == Completeness(e, old(State(db)), novel, all)
    {
      var chs := db.chapters;
      var cleaned := CleanListing(all, e);
      if |cleaned| == CountOf(chs, novel) && forall k | 0 <= k < |cleaned| :: HasChapter(chs, novel, cleaned[k].title) {
        AllStoredNothingPlanned(e, chs, novel, all);
        return;
      }
      var missing := MissingOf(cleaned, chs, novel);
      if missing == [] {
        return;
      }
      var plan := WithOrders(Sort(missing, MissingKey));
      var _, _ := ProcessBatch(db, novel, plan, Range(|plan|), e);
    }

    /** One dict of the replay (lines 603-648): load the page; with text, create the chapter
        under the cleaned title, ordered by its number; otherwise keep the dict. */
    method RecoverNext(db: Db, novel: nat, r: Record, remaining: seq<Record>, ghost e: Env, ghost w: World,
                       ghost todo: seq<Record>)
      returns (remaining': seq<Record>)
      requires db.Valid() && novel < |db.novels| && Serves(e, db.filterWords)
      requires todo != [] && r == todo[|todo| - 1]
      requires var p := Recover(e, w, novel, todo[..|todo| - 1]); State(db) == p.world && remaining == p.remaining
      modifies this, db
      ensures db.Valid() && db.filterWords == old(db.filterWords)
      ensures var p := Recover(e, w, novel, todo); State(db) == p.world && remaining' == p.remaining
    {
      var f := Load(r.url);
      remaining' := remaining + [r];
      match f
      case Loaded(content) =>
        if content != [] {
          var clean := CleanTitle(r.title);
          var number := ChapterNumber(clean);
          var created := db.CreateChapter(novel, clean, content, number);
          if created.Ok? {
            remaining' := remaining;
          }
        }
      case Raised(_) =>
    }

    /** The loop of lines 603-648 over the dicts still to recover. */
    method RecoverAll(db: Db, novel: nat, todo: seq<Record>, ghost e: Env) returns (remaining: seq<Record>)
      requires db.Valid() && novel < |db.novels| && Serves(e, db.filterWords)
      modifies this, db
      ensures db.Valid() && db.filterWords == old(db.filterWords)
      ensures var p := Recover(e, old(State(db)), novel, todo); State(db) == p.world && remaining == p.remaining
    {
      ghost var w := State(db);
      remaining := [];
      var j := 0;
      while j < |todo|
        invariant 0 <= j <= |todo|
        invariant db.Valid() && db.filterWords == old(db.filterWords) && |db.novels| == |w.novels|
        invariant var p := Recover(e, w, novel, todo[..j]); State(db) == p.world && remaining == p.remaining
      {
        assert todo[..j + 1][..j] == todo[..j];
        remaining := RecoverNext(db, novel, todo[j], remaining, e, w, todo[..j + 1]);
        j := j + 1;
      }
      assert todo[..|todo|] == todo;
    }

    /** One ledger file of process_failed_chapters (lines 561-658); a file that cannot be
        read is skipped, as the exception handler of line 660 skips it. With `asWritten`
        the novel is looked up as lines 578-582 do, otherwise by the corrected lookup. */
    method ReplayLedgerFile(db: Db, stem: string, asWritten: bool, ghost e: Env)
      requires db.Valid() && Serves(e, db.filterWords)
      modifies this, db
      ensures db.Valid() && db.filterWords == old(db.filterWords)
      ensures State(db) == ReplayFile(e, old(State(db)), stem, asWritten)
    {
      if stem !in ledger {
        return;
      }
      var records := ledger[stem];
      if records == [] {
        return;
      }
      var owner := Lookup(db.novels, stem, asWritten);
      if owner.None? {
        return;
      }
      var novel := owner.value;
      var todo := Filter(records, Unstored(db.chapters, novel));
      if todo == [] {
        ledger := ledger - {stem};
        return;
      }
      var remaining := RecoverAll(db, novel, todo, e);
      if remaining != [] {
        ledger := ledger[stem := remaining];
      } else {
        ledger := ledger - {stem};
      }
    }

    /** process_failed_chapters (lines 554-661), over the ledger files in the order the
        directory lists them, with the lookup as written or corrected. */
    method ProcessFailedChapters(db: Db, stems: seq<string>, asWritten: bool, ghost e: Env)
      requires db.Valid() && Serves(e, db.filterWords)
      modifies this, db
      ensures db.Valid() && db.filterWords == old(db.filterWords)
      ensures State(db) == ReplayAll(e, old(State(db)), stems, asWritten)
    {
      ghost var w := State(db);
      var i := 0;
      while i < |stems|
        invariant 0 <= i <= |stems|
        invariant db.Valid() && db.filterWords == old(db.filterWords)
        invariant State(db) == ReplayAll(e, w, stems[..i], asWritten)
      {
        assert stems[..i + 1][..i] == stems[..i];
        ReplayLedgerFile(db, stems[i], asWritten, e);
        i := i + 1;
      }
      assert stems[..|stems|] == stems;
    }

    /** Lines 345-365 for a novel already chosen. */
    method FinishNovel(db: Db, novel: nat, title: string, all: seq<Record>, idx: seq<nat>, now: int, ghost e: Env)
      requires db.Valid() && novel < |db.novels| && Serves(e, db.filterWords) && Indices(idx, |all|)
      modifies this, db
      ensures db.Valid() && db.filterWords == old(db.filterWords)
      ensures State(db) == Finish(e, old(State(db)), novel, title, all, idx, now)
    {
      ghost var w := State(db);
      var failed, recs := ProcessBatch(db, novel, all, idx, e);
      ghost var b := RunBatch(e, w, novel, all, idx);
      if failed != [] {
        SaveFailedChapters(title, failed);
      }
      ghost var w1 := State(db);
      assert w1 == if b.failed == [] then b.world else b.world.(ledger := SaveFailed(b.world.ledger, title, b.failed));
      VerifyCompleteness(db, novel, recs, e);
      assert State(db) == Filled(e, w, novel, title, all, idx);
      var count := CountOf(db.chapters, novel);
      db.SetIntro(novel, CountIntro(count), now);
    }

    /** process_novel (lines 305-366) once the listing `all` has been read from the page. */
    method ProcessNovel(db: Db, info: NovelInfo, all: seq<Record>, now: int, ghost e: Env) returns (ok: bool)
      requires db.Valid() && Serves(e, db.filterWords)
      modifies this, db
      ensures db.Valid() && db.filterWords == old(db.filterWords)
      ensures var r := RunNovel(e, old(State(db)), info, all, now); ok == r.ok && State(db) == r.world
    {
      ghost var w := State(db);
      if all == [] {
        return false;
      }
      var found := FindNovel(db.novels, info.title);
      var novel: nat;
      var idx: seq<nat>;
      if found.Some? {
        novel := found.value;
        idx := NewIndices(db.chapters, novel, all);
        if idx == [] {
          assert RunNovel(e, w, info, all, now) == NovelRun(true, w);
          return true;
        }
        assert RunNovel(e, w, info, all, now) == NovelRun(true, Finish(e, w, novel, info.title, all, idx, now));
      } else {
        var created := db.CreateNovel(info.title, Names.UnknownAuthor, Slice(info.intro, 0, 200), info.url, now);
        novel := |db.novels| - 1;
        idx := Range(|all|);
        ghost var w1 := w.(novels := w.novels + [Novel(info.title, Names.UnknownAuthor, Slice(info.intro, 0, 200), info.url, now)]);
        assert State(db) == w1;
        assert RunNovel(e, w, info, all, now) == NovelRun(true, Finish(e, w1, novel, info.title, all, idx, now));
      }
      FinishNovel(db, novel, info.title, all, idx, now, e);
      return true;
    }
  }
}

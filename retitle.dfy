/** The two title-rewriting commands, update_chapter_titles.py and process_chapter_titles.py.
    Each walks chapters listed by (order, id), computes a new title from the title as loaded,
    and saves the chapter only when the title changed. A save that would give two chapters
    of one novel the same title is refused by the (novel, title) constraint, and the
    resulting IntegrityError ends the command, keeping the saves made before it. */
module Retitle {
  import opened Wrappers
  import opened Strings
  import opened Sorting
  import opened Titles
  import opened Store
  import opened Batch

  /** The chapter as a rename saves it: the new title and, when the save writes every
      field (`full`), the body cleaned again under `words`. */
  function Renamed(c: Chapter, title: string, full: bool, words: seq<string>): Chapter {
    c.(title := title, content := if full then Stored(c.content, words) else c.content)
  }

  /** The step of a renaming pass: a chapter is saved exactly when `rename` changes its
      title. */
  function RenameStep(rename: string -> string, full: bool, words: seq<string>): Chapter -> Option<Chapter> {
    (c: Chapter) => if rename(c.title) != c.title then Some(Renamed(c, rename(c.title), full, words)) else None
  }

  /** The save of chapter `id` under the step is refused: another chapter of its novel
      already carries the new title. */
  predicate Refused(chs: seq<Chapter>, id: nat, step: Chapter -> Option<Chapter>) {
    id < |chs| && step(chs[id]).Some? && TitleTaken(chs, id, step(chs[id]).value.title)
  }

  /** A renaming step writes a chapter only with a new title, keeps its novel and order,
      and touches the body only on a full save. */
  lemma RenameStepFacts(rename: string -> string, full: bool, words: seq<string>, c: Chapter)
    ensures var step := RenameStep(rename, full, words);
      && (step(c).Some? <==> rename(c.title) != c.title)
      && (step(c).Some? ==>
            && step(c).value.title == rename(c.title)
            && step(c).value.novel == c.novel && step(c).value.order == c.order
            && step(c).value.content == (if full then Stored(c.content, words) else c.content))
  {
  }

  /** Walks `ids` in order. Each chapter whose title `rename` changes is saved with the
      new title (and, when `full`, a freshly cleaned body) and counted; the first refused
      save ends the walk with the store as the chapters before it left it. */
  method RenameAll(db: Db, ids: seq<nat>, rename: string -> string, full: bool) returns (r: Result<nat, DbError>)
    requires db.Valid()
    requires NoRepeats(ids) && forall k | 0 <= k < |ids| :: ids[k] < |db.chapters|
    modifies db
    ensures db.Valid()
    ensures db.novels == old(db.novels) && db.filterWords == old(db.filterWords)
    ensures r.Ok? ==>
      && db.chapters == UpdateIn(old(db.chapters), Prefix(ids, |ids|), RenameStep(rename, full, old(db.filterWords)))
      && r.value == CountWritten(old(db.chapters), RenameStep(rename, full, old(db.filterWords)), ids, |ids|)
    ensures r.Err? ==>
      && r.error == DuplicateChapter
      && exists j | 0 <= j < |ids| ::
           && db.chapters == UpdateIn(old(db.chapters), Prefix(ids, j), RenameStep(rename, full, old(db.filterWords)))
           && Refused(db.chapters, ids[j], RenameStep(rename, full, old(db.filterWords)))
  {
    ghost var start := db.chapters;
    ghost var step := RenameStep(rename, full, db.filterWords);
    var count := 0;
    var j := 0;
    while j < |ids|
      invariant 0 <= j <= |ids|
      invariant db.Valid()
      invariant db.novels == old(db.novels) && db.filterWords == old(db.filterWords)
      invariant db.chapters == UpdateIn(start, Prefix(ids, j), step)
      invariant count == CountWritten(start, step, ids, j)
    {
      var res := RenameNext(db, start, ids, j, count, rename, full);
      if res.Err? {
        return Err(DuplicateChapter);
      }
      count := res.value;
      j := j + 1;
    }
    return Ok(count);
  }

  /** One turn of RenameAll: the chapter at position j is renamed when its title changes. */
  method RenameNext(db: Db, ghost start: seq<Chapter>, ids: seq<nat>, j: nat, count: nat,
                    rename: string -> string, full: bool)
    returns (r: Result<nat, DbError>)
    requires db.Valid() && j < |ids|
    requires NoRepeats(ids) && forall k | 0 <= k < |ids| :: ids[k] < |start|
    requires db.chapters == UpdateIn(start, Prefix(ids, j), RenameStep(rename, full, db.filterWords))
    requires count == CountWritten(start, RenameStep(rename, full, db.filterWords), ids, j)
    modifies db
    ensures db.Valid()
    ensures db.novels == old(db.novels) && db.filterWords == old(db.filterWords)
    ensures r.Ok? ==>
      && db.chapters == UpdateIn(start, Prefix(ids, j + 1), RenameStep(rename, full, db.filterWords))
      && r.value == CountWritten(start, RenameStep(rename, full, db.filterWords), ids, j + 1)
    ensures r.Err? ==>
      && db.chapters == old(db.chapters)
      && Refused(db.chapters, ids[j], RenameStep(rename, full, db.filterWords))
  {
    ghost var step := RenameStep(rename, full, db.filterWords);
    var id := ids[j];
    PrefixFresh(ids, j);
    UpdateStep(start, Prefix(ids, j), step, id);
    assert db.chapters[id] == start[id];
    var title := db.chapters[id].title;
    var newTitle := rename(title);
    if newTitle == title {
      assert db.chapters[id := Apply(start[id], step)] == db.chapters;
      return Ok(count);
    }
    var saved;
    if full {
      saved := db.SaveChapter(id, newTitle, db.chapters[id].content);
    } else {
      saved := db.SaveTitle(id, newTitle);
    }
    if saved.Err? {
      return Err(DuplicateChapter);
    }
    return Ok(count + 1);
  }

  /** update_chapter_titles.py:14 as a renaming: every one-space `YYYY-MM-DD HH:MM:SS`
      stamp removed, then the title stripped. */
  function Unstamped(title: string): string {
    StripStamps(title)
  }

  /** update_chapter_titles.py:8-21: every chapter, by (order, id), gets its title without
      stamps; a changed chapter is saved in full, so its body is cleaned again. On success
      the store is the whole pass applied to every chapter and the count is the number of
      chapters whose title changed; a refused save ends the pass with the chapters listed
      before it saved. */
  method UpdateChapterTitles(db: Db) returns (r: Result<nat, DbError>)
    requires db.Valid()
    modifies db
    ensures db.Valid()
    ensures db.novels == old(db.novels) && db.filterWords == old(db.filterWords)
    ensures r.Ok? ==>
      && db.chapters == UpdateIn(old(db.chapters), Ids(old(db.chapters)), RenameStep(Unstamped, true, old(db.filterWords)))
      && r.value == CountWrites(old(db.chapters), RenameStep(Unstamped, true, old(db.filterWords)), |old(db.chapters)|)
    ensures r.Err? ==>
      && r.error == DuplicateChapter
      && var ids := Query(old(db.chapters), AnyRow);
         exists j | 0 <= j < |ids| ::
           && db.chapters == UpdateIn(old(db.chapters), Prefix(ids, j), RenameStep(Unstamped, true, old(db.filterWords)))
           && Refused(db.chapters, ids[j], RenameStep(Unstamped, true, old(db.filterWords)))
  {
    ghost var start := db.chapters;
    var ids := Query(db.chapters, AnyRow);
    AllRowsDone(start, RenameStep(Unstamped, true, db.filterWords));
    r := RenameAll(db, ids, Unstamped, true);
  }

  /** update_chapter_titles.py:14-15: a title with no stamp and no whitespace at either
      end is not saved. */
  lemma UnstampedUntouched(c: Chapter, words: seq<string>)
    requires NoMatch(c.title, StampOneSpace)
    requires c.title == [] || (!IsSpace(c.title[0]) && !IsSpace(c.title[|c.title| - 1]))
    ensures RenameStep(Unstamped, true, words)(c).None?
  {
    StripStampsNoop(c.title);
    assert Unstamped(c.title) == c.title;
  }

  /** A title the pass wrote is left alone by a second pass when no stamp is left in it. */
  lemma UnstampedSettles(c: Chapter, words: seq<string>)
    requires NoMatch(Unstamped(c.title), StampOneSpace)
    ensures RenameStep(Unstamped, true, words)(Apply(c, RenameStep(Unstamped, true, words))).None?
  {
    var t := RemoveMatches(c.title, StampOneSpace);
    TrimByShape(t, IsSpace);
    var c' := Apply(c, RenameStep(Unstamped, true, words));
    if c'.title != c.title {
      assert c'.title == Unstamped(c.title);
      UnstampedUntouched(c', words);
    } else {
      assert c.title == Unstamped(c.title);
      UnstampedUntouched(c, words);
    }
  }

  /** The options of process_chapter_titles.py. `replace` is None when --replace is not
      given; --pattern is the pair of functions passed beside the options. */
  datatype TitleOptions = TitleOptions(novel: Option<string>, replace: Option<string>, remove: bool, preview: bool)

  /** What process_chapter_titles reports. */
  datatype Report =
    | BothModes            // --remove together with a non-empty --replace (lines 22-24)
    | NoMode               // neither --remove nor a non-empty --replace (lines 26-28)
    | NoNovel              // --novel matched no novel title (lines 33-36)
    | NothingMatched       // no chapter title matched the pattern (lines 45-47)
    | Previewed(matched: nat)  // preview mode: the number of matching chapters (line 70)
    | Updated(count: nat)  // the number of titles rewritten (line 72)

  /** A Python string option is truthy when given and non-empty. */
  predicate Given(o: Option<string>) {
    o.Some? && o.value != []
  }

  /** ASCII upper case to lower case; other characters are kept. */
  function Fold(c: char): char {
    if 'A' <= c <= 'Z' then (c as int + 32) as char else c
  }

  function Lower(s: string): (r: string)
    ensures |r| == |s| && forall i | 0 <= i < |s| :: r[i] == Fold(s[i])
  {
    if s == [] then [] else [Fold(s[0])] + Lower(s[1..])
  }

  /** title__icontains: `w` occurs in `s` ignoring ASCII case. */
  predicate IContains(s: string, w: string) {
    Contains(Lower(s), Lower(w))
  }

  /** Some novel's title contains the needle, ignoring case (novels.exists()). */
  predicate AnyNovelMatches(ns: seq<Novel>, needle: string) {
    exists i | 0 <= i < |ns| :: IContains(ns[i].title, needle)
  }

  /** The chapters the query of lines 31-37 keeps: all of them, or with --novel those of
      the novels whose title contains the needle. */
  function InScope(chs: seq<Chapter>, ns: seq<Novel>, needle: Option<string>): nat -> bool {
    (id: nat) => id < |chs| &&
      (!Given(needle) || (chs[id].novel < |ns| && IContains(ns[chs[id].novel].title, needle.value)))
  }

  /** The chapters of the query whose title the pattern matches (lines 40-43). */
  function Chosen(chs: seq<Chapter>, ns: seq<Novel>, needle: Option<string>, matches: string -> bool): nat -> bool {
    (id: nat) => InScope(chs, ns, needle)(id) && matches(chs[id].title)
  }

  /** The title kept on the right of the substitution: '' with --remove, else --replace. */
  function Replacement(opts: TitleOptions): string {
    if opts.remove || opts.replace.None? then [] else opts.replace.value
  }

  /** A pattern substitution, as a renaming of t. */
  function Substituted(substitute: (string, string) -> string, repl: string): string -> string {
    (t: string) => substitute(t, repl)
  }

  /** The step that takes every chapter: counting with it counts the chapters. */
  function Always(c: Chapter): Option<Chapter> {
    Some(c)
  }

  /** The renaming of the update mode (lines 62-67): the substituted title, saved with
      only the title column. */
  function TitleStep(opts: TitleOptions, substitute: (string, string) -> string, words: seq<string>): Chapter -> Option<Chapter> {
    RenameStep(Substituted(substitute, Replacement(opts)), false, words)
  }

  /** Some chapter is chosen. */
  predicate AnyChosen(chs: seq<Chapter>, sel: nat -> bool) {
    exists i | 0 <= i < |chs| :: sel(i)
  }

  /** The chapters lines 40-43 collect, in (order, id) order. */
  function Matching(chs: seq<Chapter>, ns: seq<Novel>, needle: Option<string>, matches: string -> bool): seq<nat> {
    Filter<nat>(Query(chs, InScope(chs, ns, needle)), TitleMatches(chs, matches))
  }

  /** process_chapter_titles.py:15-72. `matches(t)` is re.search(pattern, t) finding a
      match and `substitute(t, s)` is re.sub(pattern, s, t). Invalid options and an
      unmatched --novel change nothing; otherwise the chapters in scope whose title
      matches are collected in (order, id) order and, unless previewing, each one whose
      substituted title differs is saved with only the title column written. */
  method ProcessChapterTitles(db: Db, opts: TitleOptions, matches: string -> bool,
                              substitute: (string, string) -> string)
    returns (r: Result<Report, DbError>)
    requires db.Valid()
    modifies db
    ensures db.Valid()
    ensures db.novels == old(db.novels) && db.filterWords == old(db.filterWords)
    ensures opts.remove && Given(opts.replace) ==> r == Ok(BothModes) && db.chapters == old(db.chapters)
    ensures !opts.remove && !Given(opts.replace) ==> r == Ok(NoMode) && db.chapters == old(db.chapters)
    ensures (opts.remove != Given(opts.replace)) && Given(opts.novel) && !AnyNovelMatches(db.novels, opts.novel.value) ==>
      r == Ok(NoNovel) && db.chapters == old(db.chapters)
    ensures (opts.remove != Given(opts.replace)) && (Given(opts.novel) ==> AnyNovelMatches(db.novels, opts.novel.value)) ==>
      Rewrote(old(db.chapters), db.chapters, db.novels, opts, matches, substitute, db.filterWords, r)
  {
    if opts.remove && Given(opts.replace) {
      return Ok(BothModes);
    }
    if !(opts.remove || Given(opts.replace)) {
      return Ok(NoMode);
    }
    if Given(opts.novel) && !AnyNovelMatches(db.novels, opts.novel.value) {
      return Ok(NoNovel);
    }
    r := RewriteChosen(db, opts, matches, substitute);
  }

  /** The outcome of lines 31-72 once the options are valid: no chosen chapter reports
      NothingMatched and a preview reports how many were chosen, both changing nothing; an
      update rewrites each chosen chapter whose title the substitution changes and counts
      those; a refused save ends it with the chapters collected before it rewritten. */
  ghost predicate Rewrote(before: seq<Chapter>, after: seq<Chapter>, ns: seq<Novel>, opts: TitleOptions,
                          matches: string -> bool, substitute: (string, string) -> string,
                          words: seq<string>, r: Result<Report, DbError>)
  {
    var sel := Chosen(before, ns, opts.novel, matches);
    var step := TitleStep(opts, substitute, words);
    && (!AnyChosen(before, sel) ==> r == Ok(NothingMatched) && after == before)
    && (AnyChosen(before, sel) && opts.preview ==>
          r == Ok(Previewed(SelWrites(before, Always, sel, |before|))) && after == before)
    && (AnyChosen(before, sel) && !opts.preview && r.Ok? ==>
          r.value == Updated(SelWrites(before, step, sel, |before|)) && after == UpdateWhere(before, sel, step))
    && (r.Err? ==>
          && r.error == DuplicateChapter && !opts.preview && AnyChosen(before, sel)
          && var m := Matching(before, ns, opts.novel, matches);
             exists j | 0 <= j < |m| :: after == UpdateIn(before, Prefix(m, j), step) && Refused(after, m[j], step))
  }

  /** Lines 31-72 with valid options. */
  method RewriteChosen(db: Db, opts: TitleOptions, matches: string -> bool,
                       substitute: (string, string) -> string)
    returns (r: Result<Report, DbError>)
    requires db.Valid()
    modifies db
    ensures db.Valid()
    ensures db.novels == old(db.novels) && db.filterWords == old(db.filterWords)
    ensures Rewrote(old(db.chapters), db.chapters, db.novels, opts, matches, substitute, db.filterWords, r)
  {
    ghost var start := db.chapters;
    var query := Query(db.chapters, InScope(db.chapters, db.novels, opts.novel));
    var matching := CollectMatching(db.chapters, matches, query);
    MatchingFacts(start, db.novels, opts.novel, matches);
    if |matching| == 0 {
      RewroteNone(start, db.novels, opts, matches, substitute, db.filterWords);
      return Ok(NothingMatched);
    }
    if opts.preview {
      RewrotePreview(start, db.novels, opts, matches, substitute, db.filterWords);
      return Ok(Previewed(|matching|));
    }
    var res := RenameAll(db, matching, Substituted(substitute, Replacement(opts)), false);
    if res.Err? {
      r := Err(DuplicateChapter);
    } else {
      r := Ok(Updated(res.value));
    }
    RewroteUpdate(start, db.chapters, db.novels, opts, matches, substitute, db.filterWords, res, r);
  }

  /** The chapters Matching lists: each chosen chapter, once. */
  lemma MatchingFacts(chs: seq<Chapter>, ns: seq<Novel>, needle: Option<string>, matches: string -> bool)
    ensures var m := Matching(chs, ns, needle, matches);
      && NoRepeats(m)
      && (forall k | 0 <= k < |m| :: m[k] < |chs| && Chosen(chs, ns, needle, matches)(m[k]))
      && (forall i | 0 <= i < |chs| && Chosen(chs, ns, needle, matches)(i) :: i in m)
  {
    QueryFacts(chs, InScope(chs, ns, needle));
    ChosenFacts(chs, ns, needle, matches, Query(chs, InScope(chs, ns, needle)));
  }

  /** Lines 45-47: nothing collected, nothing chosen. */
  lemma RewroteNone(chs: seq<Chapter>, ns: seq<Novel>, opts: TitleOptions, matches: string -> bool,
                    substitute: (string, string) -> string, words: seq<string>)
    requires Matching(chs, ns, opts.novel, matches) == []
    ensures Rewrote(chs, chs, ns, opts, matches, substitute, words, Ok(NothingMatched))
  {
    MatchingFacts(chs, ns, opts.novel, matches);
    assert !AnyChosen(chs, Chosen(chs, ns, opts.novel, matches));
  }

  /** Lines 53-70: the preview reports the number of chapters collected. */
  lemma RewrotePreview(chs: seq<Chapter>, ns: seq<Novel>, opts: TitleOptions, matches: string -> bool,
                       substitute: (string, string) -> string, words: seq<string>)
    requires Matching(chs, ns, opts.novel, matches) != [] && opts.preview
    ensures Rewrote(chs, chs, ns, opts, matches, substitute, words,
                    Ok(Previewed(|Matching(chs, ns, opts.novel, matches)|)))
  {
    var m := Matching(chs, ns, opts.novel, matches);
    var sel := Chosen(chs, ns, opts.novel, matches);
    MatchingFacts(chs, ns, opts.novel, matches);
    assert m[0] < |chs| && sel(m[0]);
    ListDone(chs, Always, m, sel);
    CountAll(chs, m, |m|);
  }

  /** Lines 61-72: the outcome of renaming the collected chapters. */
  lemma RewroteUpdate(before: seq<Chapter>, after: seq<Chapter>, ns: seq<Novel>, opts: TitleOptions,
                      matches: string -> bool, substitute: (string, string) -> string, words: seq<string>,
                      res: Result<nat, DbError>, r: Result<Report, DbError>)
    requires Matching(before, ns, opts.novel, matches) != [] && !opts.preview
    requires r == if res.Err? then Err(DuplicateChapter) else Ok(Updated(res.value))
    requires var m := Matching(before, ns, opts.novel, matches);
      var step := TitleStep(opts, substitute, words);
      && (res.Ok? ==>
            && after == UpdateIn(before, Prefix(m, |m|), step)
            && res.value == CountWritten(before, step, m, |m|))
      && (res.Err? ==>
            exists j | 0 <= j < |m| :: after == UpdateIn(before, Prefix(m, j), step) && Refused(after, m[j], step))
    ensures Rewrote(before, after, ns, opts, matches, substitute, words, r)
  {
    var m := Matching(before, ns, opts.novel, matches);
    var sel := Chosen(before, ns, opts.novel, matches);
    var step := TitleStep(opts, substitute, words);
    MatchingFacts(before, ns, opts.novel, matches);
    assert m[0] < |before| && sel(m[0]);
    ListDone(before, step, m, sel);
    UpdateInWhere(before, Prefix(m, |m|), sel, step);
  }

  /** The pattern test of line 41 on a chapter id. */
  function TitleMatches(chs: seq<Chapter>, matches: string -> bool): nat -> bool {
    (id: nat) => id < |chs| && matches(chs[id].title)
  }

  /** Lines 40-43: the queried chapters whose title the pattern matches, in query order. */
  method CollectMatching(chs: seq<Chapter>, matches: string -> bool, query: seq<nat>)
    returns (matching: seq<nat>)
    ensures matching == Filter<nat>(query, TitleMatches(chs, matches))
  {
    matching := [];
    var j := 0;
    while j < |query|
      invariant 0 <= j <= |query|
      invariant matching == Filter<nat>(query[..j], TitleMatches(chs, matches))
    {
      FilterSnoc<nat>(query[..j], query[j], TitleMatches(chs, matches));
      assert query[..j + 1] == query[..j] + [query[j]];
      if query[j] < |chs| && matches(chs[query[j]].title) {
        matching := matching + [query[j]];
      }
      j := j + 1;
    }
    assert query[..j] == query;
  }

  /** What filtering the query by the pattern keeps: each chosen chapter, once. */
  lemma ChosenFacts(chs: seq<Chapter>, ns: seq<Novel>, needle: Option<string>,
                    matches: string -> bool, query: seq<nat>)
    requires NoRepeats(query)
    requires forall k | 0 <= k < |query| :: query[k] < |chs| && InScope(chs, ns, needle)(query[k])
    requires forall i | 0 <= i < |chs| && InScope(chs, ns, needle)(i) :: i in query
    ensures var m := Filter<nat>(query, TitleMatches(chs, matches));
      && NoRepeats(m)
      && (forall k | 0 <= k < |m| :: m[k] < |chs| && Chosen(chs, ns, needle, matches)(m[k]))
      && (forall i | 0 <= i < |chs| && Chosen(chs, ns, needle, matches)(i) :: i in m)
  {
    var keep := TitleMatches(chs, matches);
    var m := Filter<nat>(query, keep);
    FilterNoRepeats<nat>(query, keep);
    forall k | 0 <= k < |m| ensures m[k] < |chs| && Chosen(chs, ns, needle, matches)(m[k]) {
      assert m[k] in m;
      var x :| 0 <= x < |query| && query[x] == m[k];
    }
    forall i: nat | i < |chs| && Chosen(chs, ns, needle, matches)(i) ensures i in m {
      FilterMembers<nat>(query, keep, i);
    }
  }

  /** Counting with a step that writes every chapter counts the list. */
  lemma {:induction false} CountAll(chs: seq<Chapter>, l: seq<nat>, j: nat)
    requires j <= |l| && forall k | 0 <= k < |l| :: l[k] < |chs|
    ensures CountWritten(chs, Always, l, j) == j
  {
    if j > 0 {
      CountAll(chs, l, j - 1);
    }
  }
}

/** The admin actions that rewrite chapter bodies (admin.py): ChapterAdmin.reprocess_paragraphs
    on the selected chapters and FilterWordAdmin.execute_cleaning over every chapter. Both
    write with chapter.save(), so each body they write passes through clean_content again. */
module Actions {
  import opened Wrappers
  import opened Strings
  import opened Sorting
  import opened Content
  import opened Store
  import opened Batch

  /** reprocess_paragraphs for one chapter: the reflowed body, as the save stores it. */
  function ReflowStep(words: seq<string>): Chapter -> Option<Chapter> {
    (c: Chapter) => Some(c.(content := Stored(Reflowed(c.content), words)))
  }

  /** admin.py:236-282: every selected chapter gets its body reflowed and saved; nothing
      else changes, and every chapter counts as a success. */
  method ReprocessSelected(db: Db, ids: seq<nat>) returns (successCount: nat)
    requires db.Valid()
    requires NoRepeats(ids) && forall k | 0 <= k < |ids| :: ids[k] < |db.chapters|
    modifies db
    ensures db.Valid()
    ensures db.novels == old(db.novels) && db.filterWords == old(db.filterWords)
    ensures |db.chapters| == |old(db.chapters)|
    ensures forall i | 0 <= i < |old(db.chapters)| ::
      db.chapters[i] == if i in ids
        then old(db.chapters)[i].(content := Stored(Reflowed(old(db.chapters)[i].content), old(db.filterWords)))
        else old(db.chapters)[i]
    ensures successCount == |ids|
  {
    ghost var start := db.chapters;
    successCount := 0;
    var j := 0;
    while j < |ids|
      invariant 0 <= j <= |ids|
      invariant db.Valid()
      invariant db.novels == old(db.novels) && db.filterWords == old(db.filterWords)
      invariant db.chapters == UpdateIn(start, Prefix(ids, j), ReflowStep(db.filterWords))
      invariant successCount == j
    {
      ReflowNext(db, start, ids, j);
      successCount := successCount + 1;
      j := j + 1;
    }
    PrefixMembers(ids, |ids|);
    assert ids[..|ids|] == ids;
  }

  /** One turn of reprocess_paragraphs: the chapter at position j is reflowed and saved. */
  method ReflowNext(db: Db, ghost start: seq<Chapter>, ids: seq<nat>, j: nat)
    requires db.Valid() && j < |ids|
    requires NoRepeats(ids) && forall k | 0 <= k < |ids| :: ids[k] < |start|
    requires db.chapters == UpdateIn(start, Prefix(ids, j), ReflowStep(db.filterWords))
    modifies db
    ensures db.Valid()
    ensures db.novels == old(db.novels) && db.filterWords == old(db.filterWords)
    ensures db.chapters == UpdateIn(start, Prefix(ids, j + 1), ReflowStep(db.filterWords))
  {
    var id := ids[j];
    PrefixFresh(ids, j);
    UpdateStep(start, Prefix(ids, j), ReflowStep(db.filterWords), id);
    var content := ReprocessParagraphs(db.chapters[id].content);
    db.SaveContent(id, content);
  }

  /** The reflow yields one line, because the new-paragraph branch of admin.py:257 never
      runs, and the save keeps it one line: a reprocessed body is stored without a line
      feed, however many lines it had. */
  lemma ReprocessedOneLine(content: string, words: seq<string>)
    ensures '\n' !in Stored(Reflowed(content), words)
  {
    var r := Reflowed(content);
    ReflowedOneLine(content);
    assert AllChars(r, NotBreak);
    RemoveWordsKeeps(r, words, NotBreak);
    var t := RemoveWords(r, words);
    assert '\n' !in t && '\r' !in t by {
      forall i | 0 <= i < |t| ensures NotBreak(t[i]) { }
    }
    NormalizeNewlinesNoop(t);
    SplitNoSep(t, '\n');
    CleanTextParagraphs(r, words);
    var ps := MarkAll(Kept(Split(NormalizeNewlines(t), '\n')));
    assert |ps| <= 1;
    if |ps| == 1 {
      assert ParagraphLine(ps[0]);
    }
  }

  /** What execute_cleaning reports: a warning when no word is selected, else the number
      of chapters and the number cleaned (admin.py:304-326). */
  datatype CleaningReport = NoWordSelected | CleaningDone(total: nat, cleaned: nat)

  /** execute_cleaning for one chapter: the body with the selected words removed, written
      only when that changed it, and then cleaned by the save under all filter words. */
  function ScrubStep(selected: seq<string>, words: seq<string>): Chapter -> Option<Chapter> {
    (c: Chapter) =>
      var t := RemoveWords(c.content, selected);
      if t != c.content then Some(c.(content := Stored(t, words))) else None
  }

  /** A chapter is written exactly when one of the selected words (a non-empty one) occurs
      in its body. */
  lemma ScrubStepFacts(selected: seq<string>, words: seq<string>, c: Chapter)
    ensures ScrubStep(selected, words)(c).Some? <==>
      exists k | 0 <= k < |selected| :: selected[k] != [] && Contains(c.content, selected[k])
    ensures ScrubStep(selected, words)(c).Some? ==>
      ScrubStep(selected, words)(c).value == c.(content := Stored(RemoveWords(c.content, selected), words))
  {
    RemoveWordsChanges(c.content, selected);
  }

  /** admin.py:314-316: each selected word in turn has all of its occurrences removed from the text. */
  method RemoveSelected(content: string, selected: seq<string>) returns (cleaned: string)
    ensures cleaned == RemoveWords(content, selected)
  {
    cleaned := content;
    var i := 0;
    while i < |selected|
      invariant 0 <= i <= |selected|
      invariant RemoveWords(cleaned, selected[i..]) == RemoveWords(content, selected)
    {
      assert selected[i..][1..] == selected[i + 1..];
      cleaned := ReplaceAll(cleaned, selected[i], []);
      i := i + 1;
    }
  }

  /** admin.py:296-333: with no word selected nothing happens; otherwise every chapter,
      by (order, id), has the selected words removed from its body and is saved and counted
      when that changed it. */
  method ExecuteCleaning(db: Db, selected: seq<string>) returns (r: CleaningReport)
    requires db.Valid()
    modifies db
    ensures db.Valid()
    ensures db.novels == old(db.novels) && db.filterWords == old(db.filterWords)
    ensures selected == [] ==> r == NoWordSelected && db.chapters == old(db.chapters)
    ensures selected != [] ==>
      && db.chapters == UpdateIn(old(db.chapters), Ids(old(db.chapters)), ScrubStep(selected, old(db.filterWords)))
      && r == CleaningDone(|old(db.chapters)|,
                           CountWrites(old(db.chapters), ScrubStep(selected, old(db.filterWords)), |old(db.chapters)|))
  {
    if selected == [] {
      return NoWordSelected;
    }
    ghost var start := db.chapters;
    var chapters := Query(db.chapters, AnyRow);
    AllRowsDone(start, ScrubStep(selected, db.filterWords));
    var total := |db.chapters|;
    var cleaned := 0;
    var j := 0;
    while j < |chapters|
      invariant 0 <= j <= |chapters|
      invariant db.Valid()
      invariant db.novels == old(db.novels) && db.filterWords == old(db.filterWords)
      invariant db.chapters == UpdateIn(start, Prefix(chapters, j), ScrubStep(selected, db.filterWords))
      invariant cleaned == CountWritten(start, ScrubStep(selected, db.filterWords), chapters, j)
    {
      cleaned := ScrubNext(db, start, chapters, j, cleaned, selected);
      j := j + 1;
    }
    return CleaningDone(total, cleaned);
  }

  /** One turn of execute_cleaning: the chapter at position j is cleaned of the selected
      words and saved when that changed it. */
  method ScrubNext(db: Db, ghost start: seq<Chapter>, ids: seq<nat>, j: nat, cleaned: nat, selected: seq<string>)
    returns (cleaned': nat)
    requires db.Valid() && j < |ids|
    requires NoRepeats(ids) && forall k | 0 <= k < |ids| :: ids[k] < |start|
    requires db.chapters == UpdateIn(start, Prefix(ids, j), ScrubStep(selected, db.filterWords))
    requires cleaned == CountWritten(start, ScrubStep(selected, db.filterWords), ids, j)
    modifies db
    ensures db.Valid()
    ensures db.novels == old(db.novels) && db.filterWords == old(db.filterWords)
    ensures db.chapters == UpdateIn(start, Prefix(ids, j + 1), ScrubStep(selected, db.filterWords))
    ensures cleaned' == CountWritten(start, ScrubStep(selected, db.filterWords), ids, j + 1)
  {
    var id := ids[j];
    PrefixFresh(ids, j);
    UpdateStep(start, Prefix(ids, j), ScrubStep(selected, db.filterWords), id);
    var original := db.chapters[id].content;
    var cleanedContent := RemoveSelected(original, selected);
    if original != cleanedContent {
      db.SaveContent(id, cleanedContent);
      cleaned' := cleaned + 1;
    } else {
      assert db.chapters[id := db.chapters[id]] == db.chapters;
      cleaned' := cleaned;
    }
  }
}

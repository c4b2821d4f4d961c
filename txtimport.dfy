/** Importing novels from TXT files: the import_txt_novels command (a folder of files, read
    in text mode) and the admin upload view (one uploaded file, decoded from bytes). Both
    detect the encoding, split the text at chapter headings, create the novel under a title
    made unused, and create one chapter per heading under a title made unique in the novel. */
module TxtImport {
  import opened Wrappers
  import opened Strings
  import Content
  import opened Store
  import opened Headings
  import opened Names
  import Sorting

  /** The codecs tried, in the order both importers try them. */
  datatype Encoding = Utf8 | Gb18030 | Gbk | Gb2312 | Big5 | Utf16

  const Encodings: seq<Encoding> := [Utf8, Gb18030, Gbk, Gb2312, Big5, Utf16]

  /** A byte string decoded: the codec that accepted it and the text. */
  datatype Decoded = Decoded(encoding: Encoding, text: string)

  /** The first codec of `encs` that decodes the bytes without error; `decode` stands for
      the codecs themselves. */
  function FirstDecoding(decode: (Encoding, seq<bv8>) -> Option<string>, data: seq<bv8>, encs: seq<Encoding>):
    Option<Decoded>
  {
    if encs == [] then None
    else match decode(encs[0], data)
      case Some(text) => Some(Decoded(encs[0], text))
      case None => FirstDecoding(decode, data, encs[1..])
  }

  /** The detected codec is the first one in the list that accepts the bytes, and the text
      is what it decodes them to; nothing is detected only when every codec refuses. */
  lemma {:induction false} FirstDecodingFacts(decode: (Encoding, seq<bv8>) -> Option<string>, data: seq<bv8>,
                                              encs: seq<Encoding>)
    ensures var r := FirstDecoding(decode, data, encs);
      && (r.None? <==> forall i | 0 <= i < |encs| :: decode(encs[i], data).None?)
      && (r.Some? ==> exists i | 0 <= i < |encs| ::
            && encs[i] == r.value.encoding && decode(encs[i], data) == Some(r.value.text)
            && forall j | 0 <= j < i :: decode(encs[j], data).None?)
  {
    if encs != [] {
      FirstDecodingFacts(decode, data, encs[1..]);
      var r := FirstDecoding(decode, data, encs);
      if decode(encs[0], data).None? {
        if r.Some? {
          var i :| 0 <= i < |encs[1..]| && encs[1..][i] == r.value.encoding
            && decode(encs[1..][i], data) == Some(r.value.text)
            && forall j | 0 <= j < i :: decode(encs[1..][j], data).None?;
          assert encs[i + 1] == r.value.encoding && decode(encs[i + 1], data) == Some(r.value.text);
        } else {
          forall i | 0 <= i < |encs| ensures decode(encs[i], data).None? {
            if i > 0 { assert encs[i] == encs[1..][i - 1]; }
          }
        }
      } else {
        assert encs[0] == r.value.encoding && decode(encs[0], data) == Some(r.value.text);
      }
    }
  }

  /** GBK and GB2312 come after GB18030, which accepts everything they accept: wherever that
      holds for the bytes at hand, neither of the two is ever the detected codec. */
  lemma ShadowedCodecs(decode: (Encoding, seq<bv8>) -> Option<string>, data: seq<bv8>)
    requires decode(Gbk, data).Some? ==> decode(Gb18030, data).Some?
    requires decode(Gb2312, data).Some? ==> decode(Gb18030, data).Some?
    ensures var r := FirstDecoding(decode, data, Encodings);
      r.Some? ==> r.value.encoding != Gbk && r.value.encoding != Gb2312
  {
    FirstDecodingFacts(decode, data, Encodings);
  }

  /** The loop over the codecs (import_txt_novels.py:49-60, admin.py:105-120). */
  method DetectEncoding(decode: (Encoding, seq<bv8>) -> Option<string>, data: seq<bv8>) returns (r: Option<Decoded>)
    ensures r == FirstDecoding(decode, data, Encodings)
  {
    var i := 0;
    while i < |Encodings|
      invariant 0 <= i <= |Encodings|
      invariant FirstDecoding(decode, data, Encodings[i..]) == FirstDecoding(decode, data, Encodings)
    {
      var text := decode(Encodings[i], data);
      if text.Some? {
        return Some(Decoded(Encodings[i], text.value));
      }
      assert Encodings[i..][1..] == Encodings[i + 1..];
      i := i + 1;
    }
    return None;
  }

  /** The loop that suffixes a title until it is free: `base`, then base(1), base(2), … */
  method Dedupe(base: string, used: set<string>) returns (r: string)
    ensures r == FirstFree(base, used, 0)
  {
    r := base;
    var counter := 1;
    while r in used
      invariant counter >= 1 && Tried(base, counter - 1) <= used
      invariant r == Candidate(base, counter - 1)
      invariant FirstFree(base, used, counter - 1) == FirstFree(base, used, 0)
      decreases |used - Tried(base, counter - 1)|
    {
      CandidateNew(base, counter - 1, counter - 1);
      assert used - Tried(base, counter) == (used - Tried(base, counter - 1)) - {r};
      r := base + "(" + Decimal(counter) + ")";
      counter := counter + 1;
    }
  }

  /** The titles of the stored novels. */
  function NovelTitles(ns: seq<Novel>): (ts: set<string>)
    ensures forall t :: t in ts <==> FindNovel(ns, t).Some?
  {
    var ts := set i | 0 <= i < |ns| :: ns[i].title;
    assert forall t | FindNovel(ns, t).Some? :: ns[FindNovel(ns, t).value].title in ts;
    ts
  }

  /** The chapter cut from `s` at heading k: the text from the heading to the next one,
      stripped and then cleaned by the save, under its title, with the default order 0. */
  function Section(s: string, hs: seq<Heading>, titles: seq<string>, novel: nat, words: seq<string>, k: nat): Chapter
    requires k < |hs| == |titles|
  {
    Chapter(novel, titles[k], Stored(Body(s, hs, k), words), 0)
  }

  /** The chapters cut at the first n headings. */
  function Sections(s: string, hs: seq<Heading>, titles: seq<string>, novel: nat, words: seq<string>, n: nat):
    (r: seq<Chapter>)
    requires n <= |hs| == |titles|
    ensures |r| == n
  {
    seq(n, k requires 0 <= k < n => Section(s, hs, titles, novel, words, k))
  }

  lemma SectionsSnoc(before: seq<Chapter>, s: string, hs: seq<Heading>, titles: seq<string>, novel: nat,
                     words: seq<string>, n: nat)
    requires n < |hs| == |titles|
    ensures before + Sections(s, hs, titles, novel, words, n + 1)
      == before + Sections(s, hs, titles, novel, words, n) + [Section(s, hs, titles, novel, words, n)]
  {
    var a := Sections(s, hs, titles, novel, words, n + 1);
    var init := Sections(s, hs, titles, novel, words, n);
    var b := init + [Section(s, hs, titles, novel, words, n)];
    forall k | 0 <= k < n + 1 ensures a[k] == b[k] {
      if k < n {
        assert b[k] == init[k];
      }
    }
    assert a == b;
  }

  /** The chapters an import creates for novel id `novel` from text `s`. */
  function ImportedChapters(novel: nat, s: string, words: seq<string>): (r: seq<Chapter>) {
    var hs := FindHeadings(s);
    Sections(s, hs, DedupeAll(HeadingTitles(hs)), novel, words, |hs|)
  }

  /** The novel an import creates: the title and author from the file name (`title-author`,
      both stripped), the title made unused among the stored novels, the opening of the
      text as the introduction. */
  function ImportedNovel(ns: seq<Novel>, name: string, s: string, url: string, now: int): Novel {
    var parts := SplitName(Stem(name));
    Novel(FirstFree(Strip(parts.0), NovelTitles(ns), 0), Strip(parts.1), Intro(s), url, now)
  }

  /** The tables after an import, and the chapter count reported (None: no heading found). */
  datatype Outcome = Outcome(novels: seq<Novel>, chapters: seq<Chapter>, count: Option<nat>)

  /** An import of text `s` from the file `name`: nothing when no heading is found, else
      one new novel and its chapters. */
  function AfterImport(ns: seq<Novel>, chs: seq<Chapter>, words: seq<string>, name: string, s: string,
                       url: string, now: int): Outcome
  {
    var hs := FindHeadings(s);
    if hs == [] then Outcome(ns, chs, None)
    else Outcome(ns + [ImportedNovel(ns, name, s, url, now)], chs + ImportedChapters(|ns|, s, words), Some(|hs|))
  }

  /** The new novel's title is not taken by any stored novel, and is the first free one of
      the stripped file-name title, its (1), its (2), … */
  lemma ImportedNovelFresh(ns: seq<Novel>, name: string, s: string, url: string, now: int)
    ensures var n := ImportedNovel(ns, name, s, url, now);
      && FindNovel(ns, n.title).None?
      && FreshTitle(Strip(SplitName(Stem(name)).0), NovelTitles(ns), n.title)
  {
    FirstFreeFacts(Strip(SplitName(Stem(name)).0), NovelTitles(ns), 0);
  }

  /** One chapter per heading, all of the new novel and of order 0, their titles pairwise
      distinct, each the first free candidate for its stripped heading among the titles
      before it, each body as a save leaves it. */
  lemma ImportedChaptersFacts(novel: nat, s: string, words: seq<string>)
    ensures var r, hs := ImportedChapters(novel, s, words), FindHeadings(s);
      && |r| == |hs|
      && (forall k | 0 <= k < |r| :: r[k].novel == novel && r[k].order == 0 && Cleaned(r[k].content))
      && (forall a, b | 0 <= a < b < |r| :: r[a].title != r[b].title)
      && (forall k | 0 <= k < |r| :: r[k].title == DedupeAll(HeadingTitles(hs))[k])
  {
    var hs := FindHeadings(s);
    DedupeAllFacts(HeadingTitles(hs));
    SectionsFacts(s, hs, DedupeAll(HeadingTitles(hs)), novel, words);
  }

  /** The chapters cut at every heading: of the novel, of order 0, titled in turn by
      `titles`, each body as a save leaves it. */
  lemma SectionsFacts(s: string, hs: seq<Heading>, titles: seq<string>, novel: nat, words: seq<string>)
    requires |hs| == |titles|
    ensures var r := Sections(s, hs, titles, novel, words, |hs|);
      && (forall k | 0 <= k < |r| :: r[k].novel == novel && r[k].order == 0 && Cleaned(r[k].content))
      && (forall k | 0 <= k < |r| :: r[k].title == titles[k])
  {
    forall k | 0 <= k < |hs| ensures Cleaned(Stored(Body(s, hs, k), words)) {
      StoredCleaned(Body(s, hs, k), words);
    }
  }

  /** Each chapter's body, before the save cleans it, opens with the chapter's heading:
      the heading line is kept inside the body it heads. */
  lemma ImportedBodyOpensWithHeading(s: string, k: nat)
    requires k < |FindHeadings(s)|
    ensures var hs := FindHeadings(s);
      Cuts(s, hs) && StartsWith(Body(s, hs, k), HeadingTitles(hs)[k])
  {
    var hs := FindHeadings(s);
    FindHeadingsLeftmost(s);
    LeftmostCuts(s, hs);
    BodyStartsWithTitle(s, hs, k);
  }

  /** The shared part of both importers (import_txt_novels.py:66-131, admin.py:126-189):
      find the headings, create the novel and then its chapters. */
  method ImportText(db: Db, name: string, s: string, url: string, now: int) returns (count: Option<nat>)
    requires db.Valid()
    modifies db
    ensures db.Valid() && db.filterWords == old(db.filterWords)
    ensures Outcome(db.novels, db.chapters, count)
      == AfterImport(old(db.novels), old(db.chapters), old(db.filterWords), name, s, url, now)
  {
    var parts := SplitName(Stem(name));
    var title := Dedupe(Strip(parts.0), NovelTitles(db.novels));
    var hs := FindHeadings(s);
    if hs == [] {
      return None;
    }
    ImportedNovelFresh(db.novels, name, s, url, now);
    var created := db.CreateNovel(title, Strip(parts.1), Intro(s), url, now);
    var novel := created.value;
    CreateChapters(db, novel, s, hs);
    count := Some(|hs|);
  }

  /** The loop over the headings: each chapter gets its deduplicated title and is created;
      none collides, so the caught creation error never arises. */
  method CreateChapters(db: Db, novel: nat, s: string, hs: seq<Heading>)
    requires db.Valid() && novel < |db.novels|
    requires forall j | 0 <= j < |db.chapters| :: db.chapters[j].novel != novel
    modifies db
    ensures db.Valid() && db.novels == old(db.novels) && db.filterWords == old(db.filterWords)
    ensures db.chapters == old(db.chapters) + Sections(s, hs, DedupeAll(HeadingTitles(hs)), novel, db.filterWords, |hs|)
  {
    ghost var titles := DedupeAll(HeadingTitles(hs));
    var used: set<string> := {};
    var i := 0;
    while i < |hs|
      invariant 0 <= i <= |hs|
      invariant db.Valid() && db.novels == old(db.novels) && db.filterWords == old(db.filterWords)
      invariant db.chapters == old(db.chapters) + Sections(s, hs, titles, novel, db.filterWords, i)
      invariant used == Elems(titles[..i])
      invariant forall j | 0 <= j < |db.chapters| && db.chapters[j].novel == novel :: db.chapters[j].title in used
    {
      used := CreateNext(db, novel, s, hs, titles, i, used, old(db.chapters));
      i := i + 1;
    }
  }

  /** What one turn of the loop over the headings relies on: the title it picks is the
      next deduplicated title, not yet used by any chapter of the novel, and creating the
      chapter under it with the next body extends the sections by one. */
  lemma NextSection(s: string, hs: seq<Heading>, titles: seq<string>, novel: nat, words: seq<string>, i: nat,
                    used: set<string>, before: seq<Chapter>, chs: seq<Chapter>)
    requires i < |hs| && titles == DedupeAll(HeadingTitles(hs))
    requires chs == before + Sections(s, hs, titles, novel, words, i)
    requires used == Elems(titles[..i])
    requires forall j | 0 <= j < |chs| && chs[j].novel == novel :: chs[j].title in used
    ensures var title := FirstFree(Strip(hs[i].text), used, 0);
      var body := Strip(Slice(s, hs[i].start, if i + 1 < |hs| then hs[i + 1].start else |s|));
      && !HasChapter(chs, novel, title)
      && chs + [Chapter(novel, title, Stored(body, words), 0)] == before + Sections(s, hs, titles, novel, words, i + 1)
      && used + {title} == Elems(titles[..i + 1])
  {
    var title := FirstFree(Strip(hs[i].text), used, 0);
    DedupeAllAt(HeadingTitles(hs), i);
    FirstFreeFacts(Strip(hs[i].text), used, 0);
    assert title == titles[i] && title !in used;
    SectionsSnoc(before, s, hs, titles, novel, words, i);
    ElemsSnoc(titles, i);
  }

  /** One turn of the loop over the headings. */
  method CreateNext(db: Db, novel: nat, s: string, hs: seq<Heading>, ghost titles: seq<string>, i: nat,
                    used: set<string>, ghost before: seq<Chapter>) returns (used': set<string>)
    requires db.Valid() && novel < |db.novels| && i < |hs|
    requires titles == DedupeAll(HeadingTitles(hs))
    requires db.chapters == before + Sections(s, hs, titles, novel, db.filterWords, i)
    requires used == Elems(titles[..i])
    requires forall j | 0 <= j < |db.chapters| && db.chapters[j].novel == novel :: db.chapters[j].title in used
    modifies db
    ensures db.Valid() && db.novels == old(db.novels) && db.filterWords == old(db.filterWords)
    ensures db.chapters == before + Sections(s, hs, titles, novel, db.filterWords, i + 1)
    ensures used' == Elems(titles[..i + 1])
    ensures forall j | 0 <= j < |db.chapters| && db.chapters[j].novel == novel :: db.chapters[j].title in used'
  {
    var next := if i + 1 < |hs| then hs[i + 1].start else |s|;
    var body := Strip(Slice(s, hs[i].start, next));
    var title := Dedupe(Strip(hs[i].text), used);
    ghost var chs := db.chapters;
    NextSection(s, hs, titles, novel, db.filterWords, i, used, before, chs);
    var _ := db.CreateChapter(novel, title, body, 0);
    used' := used + {title};
    forall j | 0 <= j < |db.chapters| && db.chapters[j].novel == novel ensures db.chapters[j].title in used' {
      if j < |chs| {
        assert db.chapters[j] == chs[j];
      }
    }
  }

  /** A file as the importers see it: its name and its bytes. */
  datatype File = File(name: string, data: seq<bv8>)

  /** The source_url recorded for a novel imported from a folder. */
  function LocalUrl(name: string): string {
    "本地导入: " + name
  }

  /** process_file: a file no codec decodes imports nothing; otherwise its text, read in
      text mode with universal newlines, is imported. */
  function FileOutcome(ns: seq<Novel>, chs: seq<Chapter>, words: seq<string>, f: File,
                       decode: (Encoding, seq<bv8>) -> Option<string>, now: int): Outcome
  {
    match FirstDecoding(decode, f.data, Encodings)
    case None => Outcome(ns, chs, None)
    case Some(d) => AfterImport(ns, chs, words, f.name, Content.NormalizeNewlines(d.text), LocalUrl(f.name), now)
  }

  /** import_txt_novels.py:44-135: True exactly when the file decodes and its text has a
      chapter heading. */
  method ProcessFile(db: Db, f: File, decode: (Encoding, seq<bv8>) -> Option<string>, now: int) returns (ok: bool)
    requires db.Valid()
    modifies db
    ensures db.Valid() && db.filterWords == old(db.filterWords)
    ensures var o := FileOutcome(old(db.novels), old(db.chapters), old(db.filterWords), f, decode, now);
      db.novels == o.novels && db.chapters == o.chapters && ok == o.count.Some?
  {
    var decoded := DetectEncoding(decode, f.data);
    if decoded.None? {
      return false;
    }
    var s := Content.NormalizeNewlines(decoded.value.text);
    var count := ImportText(db, f.name, s, LocalUrl(f.name), now);
    ok := count.Some?;
  }

  /** The file would be imported whatever the database holds: it decodes and its text has
      a chapter heading. */
  predicate Importable(f: File, decode: (Encoding, seq<bv8>) -> Option<string>) {
    var d := FirstDecoding(decode, f.data, Encodings);
    d.Some? && FindHeadings(Content.NormalizeNewlines(d.value.text)) != []
  }

  /** The tables after importing the files in order, and how many were imported. */
  datatype Progress = Progress(novels: seq<Novel>, chapters: seq<Chapter>, imported: nat)

  function ImportFiles(ns: seq<Novel>, chs: seq<Chapter>, words: seq<string>, files: seq<File>,
                       decode: (Encoding, seq<bv8>) -> Option<string>, now: int): Progress
  {
    if files == [] then Progress(ns, chs, 0)
    else
      var p := ImportFiles(ns, chs, words, files[..|files| - 1], decode, now);
      var o := FileOutcome(p.novels, p.chapters, words, files[|files| - 1], decode, now);
      Progress(o.novels, o.chapters, p.imported + if o.count.Some? then 1 else 0)
  }

  /** How many of the files are importable. */
  function CountImportable(files: seq<File>, decode: (Encoding, seq<bv8>) -> Option<string>): nat {
    if files == [] then 0
    else CountImportable(files[..|files| - 1], decode) + if Importable(files[|files| - 1], decode) then 1 else 0
  }

  /** A file's import succeeds exactly when it is importable, and then adds one novel;
      otherwise the tables are untouched. */
  lemma FileOutcomeFacts(ns: seq<Novel>, chs: seq<Chapter>, words: seq<string>, f: File,
                         decode: (Encoding, seq<bv8>) -> Option<string>, now: int)
    ensures var o := FileOutcome(ns, chs, words, f, decode, now);
      && (o.count.Some? <==> Importable(f, decode))
      && (o.count.None? ==> o.novels == ns && o.chapters == chs)
      && (o.count.Some? ==> |o.novels| == |ns| + 1 && o.novels[..|ns|] == ns)
      && |o.chapters| >= |chs| && o.chapters[..|chs|] == chs
  {
    var o := FileOutcome(ns, chs, words, f, decode, now);
    if o.count.Some? {
      assert (o.novels)[..|ns|] == ns;
    }
  }

  /** The number reported as imported is the number of importable files, and the novels
      grow by exactly that many, keeping the ones stored before. */
  lemma {:induction false} ImportFilesCount(ns: seq<Novel>, chs: seq<Chapter>, words: seq<string>, files: seq<File>,
                                            decode: (Encoding, seq<bv8>) -> Option<string>, now: int)
    ensures var p := ImportFiles(ns, chs, words, files, decode, now);
      && p.imported == CountImportable(files, decode)
      && |p.novels| == |ns| + p.imported
      && p.novels[..|ns|] == ns
      && |p.chapters| >= |chs| && p.chapters[..|chs|] == chs
  {
    if files != [] {
      var init := files[..|files| - 1];
      ImportFilesCount(ns, chs, words, init, decode, now);
      var p := ImportFiles(ns, chs, words, init, decode, now);
      FileOutcomeFacts(p.novels, p.chapters, words, files[|files| - 1], decode, now);
      var o := FileOutcome(p.novels, p.chapters, words, files[|files| - 1], decode, now);
      assert o.novels[..|ns|] == o.novels[..|p.novels|][..|ns|];
      assert o.chapters[..|chs|] == o.chapters[..|p.chapters|][..|chs|];
    }
  }

  /** The file name ends in `.txt`. */
  function IsTxt(): File -> bool {
    (f: File) => EndsWith(f.name, ".txt")
  }

  /** The `.txt` files of a folder listing, in listing order: the listing with every other
      file removed. */
  function TxtFiles(files: seq<File>): (r: seq<File>)
    ensures forall k | 0 <= k < |r| :: EndsWith(r[k].name, ".txt") && r[k] in files
    ensures forall f | f in files && EndsWith(f.name, ".txt") :: f in r
    ensures r == Sorting.Filter(files, IsTxt())
  {
    if files == [] then []
    else
      var init := TxtFiles(files[..|files| - 1]);
      var f := files[|files| - 1];
      assert forall g | g in files[..|files| - 1] :: g in files;
      assert files[..|files| - 1] + [f] == files;
      Sorting.FilterSnoc(files[..|files| - 1], f, IsTxt());
      if EndsWith(f.name, ".txt") then init + [f] else init
  }

  /** What the command reports: a missing folder, a folder without `.txt` files, or how
      many files were found and how many novels imported. */
  datatype FolderReport = NoFolder | NoTxtFiles | FolderDone(files: nat, imported: nat)

  /** import_txt_novels.py:137-165: every `.txt` file of the folder is processed in listing
      order; the folder is None when it does not exist. */
  method ImportFolder(db: Db, folder: Option<seq<File>>, decode: (Encoding, seq<bv8>) -> Option<string>, now: int)
    returns (r: FolderReport)
    requires db.Valid()
    modifies db
    ensures db.Valid() && db.filterWords == old(db.filterWords)
    ensures folder.None? ==> r == NoFolder && db.novels == old(db.novels) && db.chapters == old(db.chapters)
    ensures folder.Some? && TxtFiles(folder.value) == [] ==>
      r == NoTxtFiles && db.novels == old(db.novels) && db.chapters == old(db.chapters)
    ensures folder.Some? && TxtFiles(folder.value) != [] ==>
      var p := ImportFiles(old(db.novels), old(db.chapters), old(db.filterWords), TxtFiles(folder.value), decode, now);
      && r == FolderDone(|TxtFiles(folder.value)|, p.imported)
      && db.novels == p.novels && db.chapters == p.chapters
  {
    if folder.None? {
      return NoFolder;
    }
    var txt := TxtFiles(folder.value);
    if txt == [] {
      return NoTxtFiles;
    }
    var succeeded := 0;
    var i := 0;
    while i < |txt|
      invariant 0 <= i <= |txt|
      invariant db.Valid() && db.filterWords == old(db.filterWords)
      invariant ImportFiles(old(db.novels), old(db.chapters), db.filterWords, txt[..i], decode, now)
        == Progress(db.novels, db.chapters, succeeded)
    {
      succeeded := FolderNext(db, old(db.novels), old(db.chapters), txt, i, succeeded, decode, now);
      i := i + 1;
    }
    assert txt[..|txt|] == txt;
    return FolderDone(|txt|, succeeded);
  }

  /** One turn of the loop over the files: process the i-th and count it when imported. */
  method FolderNext(db: Db, ghost ns: seq<Novel>, ghost chs: seq<Chapter>, txt: seq<File>, i: nat, succeeded: nat,
                    decode: (Encoding, seq<bv8>) -> Option<string>, now: int) returns (succeeded': nat)
    requires db.Valid() && i < |txt|
    requires ImportFiles(ns, chs, db.filterWords, txt[..i], decode, now) == Progress(db.novels, db.chapters, succeeded)
    modifies db
    ensures db.Valid() && db.filterWords == old(db.filterWords)
    ensures ImportFiles(ns, chs, db.filterWords, txt[..i + 1], decode, now) == Progress(db.novels, db.chapters, succeeded')
  {
    assert txt[..i + 1][..i] == txt[..i];
    var ok := ProcessFile(db, txt[i], decode, now);
    succeeded' := if ok then succeeded + 1 else succeeded;
  }

  /** What the upload view reports (admin.py:93-197). */
  datatype UploadReport = NoFile | NotTxt | Undecodable | NoChapters | Uploaded(title: string, chapters: nat, encoding: Encoding)

  /** The source_url recorded for an uploaded novel. */
  const UploadUrl: string := "本地导入"

  /** admin.py:93-197: the uploaded bytes are decoded as they are, without newline
      translation, and imported under the upload's name. */
  method UploadTxt(db: Db, upload: Option<File>, decode: (Encoding, seq<bv8>) -> Option<string>, now: int)
    returns (r: UploadReport)
    requires db.Valid()
    modifies db
    ensures db.Valid() && db.filterWords == old(db.filterWords)
    ensures r.Uploaded? <==>
      && upload.Some? && EndsWith(upload.value.name, ".txt")
      && FirstDecoding(decode, upload.value.data, Encodings).Some?
      && FindHeadings(FirstDecoding(decode, upload.value.data, Encodings).value.text) != []
    ensures !r.Uploaded? ==> db.novels == old(db.novels) && db.chapters == old(db.chapters)
    ensures upload.None? ==> r == NoFile
    ensures upload.Some? && !EndsWith(upload.value.name, ".txt") ==> r == NotTxt
    ensures r.Uploaded? ==>
      var f, d := upload.value, FirstDecoding(decode, upload.value.data, Encodings).value;
      var o := AfterImport(old(db.novels), old(db.chapters), old(db.filterWords), f.name, d.text, UploadUrl, now);
      && db.novels == o.novels && db.chapters == o.chapters
      && r == Uploaded(ImportedNovel(old(db.novels), f.name, d.text, UploadUrl, now).title,
                       |FindHeadings(d.text)|, d.encoding)
  {
    if upload.None? {
      return NoFile;
    }
    var f := upload.value;
    if !EndsWith(f.name, ".txt") {
      return NotTxt;
    }
    var decoded := DetectEncoding(decode, f.data);
    if decoded.None? {
      return Undecodable;
    }
    var count := ImportText(db, f.name, decoded.value.text, UploadUrl, now);
    if count.None? {
      return NoChapters;
    }
    r := Uploaded(db.novels[|db.novels| - 1].title, count.value, decoded.value.encoding);
  }
}

/** The read side of the site (novels/views.py): the chapter list of a novel page, the
    neighbours a chapter page links to, and the plain-text download of a whole novel. The
    tables are the store's: a novel's id is its index in `novels`, a chapter's its index in
    `chapters`. */
module Views {
  import opened Wrappers
  import opened Strings
  import opened Sorting
  import opened Store
  import Content

  // ---------------------------------------------------------------------------------------
  // novel_detail (lines 70-80)

  /** The chapters the novel page lists, or None for the 404 of a missing novel: every
      chapter of the novel once, by ascending (order, id). */
  function NovelDetail(novels: seq<Novel>, chs: seq<Chapter>, id: nat): (r: Option<seq<nat>>)
    ensures r.Some? <==> id < |novels|
    ensures r.Some? ==>
      && StrictlySortedBy(r.value, ListingKey(OrdersOf(chs)))
      && (forall k | 0 <= k < |r.value| :: r.value[k] < |chs| && chs[r.value[k]].novel == id)
      && (forall i | 0 <= i < |chs| && chs[i].novel == id :: i in r.value)
  {
    if id < |novels| then
      ListingFacts(chs, id);
      Some(Listing(chs, id))
    else None
  }

  // ---------------------------------------------------------------------------------------
  // chapter_detail (lines 82-103)

  /** The chapter of `novel` with the largest id below `below` (filter id__lt, order by -id,
      first). */
  function PrevOf(chs: seq<Chapter>, novel: nat, below: nat): (r: Option<nat>)
    requires below <= |chs|
    ensures r.Some? ==>
      && r.value < below && chs[r.value].novel == novel
      && forall j | r.value < j < below :: chs[j].novel != novel
    ensures r.None? ==> forall j | 0 <= j < below :: chs[j].novel != novel
  {
    if below == 0 then None
    else if chs[below - 1].novel == novel then Some(below - 1)
    else PrevOf(chs, novel, below - 1)
  }

  /** The chapter of `novel` with the smallest id from `from` on (filter id__gt, order by
      id, first, with from = id + 1). */
  function NextOf(chs: seq<Chapter>, novel: nat, from: nat): (r: Option<nat>)
    ensures r.Some? ==>
      && from <= r.value < |chs| && chs[r.value].novel == novel
      && forall j | from <= j < r.value :: chs[j].novel != novel
    ensures r.None? ==> forall j | from <= j < |chs| :: chs[j].novel != novel
    decreases |chs| - from
  {
    if from >= |chs| then None
    else if chs[from].novel == novel then Some(from)
    else NextOf(chs, novel, from + 1)
  }

  /** What the chapter page shows: the chapter, its body as clean_content gives it under
      the current filter words, and the ids of the previous and next chapters. */
  datatype Detail = Detail(chapter: Chapter, content: string, prev: Option<nat>, next: Option<nat>)

  /** chapter_detail; None is the DoesNotExist a missing id raises. */
  function ChapterDetail(chs: seq<Chapter>, words: seq<string>, id: nat): (r: Option<Detail>)
    ensures r.Some? <==> id < |chs|
    ensures r.Some? ==> r.value.chapter == chs[id]
  {
    if id < |chs| then
      var c := chs[id];
      Some(Detail(c, Content.CleanText(c.content, words), PrevOf(chs, c.novel, id), NextOf(chs, c.novel, id + 1)))
    else None
  }

  /** The previous chapter is the nearest chapter of the same novel below; the next one the
      nearest above; and none is given exactly when there is no such chapter. */
  lemma ChapterDetailNeighbours(chs: seq<Chapter>, words: seq<string>, id: nat)
    requires id < |chs|
    ensures var d := ChapterDetail(chs, words, id).value;
      && (d.prev.Some? ==> d.prev.value < id && chs[d.prev.value].novel == chs[id].novel
                           && forall j | d.prev.value < j < id :: chs[j].novel != chs[id].novel)
      && (d.prev.None? <==> forall j | 0 <= j < id :: chs[j].novel != chs[id].novel)
      && (d.next.Some? ==> id < d.next.value && chs[d.next.value].novel == chs[id].novel
                           && forall j | id < j < d.next.value :: chs[j].novel != chs[id].novel)
      && (d.next.None? <==> forall j | id < j < |chs| :: chs[j].novel != chs[id].novel)
  {
  }

  /** The links go both ways: the next chapter of a chapter's previous one is the chapter
      itself, and so is the previous chapter of its next one. */
  lemma {:induction false} PrevNextInverse(chs: seq<Chapter>, words: seq<string>, id: nat)
    requires id < |chs|
    ensures var d := ChapterDetail(chs, words, id).value;
      && (d.prev.Some? ==> ChapterDetail(chs, words, d.prev.value).value.next == Some(id))
      && (d.next.Some? ==> ChapterDetail(chs, words, d.next.value).value.prev == Some(id))
  {
  }

  // ---------------------------------------------------------------------------------------
  // download_novel (lines 132-171)

  /** The widths of the rule under the header and of the one after each chapter. */
  const HeaderRule: nat := 50
  const ChapterRule: nat := 30

  /** The list the file starts as: title, author line, intro line and a rule of 50 '='. */
  function HeaderLines(n: Novel): seq<string> {
    [n.title + "\n", "作者：" + n.author + "\n", "简介：" + n.intro + "\n", Repeat('=', HeaderRule) + "\n\n"]
  }

  /** What one chapter extends the list by: title, body and a rule of 30 '=', each followed
      by a blank line. */
  function BlockLines(c: Chapter): seq<string> {
    [c.title + "\n\n", c.content + "\n\n", Repeat('=', ChapterRule) + "\n\n"]
  }

  /** The list after the chapters `cs` have extended it, header excluded. */
  function Lines(cs: seq<Chapter>): (ls: seq<string>)
    ensures |ls| == 3 * |cs|
  {
    if cs == [] then [] else Lines(cs[..|cs| - 1]) + BlockLines(cs[|cs| - 1])
  }

  /** The header and one chapter's block as text. */
  function Header(n: Novel): string {
    Content.Concat(HeaderLines(n))
  }

  function Block(c: Chapter): string {
    Content.Concat(BlockLines(c))
  }

  /** The blocks of the chapters, in order. */
  function Blocks(cs: seq<Chapter>): string {
    if cs == [] then [] else Blocks(cs[..|cs| - 1]) + Block(cs[|cs| - 1])
  }

  /** novel.chapters.all(): the novel's chapters in the (order, id) order of the model's
      Meta. */
  function ChaptersOf(chs: seq<Chapter>, novel: nat): (cs: seq<Chapter>)
    ensures var l := Listing(chs, novel);
      |cs| == |l| && forall k | 0 <= k < |l| :: cs[k] == chs[l[k]]
  {
    var l := Listing(chs, novel);
    seq(|l|, k requires 0 <= k < |l| => chs[l[k]])
  }

  /** The response: the text as an attachment named after the novel, with its UTF-8 byte
      count as Content-Length; or the 404 of a missing novel. */
  datatype Response = Attachment(filename: string, length: nat, body: string) | NotFound(message: string)

  const Missing: string := "小说不存在"

  function Download(novels: seq<Novel>, chs: seq<Chapter>, id: nat): Response {
    if id < |novels| then
      var body := Content.Concat(HeaderLines(novels[id]) + Lines(ChaptersOf(chs, id)));
      Attachment(novels[id].title + ".txt", Utf8Length(body), body)
    else NotFound(Missing)
  }

  /** download_novel: the header list, one extend per chapter, and the joined text. */
  method DownloadNovel(novels: seq<Novel>, chs: seq<Chapter>, id: nat) returns (r: Response)
    ensures r == Download(novels, chs, id)
  {
    if id >= |novels| {
      return NotFound(Missing);
    }
    var n := novels[id];
    var content := ExtendAll(HeaderLines(n), ChaptersOf(chs, id));
    var body := Content.Concat(content);
    return Attachment(n.title + ".txt", Utf8Length(body), body);
  }

  /** The loop of lines 146-151: the list extended by each chapter's three pieces, in order. */
  method ExtendAll(start: seq<string>, cs: seq<Chapter>) returns (content: seq<string>)
    ensures content == start + Lines(cs)
  {
    content := start;
    var i := 0;
    while i < |cs|
      invariant i <= |cs|
      invariant content == start + Lines(cs[..i])
    {
      var c := cs[i];
      LinesSnoc(cs, i);
      content := content + [c.title + "\n\n", c.content + "\n\n", Repeat('=', ChapterRule) + "\n\n"];
      i := i + 1;
    }
    assert cs[..i] == cs;
  }

  lemma LinesSnoc(cs: seq<Chapter>, i: nat)
    requires i < |cs|
    ensures Lines(cs[..i + 1]) == Lines(cs[..i]) + BlockLines(cs[i])
  {
    assert cs[..i + 1][..i] == cs[..i];
  }

  lemma ConcatSnoc(ps: seq<string>, q: string)
    ensures Content.Concat(ps + [q]) == Content.Concat(ps) + q
  {
    assert (ps + [q])[..|ps|] == ps;
  }

  /** Joining a list extended by another is joining each and concatenating. */
  lemma {:induction false} ConcatExtend(ps: seq<string>, qs: seq<string>)
    ensures Content.Concat(ps + qs) == Content.Concat(ps) + Content.Concat(qs)
    decreases |qs|
  {
    if qs != [] {
      var qs' := qs[..|qs| - 1];
      var q := qs[|qs| - 1];
      assert ps + qs == (ps + qs') + [q];
      assert qs == qs' + [q];
      ConcatSnoc(ps + qs', q);
      ConcatSnoc(qs', q);
      ConcatExtend(ps, qs');
      assert Content.Concat(ps) + Content.Concat(qs') + q == Content.Concat(ps) + (Content.Concat(qs') + q);
    } else {
      assert ps + qs == ps;
    }
  }

  /** Joined, the chapters' part of the list is their blocks one after the other. */
  lemma {:induction false} LinesBlocks(cs: seq<Chapter>)
    ensures Content.Concat(Lines(cs)) == Blocks(cs)
  {
    if cs != [] {
      var init := cs[..|cs| - 1];
      LinesBlocks(init);
      ConcatExtend(Lines(init), BlockLines(cs[|cs| - 1]));
    }
  }

  /** The blocks of a prefix of the chapters are a prefix of the blocks. */
  lemma {:induction false} BlocksPrefix(cs: seq<Chapter>, k: nat)
    requires k <= |cs|
    ensures Blocks(cs[..k]) <= Blocks(cs)
    decreases |cs| - k
  {
    if k < |cs| {
      BlocksPrefix(cs, k + 1);
      assert cs[..k + 1][..k] == cs[..k];
    } else {
      assert cs[..k] == cs;
    }
  }

  /** Every chapter of the novel is among the chapters the file lists. */
  lemma ChaptersOfCovers(chs: seq<Chapter>, id: nat)
    ensures forall i | 0 <= i < |chs| && chs[i].novel == id :: chs[i] in ChaptersOf(chs, id)
  {
    var cs := ChaptersOf(chs, id);
    ListingFacts(chs, id);
    var l := Listing(chs, id);
    forall i | 0 <= i < |chs| && chs[i].novel == id
      ensures chs[i] in cs
    {
      var k :| 0 <= k < |l| && l[k] == i;
      assert cs[k] == chs[i];
    }
  }

  /** The layout of a header followed by the blocks: the k-th chapter's block sits at the
      offset where the blocks of the chapters before it end. */
  lemma BlockAt(h: string, cs: seq<Chapter>, k: nat)
    requires k < |cs|
    ensures var body := h + Blocks(cs);
      var at := |h| + |Blocks(cs[..k])|;
      at + |Block(cs[k])| <= |body| && body[at..at + |Block(cs[k])|] == Block(cs[k])
  {
    BlocksPrefix(cs, k + 1);
    assert cs[..k + 1][..k] == cs[..k];
    assert Blocks(cs[..k + 1]) == Blocks(cs[..k]) + Block(cs[k]);
    SliceAfter(h, Blocks(cs[..k]), Block(cs[k]), Blocks(cs));
  }

  /** When a + b is a prefix of s, b sits in h + s right after h + a. */
  lemma SliceAfter(h: string, a: string, b: string, s: string)
    requires a + b <= s
    ensures |h| + |a| + |b| <= |h + s| && (h + s)[|h| + |a|..|h| + |a| + |b|] == b
  {
    assert (h + s)[|h| + |a|..|h| + |a| + |b|] == s[|a|..|a| + |b|] == (a + b)[|a|..];
  }

  /** The text of the file is the header and then the blocks of the novel's chapters,
      which are every chapter of the novel, in the (order, id) order of the novel page. */
  lemma DownloadBody(novels: seq<Novel>, chs: seq<Chapter>, id: nat)
    requires id < |novels|
    ensures var r := Download(novels, chs, id);
      var cs := ChaptersOf(chs, id);
      && r.Attachment?
      && r.body == Header(novels[id]) + Blocks(cs)
      && (forall i | 0 <= i < |chs| && chs[i].novel == id :: chs[i] in cs)
  {
    var cs := ChaptersOf(chs, id);
    ConcatExtend(HeaderLines(novels[id]), Lines(cs));
    LinesBlocks(cs);
    ChaptersOfCovers(chs, id);
  }

  /** Content-Length is the byte count of the UTF-8 text: the header's bytes plus each
      block's, at least one and at most four per character. */
  lemma DownloadLength(novels: seq<Novel>, chs: seq<Chapter>, id: nat)
    ensures var r := Download(novels, chs, id);
      && (r.NotFound? <==> id >= |novels|)
      && (r.Attachment? ==>
            && r.length == Utf8Length(Header(novels[id])) + Utf8Length(Blocks(ChaptersOf(chs, id)))
            && |r.body| <= r.length <= 4 * |r.body|)
  {
    if id < |novels| {
      var r := Download(novels, chs, id);
      DownloadBody(novels, chs, id);
      Utf8LengthConcat(Header(novels[id]), Blocks(ChaptersOf(chs, id)));
      Utf8LengthBounds(r.body);
    }
  }
}

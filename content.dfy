/** Chapter-body text processing: the cleaning applied on every chapter save, the preview,
    the admin's paragraph reflow, the reader-side masking of filter words, and the cleanup
    applied to scraped bodies (control characters, advertisement lines, long blank runs)
    together with the title/body split of scraped records. */
module Content {
  import opened Wrappers
  import opened Strings

  /** The full-width paragraph marker '　' (U+3000). */
  const Indent: char := IdeographicSpace

  /** content.replace('\r\n', '\n').replace('\r', '\n') */
  function NormalizeNewlines(s: string): string {
    ReplaceAll(ReplaceAll(s, "\r\n", "\n"), "\r", "\n")
  }

  lemma NormalizeNewlinesNoCr(s: string)
    ensures '\r' !in NormalizeNewlines(s)
  {
    ReplaceCharGone(ReplaceAll(s, "\r\n", "\n"), '\r', '\n');
  }

  /** A text without carriage returns is already normalized. */
  lemma NormalizeNewlinesNoop(s: string)
    requires '\r' !in s
    ensures NormalizeNewlines(s) == s
  {
    if Contains(s, "\r\n") {
      ContainsFirst(s, "\r\n");
    }
    ReplaceAllAbsent(s, "\r\n", "\n");
    if Contains(s, "\r") {
      ContainsFirst(s, "\r");
    }
    ReplaceAllAbsent(s, "\r", "\n");
  }

  /** The stripped non-empty lines, in order. */
  function Kept(lines: seq<string>): (ks: seq<string>)
    ensures |ks| <= |lines|
    ensures forall k | 0 <= k < |ks| :: ks[k] != []
  {
    if lines == [] then []
    else
      var t := Strip(lines[|lines| - 1]);
      Kept(lines[..|lines| - 1]) + (if t == [] then [] else [t])
  }

  /** The paragraph marker put in front of a kept line unless it already starts with one. */
  function Mark(t: string): string {
    if StartsWith(t, [Indent]) then t else [Indent] + t
  }

  function MarkAll(ks: seq<string>): (ps: seq<string>)
    ensures |ps| == |ks|
    ensures forall k | 0 <= k < |ks| :: ps[k] == Mark(ks[k])
  {
    if ks == [] then [] else MarkAll(ks[..|ks| - 1]) + [Mark(ks[|ks| - 1])]
  }

  /** Chapter.clean_content with the stored filter words ws: remove each word in list order,
      normalize newlines, keep the stripped non-empty lines each behind one marker, and join
      them with '\n'. */
  function CleanText(content: string, ws: seq<string>): string {
    Join(MarkAll(Kept(Split(NormalizeNewlines(RemoveWords(content, ws)), '\n'))), "\n")
  }

  /** Chapter.clean_content, step by step as the model's save runs it. */
  method CleanContent(content: string, ws: seq<string>) returns (r: string)
    ensures r == CleanText(content, ws)
  {
    var text := RemoveEach(content, ws);
    text := NormalizeNewlines(text);
    var paragraphs := MarkLines(Split(text, '\n'));
    r := Join(paragraphs, "\n");
  }

  /** The filter-word loop of clean_content: each word removed in list order. */
  method RemoveEach(content: string, ws: seq<string>) returns (text: string)
    ensures text == RemoveWords(content, ws)
  {
    text := content;
    var i := 0;
    while i < |ws|
      invariant 0 <= i <= |ws|
      invariant RemoveWords(text, ws[i..]) == RemoveWords(content, ws)
    {
      assert ws[i..][1..] == ws[i + 1..];
      text := ReplaceAll(text, ws[i], "");
      i := i + 1;
    }
    assert ws[|ws|..] == [];
  }

  /** The line loop of clean_content: blank lines dropped, the others stripped and marked. */
  method MarkLines(lines: seq<string>) returns (paragraphs: seq<string>)
    ensures paragraphs == MarkAll(Kept(lines))
  {
    paragraphs := [];
    var j := 0;
    while j < |lines|
      invariant 0 <= j <= |lines|
      invariant paragraphs == MarkAll(Kept(lines[..j]))
    {
      assert lines[..j + 1][..j] == lines[..j];
      var line := Strip(lines[j]);
      if line != [] {
        if !StartsWith(line, [Indent]) {
          line := [Indent] + line;
        }
        paragraphs := paragraphs + [line];
      }
      j := j + 1;
    }
    assert lines[..|lines|] == lines;
  }

  /** A stored paragraph line: exactly one marker, then a non-whitespace character, no
      whitespace at the end, and no line break of either kind. */
  predicate ParagraphLine(l: string) {
    && |l| >= 2 && l[0] == Indent && !IsSpace(l[1]) && !IsSpace(l[|l| - 1])
    && '\n' !in l && '\r' !in l
  }

  /** What stripping leaves of a line without breaks: nothing, or text with non-whitespace
      ends and no breaks. */
  lemma StripLine(line: string)
    requires '\n' !in line && '\r' !in line
    ensures var t := Strip(line);
      t == [] || (!IsSpace(t[0]) && !IsSpace(t[|t| - 1]) && '\n' !in t && '\r' !in t)
  {
    TrimByShape(line, IsSpace);
  }

  lemma {:induction false} KeptShape(lines: seq<string>)
    requires forall k | 0 <= k < |lines| :: '\n' !in lines[k] && '\r' !in lines[k]
    ensures forall k | 0 <= k < |Kept(lines)| :: var t := Kept(lines)[k];
      !IsSpace(t[0]) && !IsSpace(t[|t| - 1]) && '\n' !in t && '\r' !in t
    decreases |lines|
  {
    if lines != [] {
      KeptShape(lines[..|lines| - 1]);
      StripLine(lines[|lines| - 1]);
    }
  }

  lemma MarkShape(t: string)
    requires t != [] && !IsSpace(t[0]) && !IsSpace(t[|t| - 1]) && '\n' !in t && '\r' !in t
    ensures ParagraphLine(Mark(t))
  {
    assert IsSpace(Indent);
  }

  /** The lines of a cleaned body, when it is not empty. */
  lemma CleanTextParagraphs(content: string, ws: seq<string>)
    ensures var ps := MarkAll(Kept(Split(NormalizeNewlines(RemoveWords(content, ws)), '\n')));
      && (forall k | 0 <= k < |ps| :: ParagraphLine(ps[k]))
      && (CleanText(content, ws) == [] <==> ps == [])
      && (ps != [] ==> Split(CleanText(content, ws), '\n') == ps)
  {
    var text := NormalizeNewlines(RemoveWords(content, ws));
    var lines := Split(text, '\n');
    NormalizeNewlinesNoCr(RemoveWords(content, ws));
    SplitPartsFree(text, '\n');
    SplitChars(text, '\n', c => c != '\r');
    forall k | 0 <= k < |lines| ensures '\n' !in lines[k] && '\r' !in lines[k] {
      assert lines[k] in lines;
      assert AllChars(lines[k], c => c != '\r');
    }
    KeptShape(lines);
    var ks := Kept(lines);
    var ps := MarkAll(ks);
    forall k | 0 <= k < |ps| ensures ParagraphLine(ps[k]) {
      MarkShape(ks[k]);
    }
    if ps != [] {
      SplitJoin(ps, '\n');
      assert |ps[0]| >= 2;
      if |ps| > 1 {
        assert |Join(ps, "\n")| >= |ps[0]|;
      }
    }
  }

  /** Every line of a cleaned body is one marker followed by text that neither starts nor
      ends with whitespace; the body has no carriage return and no empty line (it is empty
      itself or every line has text). */
  lemma CleanTextShape(content: string, ws: seq<string>)
    ensures var r := CleanText(content, ws);
      && '\r' !in r
      && (r == [] || forall l | l in Split(r, '\n') :: ParagraphLine(l))
  {
    CleanTextParagraphs(content, ws);
    var ps := MarkAll(Kept(Split(NormalizeNewlines(RemoveWords(content, ws)), '\n')));
    var r := CleanText(content, ws);
    JoinChars(ps, "\n", c => c != '\r');
    assert AllChars(r, c => c != '\r');
  }

  /** A body made only of whitespace (line breaks included) cleans to the empty text,
      whatever the filter words. */
  lemma CleanTextBlank(content: string, ws: seq<string>)
    requires AllChars(content, IsSpace)
    ensures CleanText(content, ws) == []
  {
    RemoveWordsChars(content, ws);
    var text := NormalizeNewlines(RemoveWords(content, ws));
    ReplaceAllChars(RemoveWords(content, ws), "\r\n", "\n", IsSpace);
    ReplaceAllChars(ReplaceAll(RemoveWords(content, ws), "\r\n", "\n"), "\r", "\n", IsSpace);
    SplitChars(text, '\n', IsSpace);
    KeptBlank(Split(text, '\n'));
  }

  lemma {:induction false} RemoveWordsChars(s: string, ws: seq<string>)
    requires AllChars(s, IsSpace)
    ensures AllChars(RemoveWords(s, ws), IsSpace)
    decreases |ws|
  {
    if ws != [] {
      ReplaceAllChars(s, ws[0], [], IsSpace);
      RemoveWordsChars(ReplaceAll(s, ws[0], []), ws[1..]);
    }
  }

  lemma {:induction false} KeptBlank(lines: seq<string>)
    requires forall k | 0 <= k < |lines| :: AllChars(lines[k], IsSpace)
    ensures Kept(lines) == []
    decreases |lines|
  {
    if lines != [] {
      KeptBlank(lines[..|lines| - 1]);
      TrimByEmpty(lines[|lines| - 1], IsSpace);
    }
  }

  /** Stripping a paragraph line removes its marker only. */
  lemma StripParagraphLine(l: string)
    requires ParagraphLine(l)
    ensures Strip(l) == l[1..]
    ensures Mark(Strip(l)) == l
  {
    assert IsSpace(l[0]);
    assert TrimStartBy(l, IsSpace) == TrimStartBy(l[1..], IsSpace);
    assert TrimStartBy(l[1..], IsSpace) == l[1..];
    assert [Indent] + l[1..] == l;
  }

  lemma {:induction false} MarkAllKeptFixed(ps: seq<string>)
    requires forall k | 0 <= k < |ps| :: ParagraphLine(ps[k])
    ensures MarkAll(Kept(ps)) == ps
    decreases |ps|
  {
    if ps != [] {
      var init := ps[..|ps| - 1];
      MarkAllKeptFixed(init);
      StripParagraphLine(ps[|ps| - 1]);
      assert Kept(ps) == Kept(init) + [Strip(ps[|ps| - 1])];
      var ks := Kept(ps);
      assert ks[..|ks| - 1] == Kept(init);
      assert init + [ps[|ps| - 1]] == ps;
    }
  }

  /** Cleaning a cleaned body again changes nothing, provided none of the filter words
      occurs in it. */
  lemma CleanTextIdempotent(content: string, ws: seq<string>)
    requires forall k | 0 <= k < |ws| :: ws[k] == [] || !Contains(CleanText(content, ws), ws[k])
    ensures CleanText(CleanText(content, ws), ws) == CleanText(content, ws)
  {
    var r := CleanText(content, ws);
    CleanTextShape(content, ws);
    CleanTextParagraphs(content, ws);
    RemoveWordsAbsent(r, ws);
    NormalizeNewlinesNoop(r);
    var ps := MarkAll(Kept(Split(NormalizeNewlines(RemoveWords(content, ws)), '\n')));
    if ps == [] {
      assert Split(r, '\n') == [[]];
    } else {
      MarkAllKeptFixed(ps);
    }
  }

  /** Chapter.content_preview: the body itself up to 50 characters, else its first 50
      characters followed by "...". */
  function Preview(s: string): (r: string)
    ensures |s| <= 50 ==> r == s
    ensures |s| > 50 ==> |r| == 53 && r[..50] == s[..50] && r[50..] == "..."
  {
    if |s| > 50 then s[..50] + "..." else s
  }

  /** The two admin markup tags removed before a reflow. */
  function RemoveParagraphTags(s: string): string {
    ReplaceAll(ReplaceAll(s, "[P]", ""), "[/P]", "")
  }

  function Concat(parts: seq<string>): string {
    if parts == [] then [] else Concat(parts[..|parts| - 1]) + parts[|parts| - 1]
  }

  /** The two-marker opening of a reflowed paragraph. */
  const DoubleIndent: string := [Indent, Indent]

  /** What the paragraph reflow builds: nothing when no line has text, otherwise one
      paragraph made of two markers and then every stripped non-empty line run together. */
  function Reflowed(content: string): string {
    var ks := Kept(Split(NormalizeNewlines(RemoveParagraphTags(content)), '\n'));
    if ks == [] then [] else DoubleIndent + Concat(ks)
  }

  /** The accumulated paragraph of the reflow: the first kept line behind two markers, the
      later ones as they are. */
  function Opened(ks: seq<string>): seq<string> {
    if ks == [] then [] else [DoubleIndent + ks[0]] + ks[1..]
  }

  lemma {:induction false} ConcatOpened(ks: seq<string>)
    requires ks != []
    ensures Concat(Opened(ks)) == DoubleIndent + Concat(ks)
    decreases |ks|
  {
    if |ks| > 1 {
      var init := ks[..|ks| - 1];
      ConcatOpened(init);
      assert Opened(ks) == Opened(init) + [ks[|ks| - 1]];
      assert Opened(ks)[..|ks| - 1] == Opened(init);
    }
  }

  /** reprocess_paragraphs' text computation for one chapter, with the branch for a line
      opening a new paragraph written as in the admin action. A stripped line never starts
      with a marker, so that branch is never taken and all lines end up in one paragraph. */
  method ReprocessParagraphs(content: string) returns (r: string)
    ensures r == Reflowed(content)
    ensures '\n' !in r
  {
    var text := NormalizeNewlines(RemoveParagraphTags(content));
    var lines := Split(text, '\n');
    var paragraphs: seq<string> := [];
    var current := OpenLines(lines);
    if current != [] {
      paragraphs := paragraphs + [Concat(current)];
    }
    r := Join(paragraphs, "\n\n");
    ReflowResult(content, current);
    ReflowedOneLine(content);
  }

  /** The line loop of reprocess_paragraphs: the kept lines gathered into one paragraph,
      the first behind two markers. */
  method OpenLines(lines: seq<string>) returns (current: seq<string>)
    ensures current == Opened(Kept(lines))
  {
    current := [];
    var j := 0;
    while j < |lines|
      invariant 0 <= j <= |lines|
      invariant current == Opened(Kept(lines[..j]))
    {
      ReflowStep(lines, j);
      current := OpenNext(current, lines[j]);
      j := j + 1;
    }
    assert lines[..|lines|] == lines;
  }

  /** One turn of that loop: a blank line changes nothing, the first kept line opens the
      paragraph behind two markers, later ones are appended. */
  method OpenNext(current: seq<string>, raw: string) returns (current': seq<string>)
    ensures var line := Strip(raw);
      current' == if line == [] then current
                  else if current == [] then [DoubleIndent + line]
                  else current + [line]
  {
    current' := current;
    var line := Strip(raw);
    if line != [] {
      StrippedNotOpened(raw);
      if StartsWith(line, DoubleIndent) {
        // admin.py starts a new paragraph here; a stripped line cannot get here
        assert false;
      } else {
        if current == [] {
          line := DoubleIndent + line;
        }
        current' := current + [line];
      }
    }
  }

  lemma ReflowResult(content: string, current: seq<string>)
    requires current == Opened(Kept(Split(NormalizeNewlines(RemoveParagraphTags(content)), '\n')))
    ensures Join(if current == [] then [] else [Concat(current)], "\n\n") == Reflowed(content)
  {
    var ks := Kept(Split(NormalizeNewlines(RemoveParagraphTags(content)), '\n'));
    if ks != [] {
      ConcatOpened(ks);
    }
  }

  /** One line of the reflow loop: a blank line changes nothing, the first kept line opens
      the paragraph behind two markers, later ones are appended. */
  lemma ReflowStep(lines: seq<string>, j: nat)
    requires j < |lines|
    ensures var current := Opened(Kept(lines[..j]));
      var line := Strip(lines[j]);
      Opened(Kept(lines[..j + 1]))
      == if line == [] then current
         else if current == [] then [DoubleIndent + line]
         else current + [line]
  {
    KeptSnoc(lines, j);
    OpenedSnoc(Kept(lines[..j]), Strip(lines[j]));
  }

  lemma KeptSnoc(lines: seq<string>, j: nat)
    requires j < |lines|
    ensures Kept(lines[..j + 1])
         == Kept(lines[..j]) + (if Strip(lines[j]) == [] then [] else [Strip(lines[j])])
  {
    assert lines[..j + 1][..j] == lines[..j];
  }

  lemma OpenedSnoc(ks: seq<string>, x: string)
    ensures Opened(ks + [x]) == if ks == [] then [DoubleIndent + x] else Opened(ks) + [x]
  {
    if ks != [] {
      assert (ks + [x])[1..] == ks[1..] + [x];
    }
  }

  /** A stripped line never begins with a marker, so never with two. */
  lemma StrippedNotOpened(line: string)
    requires Strip(line) != []
    ensures !StartsWith(Strip(line), DoubleIndent)
  {
    TrimByShape(line, IsSpace);
    assert IsSpace(Indent);
  }

  lemma {:induction false} ConcatChars(parts: seq<string>, p: char -> bool)
    requires forall k | 0 <= k < |parts| :: AllChars(parts[k], p)
    ensures AllChars(Concat(parts), p)
    decreases |parts|
  {
    if parts != [] {
      ConcatChars(parts[..|parts| - 1], p);
      AllCharsConcat(Concat(parts[..|parts| - 1]), parts[|parts| - 1], p);
    }
  }

  predicate NotCr(c: char) { c != '\r' }

  predicate NotBreak(c: char) { c != '\n' && c != '\r' }

  /** After newline normalisation and splitting on '\n', no line holds a break. */
  lemma LinesUnbroken(s: string)
    ensures forall k | 0 <= k < |Split(NormalizeNewlines(s), '\n')| ::
      '\n' !in Split(NormalizeNewlines(s), '\n')[k] && '\r' !in Split(NormalizeNewlines(s), '\n')[k]
  {
    var text := NormalizeNewlines(s);
    var lines := Split(text, '\n');
    NormalizeNewlinesNoCr(s);
    SplitPartsFree(text, '\n');
    SplitChars(text, '\n', NotCr);
    forall k | 0 <= k < |lines| ensures '\n' !in lines[k] && '\r' !in lines[k] {
      assert lines[k] in lines;
      assert AllChars(lines[k], NotCr);
    }
  }

  /** The reflow yields a single paragraph: its text has no line break. */
  lemma ReflowedOneLine(content: string)
    ensures '\n' !in Reflowed(content) && '\r' !in Reflowed(content)
  {
    var lines := Split(NormalizeNewlines(RemoveParagraphTags(content)), '\n');
    LinesUnbroken(RemoveParagraphTags(content));
    KeptShape(lines);
    var ks := Kept(lines);
    forall k | 0 <= k < |ks| ensures AllChars(ks[k], NotBreak) {
      assert '\n' !in ks[k] && '\r' !in ks[k];
    }
    ConcatChars(ks, NotBreak);
    AllCharsConcat(DoubleIndent, Concat(ks), NotBreak);
  }

  /** Masks every filter word in list order by as many '*' as it has characters
      (views.filter_content). */
  function Masked(s: string, ws: seq<string>): string
    decreases |ws|
  {
    if ws == [] then s else Masked(ReplaceAll(s, ws[0], Repeat('*', |ws[0]|)), ws[1..])
  }

  /** Masking keeps the length of the text. */
  lemma {:induction false} MaskedLength(s: string, ws: seq<string>)
    ensures |Masked(s, ws)| == |s|
    decreases |ws|
  {
    if ws != [] {
      ReplaceAllSameLength(s, ws[0], Repeat('*', |ws[0]|));
      MaskedLength(ReplaceAll(s, ws[0], Repeat('*', |ws[0]|)), ws[1..]);
    }
  }

  /** views.filter_content, looping over the filter words. */
  method FilterContent(content: string, ws: seq<string>) returns (r: string)
    ensures r == Masked(content, ws)
    ensures |r| == |content|
    ensures ws == [] ==> r == content
  {
    r := content;
    var i := 0;
    while i < |ws|
      invariant 0 <= i <= |ws|
      invariant Masked(r, ws[i..]) == Masked(content, ws)
    {
      assert ws[i..][1..] == ws[i + 1..];
      r := ReplaceAll(r, ws[i], Repeat('*', |ws[i]|));
      i := i + 1;
    }
    assert ws[|ws|..] == [];
    MaskedLength(content, ws);
  }

  // ---------------------------------------------------------------------------------------
  // Cleanup of scraped chapter bodies.

  /** `[\x00-\x08\x0B\x0C\x0E-\x1F\x7F]`: control characters other than tab, line feed and
      carriage return. */
  predicate IsControl(c: char) {
    c as int <= 8 || c as int == 0x0B || c as int == 0x0C || (0x0E <= c as int <= 0x1F)
    || c as int == 0x7F
  }

  /** Deletes every character of the control class. */
  function RemoveControls(s: string): (r: string)
    ensures AllChars(r, c => !IsControl(c))
    ensures forall c | c in r :: c in s
  {
    if s == [] then []
    else
      var rest := RemoveControls(s[1..]);
      if IsControl(s[0]) then rest
      else
        AllCharsConcat([s[0]], rest, c => !IsControl(c));
        [s[0]] + rest
  }

  /** A line the advertisement pattern (with MULTILINE) empties: one that starts with 关注
      and ends with 下载APP (the two not overlapping), or starts with 广告, or starts with
      看精彩成人小说上《小黄书》. The alternative naming the site's address is covered by
      the last one. */
  predicate IsAdLine(l: string) {
    || (StartsWith(l, "关注") && EndsWith(l, "下载APP") && |l| >= 7)
    || StartsWith(l, "广告")
    || StartsWith(l, "看精彩成人小说上《小黄书》")
  }

  function BlankAd(l: string): string {
    if IsAdLine(l) then [] else l
  }

  function BlankAll(ls: seq<string>): (r: seq<string>)
    ensures |r| == |ls|
    ensures forall k | 0 <= k < |ls| :: r[k] == BlankAd(ls[k])
  {
    if ls == [] then [] else [BlankAd(ls[0])] + BlankAll(ls[1..])
  }

  /** The advertisement substitution: each matching line is emptied in place, its line
      break kept. */
  function BlankAdLines(s: string): string {
    Join(BlankAll(Split(s, '\n')), "\n")
  }

  /** Line by line: advertisement lines become empty and every other line is unchanged; so
      no line of the result starts with 广告 or 看精彩成人小说上《小黄书》. */
  lemma BlankAdLinesLines(s: string)
    ensures Split(BlankAdLines(s), '\n') == BlankAll(Split(s, '\n'))
    ensures forall l | l in Split(BlankAdLines(s), '\n') ::
      !StartsWith(l, "广告") && !StartsWith(l, "看精彩成人小说上《小黄书》")
  {
    var ls := Split(s, '\n');
    SplitPartsFree(s, '\n');
    var bs := BlankAll(ls);
    forall k | 0 <= k < |bs| ensures '\n' !in bs[k] {
      assert ls[k] in ls;
    }
    SplitJoin(bs, '\n');
  }

  /** Length of the run of line feeds at the start of s. */
  function NewlineRun(s: string): (n: nat)
    ensures n <= |s|
    ensures forall i | 0 <= i < n :: s[i] == '\n'
    ensures n == |s| || s[n] != '\n'
  {
    if |s| > 0 && s[0] == '\n' then 1 + NewlineRun(s[1..]) else 0
  }

  /** Scanning left to right, a run of four or more line feeds
      becomes two. */
  function SqueezeNewlines(s: string): string
    decreases |s|
  {
    if s == [] then []
    else if NewlineRun(s) >= 4 then "\n\n" + SqueezeNewlines(s[NewlineRun(s)..])
    else [s[0]] + SqueezeNewlines(s[1..])
  }

  /** No run of four line feeds starts anywhere in s. */
  predicate NoLongBreak(s: string) {
    forall i | 0 <= i <= |s| :: NewlineRun(s[i..]) < 4
  }

  lemma NoLongBreakCons(c: char, t: string)
    requires NoLongBreak(t) && NewlineRun([c] + t) < 4
    ensures NoLongBreak([c] + t)
  {
    forall i | 1 <= i <= |t| + 1 ensures NewlineRun(([c] + t)[i..]) < 4 {
      assert ([c] + t)[i..] == t[i - 1..];
    }
    assert ([c] + t)[0..] == [c] + t;
  }

  /** After squeezing, no run of four or more line feeds remains, and the run at the start
      is kept unless it was that long, in which case two remain. */
  lemma {:induction false} SqueezeNewlinesShape(s: string)
    ensures NoLongBreak(SqueezeNewlines(s))
    ensures NewlineRun(SqueezeNewlines(s)) == if NewlineRun(s) >= 4 then 2 else NewlineRun(s)
    decreases |s|
  {
    if s == [] {
      assert SqueezeNewlines(s)[0..] == SqueezeNewlines(s);
    } else if NewlineRun(s) >= 4 {
      var k := NewlineRun(s);
      SqueezeNewlinesShape(s[k..]);
      SqueezeLongRun(s, k, SqueezeNewlines(s[k..]));
    } else {
      SqueezeNewlinesShape(s[1..]);
      SqueezeShortRun(s, SqueezeNewlines(s[1..]));
    }
  }

  /** A run of four or more line feeds becomes two, before a rest that starts with none. */
  lemma SqueezeLongRun(s: string, k: nat, t: string)
    requires s != [] && k == NewlineRun(s) >= 4 && t == SqueezeNewlines(s[k..])
    requires NoLongBreak(t)
    requires NewlineRun(t) == if NewlineRun(s[k..]) >= 4 then 2 else NewlineRun(s[k..])
    ensures SqueezeNewlines(s) == "\n\n" + t
    ensures NoLongBreak("\n\n" + t) && NewlineRun("\n\n" + t) == 2
  {
    assert s[k..] == [] || s[k..][0] != '\n';
    assert NewlineRun(s[k..]) == 0;
    assert "\n\n" + t == ['\n'] + (['\n'] + t);
    NoLongBreakCons('\n', t);
    NoLongBreakCons('\n', ['\n'] + t);
  }

  /** A character outside a long run is kept, before the squeezed rest. */
  lemma SqueezeShortRun(s: string, t: string)
    requires s != [] && NewlineRun(s) < 4 && t == SqueezeNewlines(s[1..])
    requires NoLongBreak(t)
    requires NewlineRun(t) == if NewlineRun(s[1..]) >= 4 then 2 else NewlineRun(s[1..])
    ensures SqueezeNewlines(s) == [s[0]] + t
    ensures NoLongBreak([s[0]] + t) && NewlineRun([s[0]] + t) == NewlineRun(s)
  {
    if s[0] == '\n' {
      assert NewlineRun(s) == 1 + NewlineRun(s[1..]);
      assert ([s[0]] + t)[1..] == t;
    }
    NoLongBreakCons(s[0], t);
  }

  lemma {:induction false} SqueezeNewlinesChars(s: string, p: char -> bool)
    requires AllChars(s, p) && p('\n')
    ensures AllChars(SqueezeNewlines(s), p)
    decreases |s|
  {
    if s != [] {
      if NewlineRun(s) >= 4 {
        AllCharsSlice(s, NewlineRun(s), |s|, p);
        SqueezeNewlinesChars(s[NewlineRun(s)..], p);
        AllCharsConcat("\n\n", SqueezeNewlines(s[NewlineRun(s)..]), p);
      } else {
        AllCharsSlice(s, 1, |s|, p);
        SqueezeNewlinesChars(s[1..], p);
        AllCharsConcat([s[0]], SqueezeNewlines(s[1..]), p);
      }
    }
  }

  /** The three-step cleanup of a scraped body. */
  function CleanScraped(s: string): string {
    SqueezeNewlines(BlankAdLines(RemoveControls(s)))
  }

  /** A cleaned scraped body holds no control character and no run of four line feeds. */
  lemma CleanScrapedShape(s: string)
    ensures AllChars(CleanScraped(s), c => !IsControl(c))
    ensures NoLongBreak(CleanScraped(s))
  {
    var p := c => !IsControl(c);
    var a := RemoveControls(s);
    SplitChars(a, '\n', p);
    var ls := Split(a, '\n');
    forall k | 0 <= k < |ls| ensures AllChars(BlankAll(ls)[k], p) {
    }
    JoinChars(BlankAll(ls), "\n", p);
    SqueezeNewlinesChars(BlankAdLines(a), p);
    SqueezeNewlinesShape(BlankAdLines(a));
  }

  /** Index of the first occurrence of w in s. */
  function FindFirst(s: string, w: string): (r: Option<nat>)
    ensures r.Some? ==> r.value + |w| <= |s| && s[r.value..r.value + |w|] == w
    decreases |s|
  {
    if StartsWith(s, w) then Some(0)
    else if s == [] then None
    else
      match FindFirst(s[1..], w)
      case None => None
      case Some(i) => Some(i + 1)
  }

  datatype Record = Record(title: string, content: string)

  /** A scraped entry back into title and body: entry.split('\n\n', 1), kept only when it
      has two parts, each part stripped. */
  function SplitRecord(entry: string): Option<Record> {
    match FindFirst(entry, "\n\n")
    case None => None
    case Some(i) => Some(Record(Strip(entry[..i]), Strip(entry[i + 2..])))
  }

  /** The first blank line of a + "\n\n" + b is the one after a, when a holds none and does
      not end with a line feed. */
  lemma {:induction false} FindBlankLine(a: string, b: string)
    requires !Contains(a, "\n\n") && (a == [] || a[|a| - 1] != '\n')
    ensures FindFirst(a + "\n\n" + b, "\n\n") == Some(|a|)
    decreases |a|
  {
    var e := a + "\n\n" + b;
    if a == [] {
      assert e[..2] == "\n\n";
    } else {
      if |a| >= 2 {
        assert e[..2] == a[..2];
      } else {
        assert e[0] == a[0];
      }
      assert e[1..] == a[1..] + "\n\n" + b;
      FindBlankLine(a[1..], b);
    }
  }

  /** A scraped entry built as title + "\n\n" + body splits back into the stripped title and
      the stripped body, provided the title holds no blank line ("\n\n"). */
  lemma RecordRoundTrip(title: string, body: string)
    requires !Contains(title, "\n\n")
    ensures SplitRecord(title + "\n\n" + body) == Some(Record(Strip(title), Strip(body)))
  {
    if title != [] && title[|title| - 1] == '\n' {
      RecordRoundTripBreak(title, body);
    } else {
      RecordRoundTripPlain(title, body);
    }
  }

  /** A title not ending in a line feed: the blank line found is the one after it. */
  lemma RecordRoundTripPlain(title: string, body: string)
    requires !Contains(title, "\n\n") && (title == [] || title[|title| - 1] != '\n')
    ensures SplitRecord(title + "\n\n" + body) == Some(Record(Strip(title), Strip(body)))
  {
    FindBlankLine(title, body);
    SplitRecordAt(title, body);
  }

  /** A title ending in one line feed: the blank line found is the one that line feed
      starts, and the body keeps the extra line feed until it is stripped. */
  lemma RecordRoundTripBreak(title: string, body: string)
    requires !Contains(title, "\n\n") && title != [] && title[|title| - 1] == '\n'
    ensures SplitRecord(title + "\n\n" + body) == Some(Record(Strip(title), Strip(body)))
  {
    var t := title[..|title| - 1];
    TitleBeforeBreak(title);
    assert title == t + "\n";
    SplitAfterBreak(t, title, body);
  }

  lemma SplitAfterBreak(t: string, title: string, body: string)
    requires title == t + "\n"
    requires !Contains(t, "\n\n") && (t == [] || t[|t| - 1] != '\n')
    ensures SplitRecord(title + "\n\n" + body) == Some(Record(Strip(title), Strip(body)))
  {
    var rest := "\n" + body;
    BreakShift(t, title, body);
    FindBlankLine(t, rest);
    SplitRecordAt(t, rest);
    StripTrailingBreak(t);
    StripLeadingBreak(body);
  }

  lemma BreakShift(t: string, title: string, body: string)
    requires title == t + "\n"
    ensures title + "\n\n" + body == t + "\n\n" + ("\n" + body)
  {
  }

  lemma SplitRecordAt(t: string, rest: string)
    requires FindFirst(t + "\n\n" + rest, "\n\n") == Some(|t|)
    ensures SplitRecord(t + "\n\n" + rest) == Some(Record(Strip(t), Strip(rest)))
  {
    var e := t + "\n\n" + rest;
    assert e[..|t|] == t;
    assert e[|t| + 2..] == rest;
  }

  lemma StripTrailingBreak(t: string)
    ensures Strip(t + "\n") == Strip(t)
  {
    assert (t + "\n")[..|t|] == t;
    assert IsSpace('\n');
    StripDropLast(t + "\n");
  }

  lemma StripLeadingBreak(body: string)
    ensures Strip("\n" + body) == Strip(body)
  {
    assert IsSpace('\n');
    StripDropFirst('\n', body);
    assert ['\n'] + body == "\n" + body;
  }

  lemma TitleBeforeBreak(title: string)
    requires !Contains(title, "\n\n")
    requires title != [] && title[|title| - 1] == '\n'
    ensures var t := title[..|title| - 1];
      !Contains(t, "\n\n") && (t == [] || t[|t| - 1] != '\n')
  {
    var t := title[..|title| - 1];
    assert title == t + "\n";
    if Contains(t, "\n\n") {
      ContainsExtend(t, "\n", "\n\n");
    }
    if t != [] && t[|t| - 1] == '\n' {
      assert title[|t| - 1..|t| + 1] == "\n\n";
      ContainsAt(title, "\n\n", |t| - 1);
    }
  }

  lemma StripDropFirst(c: char, s: string)
    requires IsSpace(c)
    ensures Strip([c] + s) == Strip(s)
  {
    assert ([c] + s)[1..] == s;
  }

  lemma StripDropLast(s: string)
    requires s != [] && IsSpace(s[|s| - 1])
    ensures Strip(s[..|s| - 1]) == Strip(s)
  {
    var t := s[..|s| - 1];
    var c := s[|s| - 1];
    assert t + [c] == s;
    if AllChars(s, IsSpace) {
      TrimByEmpty(s, IsSpace);
      AllCharsSlice(s, 0, |s| - 1, IsSpace);
      assert s[0..|s| - 1] == t;
      TrimByEmpty(t, IsSpace);
    } else {
      if AllChars(t, IsSpace) {
        AllCharsConcat(t, [c], IsSpace);
      }
      TrimStartAppend(t, c, IsSpace);
      var u := TrimStartBy(t, IsSpace);
      assert TrimStartBy(s, IsSpace) == u + [c];
      assert (u + [c])[..|u|] == u;
    }
  }

  /** Trimming the start of a text that has a kept character is unaffected by what follows. */
  lemma {:induction false} TrimStartAppend(t: string, c: char, drop: char -> bool)
    requires !AllChars(t, drop)
    ensures TrimStartBy(t + [c], drop) == TrimStartBy(t, drop) + [c]
    decreases |t|
  {
    assert (t + [c])[0] == t[0];
    if drop(t[0]) {
      assert (t + [c])[1..] == t[1..] + [c];
      TrimStartAppend(t[1..], c, drop);
    }
  }
}

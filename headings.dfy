/** Chapter headings in a plain-text novel, as the TXT importers find them with
    re.finditer(r'第[一二三四五六七八九十百千万0-9１２３４５６７８９０]+[章節回卷].*?\n', content)
    (import_txt_novels.py:83-85, admin.py:143-145), and the chapters cut at them. */
module Headings {
  import opened Wrappers
  import opened Strings

  /** A character of the numeral class: Chinese numerals, ASCII digits, full-width digits. */
  predicate IsNumeral(c: char) {
    || c == '一' || c == '二' || c == '三' || c == '四' || c == '五' || c == '六' || c == '七'
    || c == '八' || c == '九' || c == '十' || c == '百' || c == '千' || c == '万'
    || ('0' <= c <= '9') || ('０' <= c <= '９')
  }

  /** The character that closes the numeral: 章, 節, 回 or 卷. */
  predicate IsHeadingMark(c: char) {
    c == '章' || c == '節' || c == '回' || c == '卷'
  }

  /** The length of the run of numerals starting at i. */
  function NumeralRun(s: string, i: nat): (n: nat)
    requires i <= |s|
    ensures i + n <= |s|
    ensures forall k | i <= k < i + n :: IsNumeral(s[k])
    ensures i + n < |s| ==> !IsNumeral(s[i + n])
    decreases |s| - i
  {
    if i < |s| && IsNumeral(s[i]) then 1 + NumeralRun(s, i + 1) else 0
  }

  /** The position of the first '\n' at or after i. */
  function NextBreak(s: string, i: nat): (r: Option<nat>)
    requires i <= |s|
    ensures r.Some? ==> i <= r.value < |s| && s[r.value] == '\n' && forall k | i <= k < r.value :: s[k] != '\n'
    ensures r.None? ==> forall k | i <= k < |s| :: s[k] != '\n'
    decreases |s| - i
  {
    if i == |s| then None else if s[i] == '\n' then Some(i) else NextBreak(s, i + 1)
  }

  /** Where the pattern matches at p, the end of the match. The numeral class and the marks
      are disjoint, so `[...]+` takes the whole run of numerals, a mark must follow it, and
      the lazy `.*?\n` runs to the first line break. */
  function HeadingAt(s: string, p: nat): (r: Option<nat>)
    ensures r.Some? ==> p + 4 <= r.value <= |s|
  {
    if p < |s| && s[p] == '第' then
      var n := NumeralRun(s, p + 1);
      if n > 0 && p + 1 + n < |s| && IsHeadingMark(s[p + 1 + n]) then
        match NextBreak(s, p + 2 + n)
        case Some(e) => Some(e + 1)
        case None => None
      else None
    else None
  }

  /** A match: where it starts, and the matched text (m.start(), m.group()). */
  datatype Heading = Heading(start: nat, text: string)

  function End(h: Heading): nat {
    h.start + |h.text|
  }

  /** A pattern as the scan sees it: where it matches at a position, the end of that
      match, which lies after the position and within the text. */
  ghost predicate Advances(s: string, m: (string, nat) -> Option<nat>) {
    forall p: nat | m(s, p).Some? :: p < m(s, p).value <= |s|
  }

  /** re.finditer from position `from`: leftmost matches, each search resuming where the
      last match ended. */
  function Scan(s: string, from: nat, m: (string, nat) -> Option<nat>): seq<Heading>
    requires from <= |s| && Advances(s, m)
    decreases |s| - from
  {
    if from == |s| then []
    else
      match m(s, from)
      case Some(e) => [Heading(from, s[from..e])] + Scan(s, e, m)
      case None => Scan(s, from + 1, m)
  }

  lemma HeadingAdvances(s: string)
    ensures Advances(s, HeadingAt)
  {
  }

  /** The successive non-overlapping matches of the heading pattern in the content. */
  function FindHeadings(s: string): seq<Heading> {
    HeadingAdvances(s);
    Scan(s, 0, HeadingAt)
  }

  /** Each listed match is a match at its start, after `from`. */
  ghost predicate AllMatch(s: string, from: nat, hs: seq<Heading>, m: (string, nat) -> Option<nat>) {
    forall k | 0 <= k < |hs| ::
      && from <= hs[k].start && End(hs[k]) <= |s|
      && m(s, hs[k].start) == Some(End(hs[k]))
      && hs[k].text == s[hs[k].start..End(hs[k])]
  }

  /** The matches come in order without overlapping. */
  ghost predicate Ordered(hs: seq<Heading>) {
    forall k | 0 <= k < |hs| - 1 :: End(hs[k]) <= hs[k + 1].start
  }

  /** No match starts after `from` outside the listed ones. */
  ghost predicate Covers(s: string, from: nat, hs: seq<Heading>, m: (string, nat) -> Option<nat>) {
    forall q: nat | from <= q < |s| && m(s, q).Some? :: exists k | 0 <= k < |hs| :: hs[k].start <= q < End(hs[k])
  }

  /** What finditer promises of its matches: each is a match of the pattern; they come in
      order without overlapping; and no match starts in a gap between them (before the
      first, between two, after the last). */
  ghost predicate Leftmost(s: string, hs: seq<Heading>) {
    AllMatch(s, 0, hs, HeadingAt) && Ordered(hs) && Covers(s, 0, hs, HeadingAt)
  }

  lemma FindHeadingsLeftmost(s: string)
    ensures Leftmost(s, FindHeadings(s))
  {
    HeadingAdvances(s);
    ScanMatches(s, 0, HeadingAt);
    ScanOrdered(s, 0, HeadingAt);
    ScanCovers(s, 0, HeadingAt);
  }

  lemma {:induction false} ScanMatches(s: string, from: nat, m: (string, nat) -> Option<nat>)
    requires from <= |s| && Advances(s, m)
    ensures AllMatch(s, from, Scan(s, from, m), m)
    decreases |s| - from
  {
    if from < |s| {
      var r := m(s, from);
      if r.Some? {
        ScanMatches(s, r.value, m);
        assert Scan(s, from, m) == [Heading(from, s[from..r.value])] + Scan(s, r.value, m);
      } else {
        ScanMatches(s, from + 1, m);
      }
    }
  }

  lemma {:induction false} ScanOrdered(s: string, from: nat, m: (string, nat) -> Option<nat>)
    requires from <= |s| && Advances(s, m)
    ensures Ordered(Scan(s, from, m))
    ensures forall k | 0 <= k < |Scan(s, from, m)| :: from <= Scan(s, from, m)[k].start
    decreases |s| - from
  {
    if from < |s| {
      var r := m(s, from);
      if r.Some? {
        var e := r.value;
        ScanOrdered(s, e, m);
        var rest := Scan(s, e, m);
        var hs := [Heading(from, s[from..e])] + rest;
        assert hs == Scan(s, from, m);
        forall k | 0 <= k < |hs| - 1 ensures End(hs[k]) <= hs[k + 1].start {
          assert hs[k + 1] == rest[k];
          if k > 0 {
            assert hs[k] == rest[k - 1];
          }
        }
        forall k | 0 <= k < |hs| ensures from <= hs[k].start {
          if k > 0 {
            assert hs[k] == rest[k - 1];
          }
        }
      } else {
        ScanOrdered(s, from + 1, m);
      }
    }
  }

  lemma {:induction false} ScanCovers(s: string, from: nat, m: (string, nat) -> Option<nat>)
    requires from <= |s| && Advances(s, m)
    ensures Covers(s, from, Scan(s, from, m), m)
    decreases |s| - from
  {
    if from < |s| {
      var r := m(s, from);
      if r.Some? {
        var e := r.value;
        ScanCovers(s, e, m);
        CoversCons(s, from, e, Scan(s, e, m), m);
        assert [Heading(from, s[from..e])] + Scan(s, e, m) == Scan(s, from, m);
      } else {
        ScanCovers(s, from + 1, m);
        CoversSkip(s, from, Scan(s, from + 1, m), m);
      }
    }
  }

  /** A match at `from` reaching to e, followed by headings covering every match from e on,
      covers every match from `from` on. */
  lemma CoversCons(s: string, from: nat, e: nat, rest: seq<Heading>, m: (string, nat) -> Option<nat>)
    requires from < e <= |s| && Covers(s, e, rest, m)
    ensures Covers(s, from, [Heading(from, s[from..e])] + rest, m)
  {
    var hs := [Heading(from, s[from..e])] + rest;
    forall q: nat | from <= q < |s| && m(s, q).Some?
      ensures exists k | 0 <= k < |hs| :: hs[k].start <= q < End(hs[k])
    {
      if q < e {
        assert hs[0].start <= q < End(hs[0]);
      } else {
        var k :| 0 <= k < |rest| && rest[k].start <= q < End(rest[k]);
        assert hs[k + 1] == rest[k];
      }
    }
  }

  /** No match at `from`: covering the matches from from + 1 on covers those from `from` on. */
  lemma CoversSkip(s: string, from: nat, hs: seq<Heading>, m: (string, nat) -> Option<nat>)
    requires m(s, from).None? && Covers(s, from + 1, hs, m)
    ensures Covers(s, from, hs, m)
  {
    forall q: nat | from <= q < |s| && m(s, q).Some?
      ensures exists k | 0 <= k < |hs| :: hs[k].start <= q < End(hs[k])
    {
      assert q != from;
    }
  }

  /** Every match text starts with 第 and ends with '\n', and has no other line break. */
  lemma HeadingShape(s: string, p: nat)
    requires HeadingAt(s, p).Some?
    ensures var t := s[p..HeadingAt(s, p).value];
      && t[0] == '第' && t[|t| - 1] == '\n'
      && forall k | 0 <= k < |t| - 1 :: t[k] != '\n'
  {
    var n := NumeralRun(s, p + 1);
    var e := NextBreak(s, p + 2 + n).value;
    var t := s[p..e + 1];
    forall k | 0 <= k < |t| - 1 ensures t[k] != '\n' {
      assert t[k] == s[p + k];
      if p + k < p + 2 + n {
        assert s[p + k] == '第' || IsNumeral(s[p + k]) || IsHeadingMark(s[p + k]);
      }
    }
  }

  /** Where chapter k's text ends: at the next match, or at the end of the text. */
  function NextStart(s: string, hs: seq<Heading>, k: nat): nat
    requires k < |hs|
  {
    if k + 1 < |hs| then hs[k + 1].start else |s|
  }

  /** What cutting the text at the matches relies on: each match text is the text at its
      position, opens with 第, and ends before the next match starts. */
  ghost predicate Cuts(s: string, hs: seq<Heading>) {
    forall k | 0 <= k < |hs| ::
      && End(hs[k]) <= NextStart(s, hs, k) <= |s|
      && hs[k].text == s[hs[k].start..End(hs[k])]
      && hs[k].text != [] && hs[k].text[0] == '第'
  }

  lemma LeftmostCuts(s: string, hs: seq<Heading>)
    requires Leftmost(s, hs)
    ensures Cuts(s, hs)
  {
    forall k | 0 <= k < |hs| ensures hs[k].text != [] && hs[k].text[0] == '第' {
      MatchOpens(s, hs[k].start);
    }
  }

  /** Chapter k's body: the stripped text from its heading to the next, its heading line included. */
  function Body(s: string, hs: seq<Heading>, k: nat): string
    requires k < |hs|
  {
    Strip(Slice(s, hs[k].start, NextStart(s, hs, k)))
  }

  /** The titles of the matches, stripped. */
  function HeadingTitles(hs: seq<Heading>): (ts: seq<string>)
    ensures |ts| == |hs| && forall k | 0 <= k < |hs| :: ts[k] == Strip(hs[k].text)
  {
    if hs == [] then [] else HeadingTitles(hs[..|hs| - 1]) + [Strip(hs[|hs| - 1].text)]
  }

  /** A chapter's body starts with its own heading title: the heading line opens the slice
      and only the line break and whitespace after the title are trimmed from it. */
  lemma BodyStartsWithTitle(s: string, hs: seq<Heading>, k: nat)
    requires k < |hs| && Cuts(s, hs)
    ensures Strip(hs[k].text) != []
    ensures StartsWith(Body(s, hs, k), Strip(hs[k].text))
  {
    var p := hs[k].start;
    var t := hs[k].text;
    var n := NextStart(s, hs, k);
    assert End(hs[k]) <= n <= |s| && t == s[p..End(hs[k])] && t != [] && t[0] == '第';
    var slice := s[p..n];
    SliceHead(s, p, End(hs[k]), n);
    StripPrefix(slice, t);
  }

  lemma SliceHead(s: string, p: nat, e: nat, n: nat)
    requires p <= e <= n <= |s|
    ensures |s[p..e]| <= |s[p..n]| && s[p..n][..e - p] == s[p..e]
  {
  }

  lemma MatchOpens(s: string, p: nat)
    requires HeadingAt(s, p).Some?
    ensures p < |s| && s[p] == '第'
  {
  }

  /** A text opening with a line that starts with a non-space character keeps that line,
      stripped at its end, at its head once stripped. */
  lemma StripPrefix(slice: string, t: string)
    requires |t| <= |slice| && slice[..|t|] == t && t != [] && !IsSpace(t[0])
    ensures Strip(t) != [] && StartsWith(Strip(slice), Strip(t))
  {
    assert TrimStartBy(t, IsSpace) == t;
    assert TrimStartBy(slice, IsSpace) == slice;
    TrimEndFacts(t, IsSpace);
    var u := TrimEndBy(t, IsSpace);
    assert |u| >= 1;
    assert slice[|u| - 1] == u[|u| - 1];
    TrimEndKeeps(slice, |u|);
    assert slice[..|u|] == u;
  }

  /** Trimming the end never reaches past a character that is not whitespace. */
  lemma {:induction false} TrimEndKeeps(s: string, n: nat)
    requires 1 <= n <= |s| && !IsSpace(s[n - 1])
    ensures |TrimEndBy(s, IsSpace)| >= n && TrimEndBy(s, IsSpace)[..n] == s[..n]
    decreases |s|
  {
    if |s| > n {
      assert s[..|s| - 1][n - 1] == s[n - 1];
      TrimEndKeeps(s[..|s| - 1], n);
      assert s[..|s| - 1][..n] == s[..n];
    }
  }
}

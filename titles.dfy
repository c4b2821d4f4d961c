/** Chapter-title canonicalisation and chapter numbering: the timestamp patterns removed from
    scraped titles, the title cleaner of the xqbj crawler, the number taken from a title, and
    the special-chapter test with its sort information used by the order-repair pass. */
module Titles {
  import opened Wrappers
  import opened Strings

  /** One element of a fixed timestamp pattern: `\d`, a literal character, or `\s+`. */
  datatype Token = Digit | Lit(c: char) | Spaces

  /** Length of the longest prefix of s made of whitespace. */
  function SpaceRun(s: string): (n: nat)
    ensures n <= |s|
    ensures forall i | 0 <= i < n :: IsSpace(s[i])
    ensures n == |s| || !IsSpace(s[n])
  {
    if |s| > 0 && IsSpace(s[0]) then 1 + SpaceRun(s[1..]) else 0
  }

  /** Length of the longest prefix of s made of ASCII digits. */
  function DigitRun(s: string): (n: nat)
    ensures n <= |s|
    ensures AllDigits(s[..n])
    ensures n == |s| || !IsDigit(s[n])
  {
    if |s| > 0 && IsDigit(s[0]) then
      var n := 1 + DigitRun(s[1..]);
      assert forall i | 1 <= i < n :: s[..n][i] == s[1..][..n - 1][i - 1];
      n
    else 0
  }

  /** The length of the match of pattern p at the start of s, if it matches there.  A
      `Spaces` token takes the whole whitespace run; in the patterns below it is always
      followed by a digit, so no shorter run could let the rest of the pattern match and
      this is the regular-expression engine's answer. */
  function MatchAt(p: seq<Token>, s: string): (r: Option<nat>)
    ensures r.Some? ==> |p| <= r.value <= |s|
    decreases |p|
  {
    if p == [] then Some(0)
    else
      var width :=
        match p[0]
        case Digit => if |s| > 0 && IsDigit(s[0]) then 1 else 0
        case Lit(c) => if |s| > 0 && s[0] == c then 1 else 0
        case Spaces => SpaceRun(s);
      if width == 0 then None
      else
        match MatchAt(p[1..], s[width..])
        case None => None
        case Some(n) => Some(width + n)
  }

  /** `\d{4}-\d{2}-\d{2}\s+\d{2}:\d{2}:\d{2}`, e.g. 2024-10-21 21:01:22 */
  const StampDateTime: seq<Token> :=
    [Digit, Digit, Digit, Digit, Lit('-'), Digit, Digit, Lit('-'), Digit, Digit, Spaces,
     Digit, Digit, Lit(':'), Digit, Digit, Lit(':'), Digit, Digit]

  /** `\d{2}/\d{2}/\d{4}\s+\d{2}:\d{2}`, e.g. 10/21/2024 21:01 */
  const StampSlashed: seq<Token> :=
    [Digit, Digit, Lit('/'), Digit, Digit, Lit('/'), Digit, Digit, Digit, Digit, Spaces,
     Digit, Digit, Lit(':'), Digit, Digit]

  /** `\d{4}-\d{2}-\d{2} \d{2}:\d{2}:\d{2}` with exactly one space. */
  const StampOneSpace: seq<Token> :=
    [Digit, Digit, Digit, Digit, Lit('-'), Digit, Digit, Lit('-'), Digit, Digit, Lit(' '),
     Digit, Digit, Lit(':'), Digit, Digit, Lit(':'), Digit, Digit]

  /** Deletes the matches of p: scanning left to right, each match found is deleted and the scan
      resumes after it; elsewhere characters are kept. */
  function RemoveMatches(s: string, p: seq<Token>): (r: string)
    requires |p| > 0
    ensures |r| <= |s|
    decreases |s|
  {
    if s == [] then []
    else
      match MatchAt(p, s)
      case Some(n) => RemoveMatches(s[n..], p)
      case None => [s[0]] + RemoveMatches(s[1..], p)
  }

  /** p matches nowhere in s. */
  predicate NoMatch(s: string, p: seq<Token>) {
    forall i | 0 <= i <= |s| :: MatchAt(p, s[i..]).None?
  }

  /** A text in which the pattern matches nowhere is left alone. */
  lemma {:induction false} RemoveMatchesNone(s: string, p: seq<Token>)
    requires |p| > 0 && NoMatch(s, p)
    ensures RemoveMatches(s, p) == s
    decreases |s|
  {
    if s != [] {
      NoMatchTail(s, p);
      RemoveMatchesNone(s[1..], p);
      assert [s[0]] + s[1..] == s;
    }
  }

  /** No match anywhere means none at the start, and none anywhere after it. */
  lemma NoMatchTail(s: string, p: seq<Token>)
    requires s != [] && NoMatch(s, p)
    ensures MatchAt(p, s).None? && NoMatch(s[1..], p)
  {
    assert MatchAt(p, s[0..]).None?;
    assert s[0..] == s;
    forall i | 0 <= i <= |s[1..]| ensures MatchAt(p, s[1..][i..]).None? {
      assert s[1..][i..] == s[i + 1..];
      assert MatchAt(p, s[i + 1..]).None?;
    }
  }

  /** str.replace('　', ' ') */
  function WidenSpaces(s: string): (r: string)
    ensures |r| == |s|
    ensures forall i | 0 <= i < |s| :: r[i] == if s[i] == IdeographicSpace then ' ' else s[i]
  {
    if s == [] then []
    else [if s[0] == IdeographicSpace then ' ' else s[0]] + WidenSpaces(s[1..])
  }

  /** Every maximal whitespace run becomes one space. */
  function CollapseSpaces(s: string): string
    decreases |s|
  {
    if s == [] then []
    else if IsSpace(s[0]) then [' '] + CollapseSpaces(s[SpaceRun(s)..])
    else [s[0]] + CollapseSpaces(s[1..])
  }

  /** A title in canonical spacing: its only whitespace character is the plain space, it has
      no ideographic space, and no two whitespace characters are adjacent. */
  predicate Tidy(s: string) {
    && (forall i | 0 <= i < |s| :: IsSpace(s[i]) ==> s[i] == ' ')
    && (forall i | 0 <= i < |s| - 1 :: !(IsSpace(s[i]) && IsSpace(s[i + 1])))
  }

  lemma {:induction false} CollapseSpacesTidy(s: string)
    ensures Tidy(CollapseSpaces(s))
    ensures CollapseSpaces(s) == [] <==> s == []
    ensures s != [] && !IsSpace(s[0]) ==> CollapseSpaces(s)[0] == s[0]
    decreases |s|
  {
    if s != [] {
      var k := if IsSpace(s[0]) then SpaceRun(s) else 1;
      assert k >= 1;
      CollapseSpacesTidy(s[k..]);
      var rest := CollapseSpaces(s[k..]);
      var c := if IsSpace(s[0]) then ' ' else s[0];
      assert CollapseSpaces(s) == [c] + rest;
      if IsSpace(s[0]) && rest != [] {
        assert s[k..][0] == s[k] && !IsSpace(s[k]);
      }
      TidyCons(c, rest);
    }
  }

  /** A character put in front of a tidy string keeps it tidy when it is no whitespace but
      a plain space, and no space when the string opens with one. */
  lemma TidyCons(c: char, rest: string)
    requires Tidy(rest) && (IsSpace(c) ==> c == ' ')
    requires IsSpace(c) && rest != [] ==> !IsSpace(rest[0])
    ensures Tidy([c] + rest)
  {
    var r := [c] + rest;
    assert forall i | 1 <= i < |r| :: r[i] == rest[i - 1];
  }

  /** A tidy title is a fixed point of space collapsing. */
  lemma {:induction false} CollapseSpacesTidyNoop(s: string)
    requires Tidy(s)
    ensures CollapseSpaces(s) == s
    decreases |s|
  {
    if s != [] {
      assert Tidy(s[1..]);
      CollapseSpacesTidyNoop(s[1..]);
      if IsSpace(s[0]) {
        assert |s| == 1 || !IsSpace(s[1]);
        assert SpaceRun(s) == 1;
      }
      assert [s[0]] + s[1..] == s;
    }
  }

  /** The characters trimmed from the ends of a title: `[\s|_\-]`. */
  predicate EdgeJunk(c: char) {
    IsSpace(c) || c == '|' || c == '_' || c == '-'
  }

  /** clean_chapter_title */
  function CleanTitle(title: string): string {
    var t := RemoveMatches(RemoveMatches(title, StampDateTime), StampSlashed);
    TrimBy(CollapseSpaces(WidenSpaces(Strip(t))), EdgeJunk)
  }

  /** A slice of a tidy string is tidy. */
  lemma TidySlice(s: string, a: nat, b: nat)
    requires Tidy(s) && a <= b <= |s|
    ensures Tidy(s[a..b])
  {
    var t := s[a..b];
    assert forall i | 0 <= i < |t| :: t[i] == s[a + i];
  }

  /** The shape of a cleaned title: it neither begins nor ends with whitespace, `|`, `_` or
      `-`; it holds no ideographic space; every whitespace character in it is a plain space
      and no two of them are adjacent. */
  lemma CleanTitleShape(title: string)
    ensures var r := CleanTitle(title);
      && (r == [] || (!EdgeJunk(r[0]) && !EdgeJunk(r[|r| - 1])))
      && (forall i | 0 <= i < |r| :: r[i] != IdeographicSpace)
      && Tidy(r)
  {
    var t := RemoveMatches(RemoveMatches(title, StampDateTime), StampSlashed);
    var c := CollapseSpaces(WidenSpaces(Strip(t)));
    CollapseSpacesTidy(WidenSpaces(Strip(t)));
    TrimTidy(c);
    assert IsSpace(IdeographicSpace);
  }

  /** Trimming the edge characters off a tidy string leaves it tidy. */
  lemma TrimTidy(c: string)
    requires Tidy(c)
    ensures var r := TrimBy(c, EdgeJunk);
      Tidy(r) && (r == [] || (!EdgeJunk(r[0]) && !EdgeJunk(r[|r| - 1])))
  {
    TrimByShape(c, EdgeJunk);
    var a := |c| - |TrimStartBy(c, EdgeJunk)|;
    var r := TrimBy(c, EdgeJunk);
    TidySlice(c, a, a + |r|);
  }

  /** Cleaning a cleaned title again changes nothing, provided no timestamp pattern occurs in
      it. */
  lemma CleanTitleIdempotent(title: string)
    requires NoMatch(CleanTitle(title), StampDateTime)
    requires NoMatch(CleanTitle(title), StampSlashed)
    ensures CleanTitle(CleanTitle(title)) == CleanTitle(title)
  {
    var r := CleanTitle(title);
    CleanTitleShape(title);
    RemoveMatchesNone(r, StampDateTime);
    RemoveMatchesNone(r, StampSlashed);
    TrimByNoop(r, IsSpace);
    assert WidenSpaces(r) == r;
    CollapseSpacesTidyNoop(r);
    TrimByNoop(r, EdgeJunk);
  }

  /** The title rewrite of the timestamp-stripping pass: every one-space date-time stamp
      removed, then the title stripped. */
  function StripStamps(title: string): string {
    Strip(RemoveMatches(title, StampOneSpace))
  }

  /** A title with no such stamp and no whitespace at either end is left untouched. */
  lemma StripStampsNoop(title: string)
    requires NoMatch(title, StampOneSpace)
    requires title == [] || (!IsSpace(title[0]) && !IsSpace(title[|title| - 1]))
    ensures StripStamps(title) == title
  {
    RemoveMatchesNone(title, StampOneSpace);
    TrimByNoop(title, IsSpace);
  }

  /** The number N of the first `第N章` in s (leftmost '第' followed by a digit run and then
      '章'), as re.search(r'第(\d+)章', s) finds it. */
  function ChapterMark(s: string): Option<nat>
    decreases |s|
  {
    if s == [] then None
    else
      var t := s[1..];
      var k := DigitRun(t);
      if s[0] == '第' && 0 < k < |t| && t[k] == '章' then Some(DecimalValue(t[..k]))
      else ChapterMark(t)
  }

  /** The value of the first maximal digit run of s, read as a decimal number. */
  function FirstNumber(s: string): Option<nat>
    decreases |s|
  {
    if s == [] then None
    else if IsDigit(s[0]) then Some(DecimalValue(s[..DigitRun(s)]))
    else FirstNumber(s[1..])
  }

  /** extract_chapter_number: the N of the first `第N章`, else the first number, else 0. */
  function ChapterNumber(title: string): nat {
    match ChapterMark(title)
    case Some(n) => n
    case None =>
      match FirstNumber(title)
      case Some(n) => n
      case None => 0
  }

  lemma DigitRunDecimal(n: nat, rest: string)
    requires rest == [] || !IsDigit(rest[0])
    ensures DigitRun(Decimal(n) + rest) == |Decimal(n)|
    ensures (Decimal(n) + rest)[..|Decimal(n)|] == Decimal(n)
  {
    var d := Decimal(n);
    assert (d + rest)[..|d|] == d;
    DigitRunDigits(d, rest);
  }

  /** The digit run of digits followed by a non-digit is the digits. */
  lemma {:induction false} DigitRunDigits(d: string, rest: string)
    requires AllDigits(d) && (rest == [] || !IsDigit(rest[0]))
    ensures DigitRun(d + rest) == |d|
    decreases |d|
  {
    if d == [] {
      assert d + rest == rest;
    } else {
      assert IsDigit(d[0]);
      assert (d + rest)[1..] == d[1..] + rest;
      assert AllDigits(d[1..]);
      DigitRunDigits(d[1..], rest);
    }
  }

  /** `第N章` is read back as N wherever it stands, even after other digits, provided no
      '第' comes before it. */
  lemma {:induction false} ChapterMarkRoundTrip(before: string, n: nat, after: string)
    requires '第' !in before
    ensures ChapterMark(before + "第" + Decimal(n) + "章" + after) == Some(n)
    ensures ChapterNumber(before + "第" + Decimal(n) + "章" + after) == n
    decreases |before|
  {
    var s := before + "第" + Decimal(n) + "章" + after;
    if before == [] {
      var t := Decimal(n) + ("章" + after);
      assert s[1..] == t;
      DigitRunDecimal(n, "章" + after);
      assert s[1..1 + |Decimal(n)|] == Decimal(n);
      DecimalRoundTrip(n);
    } else {
      assert s[0] != '第' by { assert s[0] == before[0]; }
      assert s[1..] == before[1..] + "第" + Decimal(n) + "章" + after;
      ChapterMarkRoundTrip(before[1..], n, after);
    }
  }

  /** Without a `第N章`, the number is that of the first digit run, whatever follows it. */
  lemma {:induction false} FirstNumberRoundTrip(before: string, n: nat, after: string)
    requires forall i | 0 <= i < |before| :: !IsDigit(before[i])
    requires after == [] || !IsDigit(after[0])
    requires ChapterMark(before + Decimal(n) + after).None?
    ensures ChapterNumber(before + Decimal(n) + after) == n
  {
    FirstNumberAt(before, n, after);
  }

  lemma {:induction false} FirstNumberAt(before: string, n: nat, after: string)
    requires forall i | 0 <= i < |before| :: !IsDigit(before[i])
    requires after == [] || !IsDigit(after[0])
    ensures FirstNumber(before + Decimal(n) + after) == Some(n)
    decreases |before|
  {
    var s := before + Decimal(n) + after;
    if before == [] {
      assert s == Decimal(n) + after;
      DigitRunDecimal(n, after);
      DecimalRoundTrip(n);
    } else {
      assert s[0] == before[0];
      assert s[1..] == before[1..] + Decimal(n) + after;
      FirstNumberAt(before[1..], n, after);
    }
  }

  /** A title without any digit has number 0. */
  lemma {:induction false} NoDigitsNoNumber(title: string)
    requires forall i | 0 <= i < |title| :: !IsDigit(title[i])
    ensures ChapterMark(title).None? && FirstNumber(title).None?
    ensures ChapterNumber(title) == 0
    decreases |title|
  {
    if title != [] {
      NoDigitsNoNumber(title[1..]);
      if |title| > 1 {
        assert DigitRun(title[1..]) == 0 by { assert !IsDigit(title[1..][0]); }
      }
    }
  }

  /** The keywords that mark an extra or special chapter. */
  const SpecialKeywords: seq<string> := ["番外", "后记", "附录", "特别篇", "外传"]

  /** any(keyword in title for keyword in the special keywords) */
  predicate IsSpecial(title: string) {
    exists k | 0 <= k < |SpecialKeywords| :: Contains(title, SpecialKeywords[k])
  }

  /** The sentinel number of a title without digits in the order-repair pass. */
  const NoNumber: nat := 999999

  /** Some character of s is a digit. */
  predicate HasDigit(s: string) {
    exists i | 0 <= i < |s| :: IsDigit(s[i])
  }

  /** A first number exists exactly when some digit does. */
  lemma {:induction false} FirstNumberSome(s: string)
    ensures FirstNumber(s).Some? <==> HasDigit(s)
    decreases |s|
  {
    if s != [] && !IsDigit(s[0]) {
      FirstNumberSome(s[1..]);
      assert HasDigit(s) ==> HasDigit(s[1..]) by {
        if HasDigit(s) {
          var i :| 0 <= i < |s| && IsDigit(s[i]);
          assert i > 0 && IsDigit(s[1..][i - 1]);
        }
      }
      assert HasDigit(s[1..]) ==> HasDigit(s) by {
        if HasDigit(s[1..]) {
          var i :| 0 <= i < |s[1..]| && IsDigit(s[1..][i]);
          assert IsDigit(s[i + 1]);
        }
      }
    } else if s != [] {
      assert IsDigit(s[0]);
    }
  }

  /** A `第N章` holds a digit. */
  lemma {:induction false} ChapterMarkDigit(s: string)
    requires ChapterMark(s).Some?
    ensures HasDigit(s)
    decreases |s|
  {
    var t := s[1..];
    var k := DigitRun(t);
    if s[0] == '第' && 0 < k < |t| && t[k] == '章' {
      assert IsDigit(t[..k][0]);
      assert IsDigit(s[1]);
    } else {
      ChapterMarkDigit(t);
      var i :| 0 <= i < |t| && IsDigit(t[i]);
      assert IsDigit(s[i + 1]);
    }
  }

  /** extract_chapter_info's number: the number extract_chapter_number reads when the title
      holds a digit, and the sentinel 999999 when it holds none. */
  function RepairNumber(title: string): (n: nat)
    ensures HasDigit(title) ==> n == ChapterNumber(title)
    ensures !HasDigit(title) ==> n == NoNumber
  {
    FirstNumberSome(title);
    if ChapterMark(title).Some? then ChapterMarkDigit(title); ChapterMark(title).value
    else
      match FirstNumber(title)
      case Some(n) => n
      case None => NoNumber
  }

  /** The two sort numbers agree exactly on titles that hold a digit: a digit-free title
      has number 0 for extract_chapter_number and 999999 here. */
  lemma RepairNumberAgrees(title: string)
    ensures RepairNumber(title) == ChapterNumber(title) <==> HasDigit(title)
  {
    FirstNumberSome(title);
    if !HasDigit(title) {
      if ChapterMark(title).Some? {
        ChapterMarkDigit(title);
      }
    }
  }

  /** extract_chapter_info's type: 0 for a special chapter, 1 otherwise. */
  function ChapterType(title: string): (t: nat)
    ensures t == 0 <==> IsSpecial(title)
    ensures t <= 1
  {
    if IsSpecial(title) then 0 else 1
  }

  /** A title naming one of the keywords is special, wherever the keyword stands. */
  lemma SpecialByKeyword(a: string, k: nat, b: string)
    requires k < |SpecialKeywords|
    ensures ChapterType(a + SpecialKeywords[k] + b) == 0
  {
    ContainsSubstring(a, SpecialKeywords[k], b, SpecialKeywords[k]);
    assert Contains(SpecialKeywords[k], SpecialKeywords[k]);
  }
}

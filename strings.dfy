/** Text primitives with the semantics of the Python operations the ingestion code uses:
    str.strip / str.strip(chars), str.split('\n'), '\n'.join, str.replace, `in` on
    strings, str(n) and int(digits), and the UTF-8 byte length of a string. */
module Strings {

  /** The characters for which Python's str.isspace() holds; the same set is matched by the
      regular-expression class `\s` and removed by str.strip() with no argument.  U+3000
      (the ideographic space used as a paragraph indent) is one of them. */
  predicate IsSpace(c: char) {
    || c == ' '
    || ('\t' <= c <= '\r')
    || ('\U{1C}' <= c <= '\U{1F}')
    || c == '\U{85}' || c == '\U{A0}' || c == '\U{1680}'
    || ('\U{2000}' <= c <= '\U{200A}')
    || c == '\U{2028}' || c == '\U{2029}' || c == '\U{202F}' || c == '\U{205F}'
    || c == '\U{3000}'
  }

  /** The ideographic space U+3000. */
  const IdeographicSpace: char := '\U{3000}'

  /** ASCII decimal digits (the model's reading of `\d`). */
  predicate IsDigit(c: char) {
    '0' <= c <= '9'
  }

  predicate AllDigits(s: string) {
    forall i | 0 <= i < |s| :: IsDigit(s[i])
  }

  function DigitChar(d: nat): (c: char)
    requires d < 10
    ensures IsDigit(c)
  {
    ('0' as int + d) as char
  }

  function DigitValue(c: char): (d: nat)
    requires IsDigit(c)
    ensures d < 10 && DigitChar(d) == c
  {
    c as int - '0' as int
  }

  /** int(s) for a string of ASCII digits (leading zeros allowed, as in Python). */
  function DecimalValue(s: string): nat
    requires AllDigits(s)
  {
    if |s| == 0 then 0 else DecimalValue(s[..|s| - 1]) * 10 + DigitValue(s[|s| - 1])
  }

  /** str(n) for a natural number. */
  function Decimal(n: nat): (r: string)
    ensures |r| >= 1 && AllDigits(r)
  {
    if n < 10 then [DigitChar(n)] else Decimal(n / 10) + [DigitChar(n % 10)]
  }

  /** int(str(n)) == n. */
  lemma {:induction false} DecimalRoundTrip(n: nat)
    ensures DecimalValue(Decimal(n)) == n
  {
    var r := Decimal(n);
    if n >= 10 {
      DecimalRoundTrip(n / 10);
      assert r[..|r| - 1] == Decimal(n / 10);
    }
  }

  lemma DecimalInjective(m: nat, n: nat)
    requires Decimal(m) == Decimal(n)
    ensures m == n
  {
    DecimalRoundTrip(m);
    DecimalRoundTrip(n);
  }

  /** "c" * n */
  function Repeat(c: char, n: nat): (r: string)
    ensures |r| == n && forall i | 0 <= i < n :: r[i] == c
  {
    if n == 0 then [] else Repeat(c, n - 1) + [c]
  }

  predicate StartsWith(s: string, w: string) {
    |w| <= |s| && s[..|w|] == w
  }

  predicate EndsWith(s: string, w: string) {
    |w| <= |s| && s[|s| - |w|..] == w
  }

  /** Python's `w in s`. */
  predicate Contains(s: string, w: string)
    decreases |s|
  {
    StartsWith(s, w) || (|s| > 0 && Contains(s[1..], w))
  }

  lemma ContainsAt(s: string, w: string, i: nat)
    requires i + |w| <= |s| && s[i..i + |w|] == w
    ensures Contains(s, w)
    decreases i
  {
    if i > 0 {
      assert s[1..][i - 1..i - 1 + |w|] == w;
      ContainsAt(s[1..], w, i - 1);
    }
  }

  lemma ContainsSubstring(a: string, b: string, c: string, w: string)
    requires Contains(b, w)
    ensures Contains(a + b + c, w)
    decreases |b|
  {
    if StartsWith(b, w) {
      assert (a + b + c)[|a|..|a| + |w|] == w;
      ContainsAt(a + b + c, w, |a|);
    } else {
      assert a + b + c == (a + [b[0]]) + b[1..] + c;
      ContainsSubstring(a + [b[0]], b[1..], c, w);
    }
  }

  /** s[a:b] as Python slices with non-negative bounds: clipped to the end of s, and empty
      when the bounds cross. */
  function Slice(s: string, a: nat, b: nat): (r: string)
    ensures a <= b <= |s| ==> r == s[a..b]
    ensures a <= |s| <= b ==> r == s[a..]
    ensures b <= a || |s| <= a ==> r == []
  {
    var hi := if b <= |s| then b else |s|;
    if a <= hi then s[a..hi] else []
  }

  /** Every character of s satisfies p. */
  predicate AllChars(s: string, p: char -> bool) {
    forall i | 0 <= i < |s| :: p(s[i])
  }

  lemma AllCharsConcat(a: string, b: string, p: char -> bool)
    ensures AllChars(a + b, p) <==> AllChars(a, p) && AllChars(b, p)
  {
    if AllChars(a, p) && AllChars(b, p) {
      forall i | 0 <= i < |a + b| ensures p((a + b)[i]) {
        if i >= |a| { assert (a + b)[i] == b[i - |a|]; }
      }
    }
    if AllChars(a + b, p) {
      forall i | 0 <= i < |a| ensures p(a[i]) { assert (a + b)[i] == a[i]; }
      forall i | 0 <= i < |b| ensures p(b[i]) { assert (a + b)[|a| + i] == b[i]; }
    }
  }

  lemma AllCharsSlice(s: string, a: nat, b: nat, p: char -> bool)
    requires AllChars(s, p) && a <= b <= |s|
    ensures AllChars(s[a..b], p)
  {
    forall i | 0 <= i < b - a ensures p(s[a..b][i]) { assert s[a..b][i] == s[a + i]; }
  }

  /** What holds w still holds it with text added at the end. */
  lemma {:induction false} ContainsExtend(a: string, b: string, w: string)
    requires Contains(a, w)
    ensures Contains(a + b, w)
    decreases |a|
  {
    if StartsWith(a, w) {
      assert (a + b)[..|w|] == a[..|w|];
    } else {
      assert (a + b)[1..] == a[1..] + b;
      ContainsExtend(a[1..], b, w);
    }
  }

  /** A text holding w holds w's first character. */
  lemma {:induction false} ContainsFirst(s: string, w: string)
    requires |w| > 0 && Contains(s, w)
    ensures w[0] in s
    decreases |s|
  {
    if !StartsWith(s, w) {
      ContainsFirst(s[1..], w);
    } else {
      assert s[0] == s[..|w|][0];
    }
  }

  /** Removes the longest prefix of characters satisfying drop. */
  function TrimStartBy(s: string, drop: char -> bool): (r: string)
    ensures |r| <= |s|
  {
    if |s| > 0 && drop(s[0]) then TrimStartBy(s[1..], drop) else s
  }

  /** Removes the longest suffix of characters satisfying drop. */
  function TrimEndBy(s: string, drop: char -> bool): (r: string)
    ensures |r| <= |s|
  {
    if |s| > 0 && drop(s[|s| - 1]) then TrimEndBy(s[..|s| - 1], drop) else s
  }

  /** What is left after trimming the start is a suffix starting with a kept character,
      everything before it being dropped. */
  lemma {:induction false} TrimStartFacts(s: string, drop: char -> bool)
    ensures var r := TrimStartBy(s, drop);
      && r == s[|s| - |r|..]
      && (r == [] || !drop(r[0]))
      && (forall i | 0 <= i < |s| - |r| :: drop(s[i]))
  {
    if |s| > 0 && drop(s[0]) {
      TrimStartFacts(s[1..], drop);
    }
  }

  /** What is left after trimming the end is a prefix ending with a kept character,
      everything after it being dropped. */
  lemma {:induction false} TrimEndFacts(s: string, drop: char -> bool)
    ensures var r := TrimEndBy(s, drop);
      && r == s[..|r|]
      && (r == [] || !drop(r[|r| - 1]))
      && (forall i | |r| <= i < |s| :: drop(s[i]))
  {
    if |s| > 0 && drop(s[|s| - 1]) {
      TrimEndFacts(s[..|s| - 1], drop);
    }
  }

  /** s.strip(chars) where chars is the set described by drop. */
  function TrimBy(s: string, drop: char -> bool): string {
    TrimEndBy(TrimStartBy(s, drop), drop)
  }

  /** s.strip() */
  function Strip(s: string): string {
    TrimBy(s, IsSpace)
  }

  /** What a trim leaves: a slice of s whose first and last characters are kept ones,
      everything cut off on either side being dropped characters. */
  lemma TrimByShape(s: string, drop: char -> bool)
    ensures var r, a := TrimBy(s, drop), |s| - |TrimStartBy(s, drop)|;
      && a + |r| <= |s|
      && (r == [] || (!drop(r[0]) && !drop(r[|r| - 1])))
      && s[a..a + |r|] == r
      && (forall i | 0 <= i < a :: drop(s[i]))
      && (forall i | a + |r| <= i < |s| :: drop(s[i]))
  {
    var t := TrimStartBy(s, drop);
    TrimStartFacts(s, drop);
    TrimEndFacts(t, drop);
    TrimmedBothEnds(s, t, TrimEndBy(t, drop), drop);
  }

  /** A suffix t of s cut after dropped characters, then a prefix r of t cut before dropped
      ones, is the slice of s the trim describes. */
  lemma TrimmedBothEnds(s: string, t: string, r: string, drop: char -> bool)
    requires |t| <= |s| && t == s[|s| - |t|..] && (t == [] || !drop(t[0]))
    requires forall i | 0 <= i < |s| - |t| :: drop(s[i])
    requires |r| <= |t| && r == t[..|r|] && (r == [] || !drop(r[|r| - 1]))
    requires forall i | |r| <= i < |t| :: drop(t[i])
    ensures var a := |s| - |t|;
      && a + |r| <= |s|
      && (r == [] || (!drop(r[0]) && !drop(r[|r| - 1])))
      && s[a..a + |r|] == r
      && (forall i | a + |r| <= i < |s| :: drop(s[i]))
  {
    var a := |s| - |t|;
    if r != [] {
      assert r[0] == t[0];
    }
    forall i | a + |r| <= i < |s| ensures drop(s[i]) {
      assert s[i] == t[i - a];
    }
  }

  /** A trim leaves nothing exactly when every character is a dropped one. */
  lemma TrimByEmpty(s: string, drop: char -> bool)
    ensures TrimBy(s, drop) == [] <==> forall i | 0 <= i < |s| :: drop(s[i])
  {
    if !forall i | 0 <= i < |s| :: drop(s[i]) {
      TrimByShape(s, drop);
    } else {
      TrimStartAll(s, drop);
    }
  }

  lemma {:induction false} TrimStartAll(s: string, drop: char -> bool)
    requires forall i | 0 <= i < |s| :: drop(s[i])
    ensures TrimStartBy(s, drop) == []
  {
    if |s| > 0 {
      TrimStartAll(s[1..], drop);
    }
  }

  /** Trimming leaves alone a string whose ends are not dropped characters. */
  lemma TrimByNoop(s: string, drop: char -> bool)
    requires s == [] || (!drop(s[0]) && !drop(s[|s| - 1]))
    ensures TrimBy(s, drop) == s
  {
  }

  /** Trimming is idempotent. */
  lemma TrimByIdempotent(s: string, drop: char -> bool)
    ensures TrimBy(TrimBy(s, drop), drop) == TrimBy(s, drop)
  {
    TrimByShape(s, drop);
    TrimByNoop(TrimBy(s, drop), drop);
  }

  /** s.split(sep) for a one-character separator. */
  function Split(s: string, sep: char): (parts: seq<string>)
    ensures |parts| >= 1
  {
    if s == [] then [[]]
    else
      var rest := Split(s[1..], sep);
      if s[0] == sep then [[]] + rest else [[s[0]] + rest[0]] + rest[1..]
  }

  /** sep.join(parts) for a one-character separator. */
  function Join(parts: seq<string>, sep: string): string {
    if |parts| == 0 then []
    else if |parts| == 1 then parts[0]
    else parts[0] + sep + Join(parts[1..], sep)
  }

  /** No piece produced by split contains the separator. */
  lemma {:induction false} SplitPartsFree(s: string, sep: char)
    ensures forall p | p in Split(s, sep) :: sep !in p
  {
    if s != [] {
      SplitPartsFree(s[1..], sep);
    }
  }

  /** sep.join(s.split(sep)) == s */
  lemma {:induction false} JoinSplit(s: string, sep: char)
    ensures Join(Split(s, sep), [sep]) == s
  {
    if s != [] {
      var rest := Split(s[1..], sep);
      JoinSplit(s[1..], sep);
      if s[0] != sep {
        assert Split(s, sep) == [[s[0]] + rest[0]] + rest[1..];
        if |rest| == 1 {
          assert Join(Split(s, sep), [sep]) == [s[0]] + rest[0];
        } else {
          assert Join(Split(s, sep), [sep]) == [s[0]] + rest[0] + [sep] + Join(rest[1..], [sep]);
        }
      }
    }
  }

  /** Splitting a join of separator-free pieces gives back the pieces. */
  lemma {:induction false} SplitJoin(parts: seq<string>, sep: char)
    requires |parts| >= 1
    requires forall k | 0 <= k < |parts| :: sep !in parts[k]
    ensures Split(Join(parts, [sep]), sep) == parts
    decreases |parts|, |parts[0]|
  {
    if |parts[0]| > 0 {
      var p0 := parts[0];
      var parts' := [p0[1..]] + parts[1..];
      assert forall k | 0 <= k < |parts'| :: sep !in parts'[k] by {
        forall k | 0 <= k < |parts'| ensures sep !in parts'[k] {
          if k == 0 {
            assert forall c | c in p0[1..] :: c in p0;
          } else {
            assert parts'[k] == parts[k];
          }
        }
      }
      SplitJoin(parts', sep);
      if |parts| == 1 {
        assert Join(parts, [sep])[1..] == Join(parts', [sep]);
      } else {
        assert Join(parts, [sep]) == [p0[0]] + Join(parts', [sep]);
      }
      assert [p0[0]] + p0[1..] == p0;
    } else if |parts| > 1 {
      SplitJoin(parts[1..], sep);
      assert Join(parts, [sep]) == [sep] + Join(parts[1..], [sep]);
    }
  }

  /** A character property held by every character of each piece holds of the join. */
  lemma {:induction false} JoinChars(parts: seq<string>, sep: string, p: char -> bool)
    requires forall k | 0 <= k < |parts| :: AllChars(parts[k], p)
    requires AllChars(sep, p)
    ensures AllChars(Join(parts, sep), p)
    decreases |parts|
  {
    if |parts| > 1 {
      JoinChars(parts[1..], sep, p);
      AllCharsConcat(parts[0], sep, p);
      AllCharsConcat(parts[0] + sep, Join(parts[1..], sep), p);
    }
  }

  /** A character property held by every character of s holds in each piece of its split. */
  lemma {:induction false} SplitChars(s: string, sep: char, p: char -> bool)
    requires AllChars(s, p)
    ensures forall k | 0 <= k < |Split(s, sep)| :: AllChars(Split(s, sep)[k], p)
  {
    if s != [] {
      SplitChars(s[1..], sep, p);
      var rest := Split(s[1..], sep);
      if s[0] != sep {
        AllCharsConcat([s[0]], rest[0], p);
      }
    }
  }

  /** Splitting a text without the separator gives the text itself. */
  lemma {:induction false} SplitNoSep(s: string, sep: char)
    requires sep !in s
    ensures Split(s, sep) == [s]
  {
    if s != [] {
      SplitNoSep(s[1..], sep);
      assert [s[0]] + s[1..] == s;
    }
  }

  /** Python's s.replace(w, r): leftmost non-overlapping occurrences of w are replaced by r;
      with an empty w, r is inserted before every character and at the end. */
  function ReplaceAll(s: string, w: string, r: string): string
    decreases |s|
  {
    if |w| == 0 then
      (if |s| == 0 then r else r + [s[0]] + ReplaceAll(s[1..], w, r))
    else if |s| == 0 then []
    else if StartsWith(s, w) then r + ReplaceAll(s[|w|..], w, r)
    else [s[0]] + ReplaceAll(s[1..], w, r)
  }

  /** Replacing by a string of the same length keeps the length. */
  lemma {:induction false} ReplaceAllSameLength(s: string, w: string, r: string)
    requires |r| == |w|
    ensures |ReplaceAll(s, w, r)| == |s|
    decreases |s|
  {
    if |s| > 0 {
      if |w| == 0 {
        ReplaceAllSameLength(s[1..], w, r);
      } else if StartsWith(s, w) {
        ReplaceAllSameLength(s[|w|..], w, r);
      } else {
        ReplaceAllSameLength(s[1..], w, r);
      }
    }
  }

  /** A string without an occurrence of w is left alone (an empty w with an empty
      replacement changes nothing either). */
  lemma {:induction false} ReplaceAllAbsent(s: string, w: string, r: string)
    requires (|w| > 0 && !Contains(s, w)) || (|w| == 0 && |r| == 0)
    ensures ReplaceAll(s, w, r) == s
    decreases |s|
  {
    if |s| > 0 {
      ReplaceAllAbsent(s[1..], w, r);
      assert [s[0]] + s[1..] == s;
    }
  }

  /** Replacing with text whose characters have a property keeps a text whose characters
      all have it in that state. */
  lemma {:induction false} ReplaceAllChars(s: string, w: string, r: string, p: char -> bool)
    requires AllChars(s, p) && AllChars(r, p)
    ensures AllChars(ReplaceAll(s, w, r), p)
    decreases |s|
  {
    if |s| > 0 {
      AllCharsSlice(s, 1, |s|, p);
      if |w| == 0 {
        ReplaceAllChars(s[1..], w, r, p);
        AllCharsConcat(r, [s[0]], p);
        AllCharsConcat(r + [s[0]], ReplaceAll(s[1..], w, r), p);
      } else if StartsWith(s, w) {
        AllCharsSlice(s, |w|, |s|, p);
        ReplaceAllChars(s[|w|..], w, r, p);
        AllCharsConcat(r, ReplaceAll(s[|w|..], w, r), p);
      } else {
        ReplaceAllChars(s[1..], w, r, p);
        AllCharsConcat([s[0]], ReplaceAll(s[1..], w, r), p);
      }
    }
  }

  /** Replacing a character by another leaves none of it. */
  lemma {:induction false} ReplaceCharGone(s: string, c: char, d: char)
    requires c != d
    ensures c !in ReplaceAll(s, [c], [d])
    decreases |s|
  {
    if |s| > 0 {
      ReplaceCharGone(s[1..], c, d);
    }
  }

  /** Removes every word of ws in list order, each occurrence of one word before the next. */
  function RemoveWords(s: string, ws: seq<string>): string
    decreases |ws|
  {
    if |ws| == 0 then s else RemoveWords(ReplaceAll(s, ws[0], []), ws[1..])
  }

  /** A text in which no listed word occurs is left alone by word removal. */
  lemma {:induction false} RemoveWordsAbsent(s: string, ws: seq<string>)
    requires forall k | 0 <= k < |ws| :: !Contains(s, ws[k]) || ws[k] == []
    ensures RemoveWords(s, ws) == s
    decreases |ws|
  {
    if |ws| > 0 {
      ReplaceAllAbsent(s, ws[0], []);
      RemoveWordsAbsent(s, ws[1..]);
    }
  }

  /** Deleting words keeps a text whose characters all have a property in that state. */
  lemma {:induction false} RemoveWordsKeeps(s: string, ws: seq<string>, p: char -> bool)
    requires AllChars(s, p)
    ensures AllChars(RemoveWords(s, ws), p)
    decreases |ws|
  {
    if |ws| > 0 {
      ReplaceAllChars(s, ws[0], [], p);
      RemoveWordsKeeps(ReplaceAll(s, ws[0], []), ws[1..], p);
    }
  }

  /** Deleting a word never lengthens a text, and shortens it when the word occurs. */
  lemma {:induction false} ReplaceAllShrinks(s: string, w: string)
    ensures |ReplaceAll(s, w, [])| <= |s|
    ensures |w| > 0 && Contains(s, w) ==> |ReplaceAll(s, w, [])| < |s|
    decreases |s|
  {
    if |s| > 0 {
      if |w| == 0 {
        ReplaceAllShrinks(s[1..], w);
      } else if StartsWith(s, w) {
        ReplaceAllShrinks(s[|w|..], w);
      } else {
        ReplaceAllShrinks(s[1..], w);
      }
    }
  }

  lemma {:induction false} RemoveWordsShrinks(s: string, ws: seq<string>)
    ensures |RemoveWords(s, ws)| <= |s|
    decreases |ws|
  {
    if |ws| > 0 {
      ReplaceAllShrinks(s, ws[0]);
      RemoveWordsShrinks(ReplaceAll(s, ws[0], []), ws[1..]);
    }
  }

  /** A text changes under word removal exactly when some non-empty listed word occurs
      in it. */
  lemma {:induction false} RemoveWordsChanges(s: string, ws: seq<string>)
    ensures RemoveWords(s, ws) != s <==> exists k | 0 <= k < |ws| :: ws[k] != [] && Contains(s, ws[k])
    decreases |ws|
  {
    if exists k | 0 <= k < |ws| :: ws[k] != [] && Contains(s, ws[k]) {
      var k :| 0 <= k < |ws| && ws[k] != [] && Contains(s, ws[k]);
      ReplaceAllShrinks(s, ws[0]);
      var t := ReplaceAll(s, ws[0], []);
      if ws[0] != [] && Contains(s, ws[0]) {
        RemoveWordsShrinks(t, ws[1..]);
      } else {
        ReplaceAllAbsent(s, ws[0], []);
        assert ws[1..][k - 1] == ws[k];
        RemoveWordsChanges(s, ws[1..]);
      }
    } else {
      RemoveWordsAbsent(s, ws);
    }
  }

  /** Number of bytes of c in UTF-8. */
  function Utf8Width(c: char): nat {
    if c as int < 0x80 then 1
    else if c as int < 0x800 then 2
    else if c as int < 0x10000 then 3
    else 4
  }

  /** len(s.encode('utf-8')) */
  function Utf8Length(s: string): nat {
    if |s| == 0 then 0 else Utf8Length(s[..|s| - 1]) + Utf8Width(s[|s| - 1])
  }

  lemma {:induction false} Utf8LengthConcat(a: string, b: string)
    ensures Utf8Length(a + b) == Utf8Length(a) + Utf8Length(b)
    decreases |b|
  {
    if |b| > 0 {
      var b' := b[..|b| - 1];
      assert (a + b)[..|a + b| - 1] == a + b';
      assert (a + b)[|a + b| - 1] == b[|b| - 1];
      Utf8LengthConcat(a, b');
      assert Utf8Length(a + b) == Utf8Length(a + b') + Utf8Width(b[|b| - 1]);
      assert Utf8Length(b) == Utf8Length(b') + Utf8Width(b[|b| - 1]);
    } else {
      assert a + b == a;
    }
  }

  /** Every character takes between one and four bytes. */
  lemma {:induction false} Utf8LengthBounds(s: string)
    ensures |s| <= Utf8Length(s) <= 4 * |s|
  {
    if |s| > 0 {
      Utf8LengthBounds(s[..|s| - 1]);
    }
  }
}

/** The name handling of the TXT importers (import_txt_novels.py, admin.py upload_txt_view):
    the file-name stem, its `title-author` split, the `base(n)` suffixing that makes a title
    unused, the introduction cut from the text, and safe_filename. */
module Names {
  import opened Wrappers
  import opened Strings

  /** The author recorded when the file name does not name one. */
  const UnknownAuthor: string := "未知"

  /** Where the last '.' of a name is. */
  function LastDot(name: string): (r: Option<nat>)
    ensures r.Some? ==> r.value < |name| && name[r.value] == '.' && forall i | r.value < i < |name| :: name[i] != '.'
    ensures r.None? ==> '.' !in name
  {
    if name == [] then None
    else if name[|name| - 1] == '.' then Some(|name| - 1)
    else
      var r := LastDot(name[..|name| - 1]);
      assert forall i | 0 <= i < |name| - 1 :: name[..|name| - 1][i] == name[i];
      r
  }

  /** os.path.splitext(name)[0] for a file name without directories: the part before the
      last '.', unless only dots precede it (then the name has no extension). */
  function Stem(name: string): string {
    match LastDot(name)
    case None => name
    case Some(d) => if exists i | 0 <= i < d :: name[i] != '.' then name[..d] else name
  }

  /** A `.txt` file name whose stem is not made of dots alone loses exactly its extension. */
  lemma StemOfTxt(stem: string)
    requires exists i | 0 <= i < |stem| :: stem[i] != '.'
    ensures Stem(stem + ".txt") == stem
  {
    var name := stem + ".txt";
    assert name[|stem|] == '.';
    assert forall i | |stem| < i < |name| :: name[i] != '.';
    var i :| 0 <= i < |stem| && stem[i] != '.';
    assert name[i] == stem[i];
    assert name[..|stem|] == stem;
  }

  /** How many times c occurs in s. */
  function Occurrences(s: string, c: char): nat {
    if s == [] then 0 else (if s[0] == c then 1 else 0) + Occurrences(s[1..], c)
  }

  /** s.split(sep) yields one piece more than there are separators. */
  lemma {:induction false} SplitLength(s: string, sep: char)
    ensures |Split(s, sep)| == Occurrences(s, sep) + 1
  {
    if s != [] {
      SplitLength(s[1..], sep);
    }
  }

  /** The stem split at '-' into title and author when it has exactly two parts; otherwise
      (the unpacking raises ValueError) the whole stem as the title and the unknown author. */
  function SplitName(stem: string): (string, string) {
    var parts := Split(stem, '-');
    if |parts| == 2 then (parts[0], parts[1]) else (stem, UnknownAuthor)
  }

  /** A stem with exactly one '-' is cut there into title and author; any other stem is the
      title, with the unknown author. */
  lemma SplitNameFacts(stem: string)
    ensures Occurrences(stem, '-') == 1 ==>
      && SplitName(stem).0 + "-" + SplitName(stem).1 == stem
      && '-' !in SplitName(stem).0 && '-' !in SplitName(stem).1
    ensures Occurrences(stem, '-') != 1 ==> SplitName(stem) == (stem, UnknownAuthor)
  {
    SplitLength(stem, '-');
    var parts := Split(stem, '-');
    if |parts| == 2 {
      JoinSplit(stem, '-');
      SplitPartsFree(stem, '-');
      assert parts[0] in parts && parts[1] in parts;
      assert Join(parts, "-") == parts[0] + "-" + Join(parts[1..], "-");
    }
  }

  /** The n-th title tried for `base`: the base itself, then base(1), base(2), … */
  function Candidate(base: string, n: nat): string {
    if n == 0 then base else base + "(" + Decimal(n) + ")"
  }

  /** The first n candidates. */
  function Tried(base: string, n: nat): set<string> {
    if n == 0 then {} else Tried(base, n - 1) + {Candidate(base, n - 1)}
  }

  lemma CandidateInjective(base: string, i: nat, j: nat)
    requires Candidate(base, i) == Candidate(base, j)
    ensures i == j
  {
    if i != 0 && j != 0 {
      var a, b := Candidate(base, i), Candidate(base, j);
      assert a[|base| + 1..|a| - 1] == Decimal(i);
      assert b[|base| + 1..|b| - 1] == Decimal(j);
      DecimalInjective(i, j);
    }
  }

  /** The n-th candidate differs from all before it. */
  lemma {:induction false} CandidateNew(base: string, n: nat, m: nat)
    requires m <= n
    ensures Candidate(base, n) !in Tried(base, m)
  {
    if m > 0 {
      CandidateNew(base, n, m - 1);
      if Candidate(base, n) == Candidate(base, m - 1) {
        CandidateInjective(base, n, m - 1);
      }
    }
  }

  lemma {:induction false} TriedUsed(base: string, n: nat, used: set<string>)
    requires forall i | 0 <= i < n :: Candidate(base, i) in used
    ensures Tried(base, n) <= used
  {
    if n > 0 {
      TriedUsed(base, n - 1, used);
    }
  }

  /** The first candidate from the n-th on that is not in use. */
  function FirstFree(base: string, used: set<string>, n: nat): string
    requires Tried(base, n) <= used
    decreases |used - Tried(base, n)|
  {
    var c := Candidate(base, n);
    if c !in used then c
    else
      CandidateNew(base, n, n);
      assert used - Tried(base, n + 1) == (used - Tried(base, n)) - {c};
      FirstFree(base, used, n + 1)
  }

  /** What the suffixing loop settles on: a title not in use, the base itself when that is
      free, else base(n) for the smallest n whose title is free. */
  ghost predicate FreshTitle(base: string, used: set<string>, r: string) {
    r !in used && exists n: nat :: r == Candidate(base, n) && forall i | 0 <= i < n :: Candidate(base, i) in used
  }

  lemma {:induction false} FirstFreeFacts(base: string, used: set<string>, n: nat)
    requires Tried(base, n) <= used
    requires forall i | 0 <= i < n :: Candidate(base, i) in used
    ensures FreshTitle(base, used, FirstFree(base, used, n))
    decreases |used - Tried(base, n)|
  {
    var c := Candidate(base, n);
    if c in used {
      CandidateNew(base, n, n);
      assert used - Tried(base, n + 1) == (used - Tried(base, n)) - {c};
      FirstFreeFacts(base, used, n + 1);
    }
  }

  /** The chosen title is the only one meeting FreshTitle: a free title earlier in the
      candidate order cannot exist. */
  lemma FreshTitleUnique(base: string, used: set<string>, r: string, r': string)
    requires FreshTitle(base, used, r) && FreshTitle(base, used, r')
    ensures r == r'
  {
    var n: nat :| r == Candidate(base, n) && forall i | 0 <= i < n :: Candidate(base, i) in used;
    var n': nat :| r' == Candidate(base, n') && forall i | 0 <= i < n' :: Candidate(base, i) in used;
    if n < n' {
      assert false;
    } else if n' < n {
      assert false;
    }
  }

  /** The titles listed in ts. */
  function Elems(ts: seq<string>): set<string> {
    set t | t in ts
  }

  lemma ElemsSnoc(ts: seq<string>, i: nat)
    requires i < |ts|
    ensures Elems(ts[..i + 1]) == Elems(ts[..i]) + {ts[i]}
  {
    assert ts[..i + 1] == ts[..i] + [ts[i]];
  }

  /** The titles a list of headings gets: each heading title made unused among the titles
      given to the headings before it. */
  function DedupeAll(ts: seq<string>): (rs: seq<string>)
    ensures |rs| == |ts|
  {
    if ts == [] then []
    else
      var prev := DedupeAll(ts[..|ts| - 1]);
      prev + [FirstFree(ts[|ts| - 1], Elems(prev), 0)]
  }

  /** The titles are pairwise distinct, and the k-th is the first free candidate for the
      k-th heading title given those before it. */
  lemma {:induction false} DedupeAllFacts(ts: seq<string>)
    ensures var rs := DedupeAll(ts);
      && (forall a, b | 0 <= a < b < |rs| :: rs[a] != rs[b])
      && (forall k | 0 <= k < |rs| :: FreshTitle(ts[k], Elems(rs[..k]), rs[k]))
  {
    if ts != [] {
      var init := ts[..|ts| - 1];
      DedupeAllFacts(init);
      var prev := DedupeAll(init);
      var rs := DedupeAll(ts);
      var used := Elems(prev);
      FirstFreeFacts(ts[|ts| - 1], used, 0);
      assert rs[..|ts| - 1] == prev;
      forall k | 0 <= k < |rs| ensures FreshTitle(ts[k], Elems(rs[..k]), rs[k]) {
        if k < |ts| - 1 {
          assert rs[..k] == prev[..k];
          assert ts[k] == init[k];
        }
      }
      forall a, b | 0 <= a < b < |rs| ensures rs[a] != rs[b] {
        if b == |rs| - 1 {
          assert rs[a] in used;
        }
      }
    }
  }

  /** The titles given to a prefix of the headings are a prefix of the titles. */
  lemma {:induction false} DedupeAllPrefix(ts: seq<string>, k: nat)
    requires k <= |ts|
    ensures DedupeAll(ts[..k]) == DedupeAll(ts)[..k]
    decreases |ts|
  {
    if k < |ts| {
      var init := ts[..|ts| - 1];
      DedupeAllPrefix(init, k);
      assert init[..k] == ts[..k];
      assert DedupeAll(ts)[..|ts| - 1] == DedupeAll(init);
    } else {
      assert ts[..k] == ts;
    }
  }

  /** The k-th title is the first free candidate for the k-th heading title, given the
      titles before it, as the loop over the headings computes it. */
  lemma DedupeAllAt(ts: seq<string>, k: nat)
    requires k < |ts|
    ensures DedupeAll(ts)[k] == FirstFree(ts[k], Elems(DedupeAll(ts)[..k]), 0)
  {
    DedupeAllPrefix(ts, k + 1);
    DedupeAllPrefix(ts, k);
    var p := ts[..k + 1];
    assert p[..|p| - 1] == ts[..k];
    assert DedupeAll(ts)[..k + 1][k] == DedupeAll(ts)[k];
  }

  /** The introduction stored with an imported novel: content[:200] + '...'. */
  function Intro(content: string): (r: string)
    ensures |r| == (if |content| < 200 then |content| else 200) + 3
    ensures r[..|r| - 3] == content[..|r| - 3] && r[|r| - 3..] == "..."
  {
    (if |content| <= 200 then content else content[..200]) + "..."
  }

  /** safe_filename's forbidden characters: `\ / * ? : " < > | ( )` and whitespace. */
  predicate Unsafe(c: char) {
    c == '\\' || c == '/' || c == '*' || c == '?' || c == ':' || c == '"' || c == '<' || c == '>'
    || c == '|' || c == '(' || c == ')' || IsSpace(c)
  }

  predicate IsUnderscore(c: char) {
    c == '_'
  }

  /** Every forbidden character replaced by '_'. */
  function Underscored(s: string): (r: string)
    ensures |r| == |s| && forall i | 0 <= i < |s| :: r[i] == if Unsafe(s[i]) then '_' else s[i]
  {
    if s == [] then [] else Underscored(s[..|s| - 1]) + [if Unsafe(s[|s| - 1]) then '_' else s[|s| - 1]]
  }

  /** No two underscores in a row. */
  predicate NoDoubleUnderscore(s: string) {
    forall i | 0 <= i < |s| - 1 :: !(s[i] == '_' && s[i + 1] == '_')
  }

  /** Every run of underscores becomes one. */
  function Squeezed(s: string): (r: string)
    ensures |r| <= |s| && (s == [] <==> r == [])
    ensures s != [] ==> r[|r| - 1] == s[|s| - 1]
    ensures forall c | c in r :: c in s
    ensures NoDoubleUnderscore(r)
  {
    if s == [] then []
    else
      var init := Squeezed(s[..|s| - 1]);
      var c := s[|s| - 1];
      assert forall d | d in init :: d in s;
      if c == '_' && init != [] && init[|init| - 1] == '_' then init else init + [c]
  }

  predicate Safe(c: char) {
    !Unsafe(c)
  }

  /** After the replacement and the squeezing no forbidden character is left. */
  lemma SqueezedSafe(s: string)
    ensures AllChars(Squeezed(Underscored(s)), Safe)
  {
    var u := Underscored(s);
    var q := Squeezed(u);
    forall i | 0 <= i < |q| ensures Safe(q[i]) {
      assert q[i] in q;
      var j :| 0 <= j < |u| && u[j] == q[i];
    }
  }

  /** safe_filename(text, max_length) with NFKC normalisation given as `nfkc`. */
  function SafeFilename(text: string, maxLength: nat, nfkc: string -> string): string {
    var t := TrimBy(Squeezed(Underscored(nfkc(text))), IsUnderscore);
    if |t| <= maxLength then t else t[..maxLength]
  }

  /** import_txt_novels.py:21-25: the name fits max_length, holds none of the forbidden
      characters and no two underscores in a row, and does not start with '_'. */
  lemma SafeFilenameShape(text: string, maxLength: nat, nfkc: string -> string)
    ensures var r := SafeFilename(text, maxLength, nfkc);
      && |r| <= maxLength
      && AllChars(r, Safe)
      && NoDoubleUnderscore(r)
      && (r == [] || r[0] != '_')
  {
    var q := Squeezed(Underscored(nfkc(text)));
    SqueezedSafe(nfkc(text));
    TrimByShape(q, IsUnderscore);
    var a := |q| - |TrimStartBy(q, IsUnderscore)|;
    var r := SafeFilename(text, maxLength, nfkc);
    assert r == q[a..a + |r|];
    AllCharsSlice(q, a, a + |r|, Safe);
    forall i | 0 <= i < |r| - 1 ensures !(r[i] == '_' && r[i + 1] == '_') {
      assert r[i] == q[a + i] && r[i + 1] == q[a + i + 1];
    }
  }
}

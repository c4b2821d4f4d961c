/** What the maintenance passes share: each walks a list of chapters loaded once, decides
    from the chapter as loaded whether to write it and what to write, and counts the
    writes. A pass is described here by its `step`: None when the chapter is left alone,
    Some(c) when c is saved in its place. */
module Batch {
  import opened Wrappers
  import opened Store

  /** The chapter after its step. */
  function Apply(c: Chapter, step: Chapter -> Option<Chapter>): Chapter {
    if step(c).Some? then step(c).value else c
  }

  /** The ids of the store. */
  function Ids(chs: seq<Chapter>): (s: set<nat>)
    ensures forall x: nat :: x in s <==> x < |chs|
  {
    if chs == [] then {} else Ids(chs[..|chs| - 1]) + {|chs| - 1}
  }

  /** The ids of one novel's chapters. */
  function NovelIds(chs: seq<Chapter>, novel: nat): (s: set<nat>)
    ensures forall x: nat :: x in s <==> x < |chs| && chs[x].novel == novel
  {
    set x: nat | x < |chs| && chs[x].novel == novel
  }

  /** The ids of the chapters of the novels with ids below n. */
  function NovelsBelow(chs: seq<Chapter>, n: nat): set<nat> {
    if n == 0 then {} else NovelsBelow(chs, n - 1) + NovelIds(chs, n - 1)
  }

  /** Membership in NovelsBelow, and novel n is not yet among them. */
  lemma {:induction false} NovelsBelowMembers(chs: seq<Chapter>, n: nat)
    ensures forall x: nat :: x in NovelsBelow(chs, n) <==> x < |chs| && chs[x].novel < n
  {
    if n > 0 {
      NovelsBelowMembers(chs, n - 1);
    }
  }

  /** The store once the chapters in `done` have had their step. */
  function UpdateIn(chs: seq<Chapter>, done: set<nat>, step: Chapter -> Option<Chapter>): (r: seq<Chapter>)
    ensures |r| == |chs|
    ensures forall x | 0 <= x < |chs| :: r[x] == if x in done then Apply(chs[x], step) else chs[x]
  {
    seq(|chs|, x requires 0 <= x < |chs| => if x in done then Apply(chs[x], step) else chs[x])
  }

  /** The store once every chapter `sel` keeps has had its step. */
  function UpdateWhere(chs: seq<Chapter>, sel: nat -> bool, step: Chapter -> Option<Chapter>): (r: seq<Chapter>)
    ensures |r| == |chs|
    ensures forall x | 0 <= x < |chs| :: r[x] == if sel(x) then Apply(chs[x], step) else chs[x]
  {
    seq(|chs|, x requires 0 <= x < |chs| => if sel(x) then Apply(chs[x], step) else chs[x])
  }

  /** Handling a set of ids is handling the chapters `sel` keeps when the two agree. */
  lemma UpdateInWhere(chs: seq<Chapter>, done: set<nat>, sel: nat -> bool, step: Chapter -> Option<Chapter>)
    requires forall x: nat :: x in done <==> x < |chs| && sel(x)
    ensures UpdateIn(chs, done, step) == UpdateWhere(chs, sel, step)
  {
  }

  /** The ids at the first j positions of a list. */
  function Prefix(l: seq<nat>, j: nat): set<nat>
    requires j <= |l|
  {
    if j == 0 then {} else Prefix(l, j - 1) + {l[j - 1]}
  }

  /** Membership in Prefix. */
  lemma {:induction false} PrefixMembers(l: seq<nat>, j: nat)
    requires j <= |l|
    ensures forall x :: x in Prefix(l, j) <==> x in l[..j]
  {
    if j > 0 {
      PrefixMembers(l, j - 1);
      assert l[..j] == l[..j - 1] + [l[j - 1]];
    }
  }

  /** Handling one more chapter: it alone takes its step. */
  lemma UpdateStep(chs: seq<Chapter>, done: set<nat>, step: Chapter -> Option<Chapter>, x: nat)
    requires x < |chs| && x !in done
    ensures UpdateIn(chs, done + {x}, step) == UpdateIn(chs, done, step)[x := Apply(chs[x], step)]
  {
  }

  /** Two passes over disjoint sets of chapters are one pass over their union. */
  lemma UpdateCompose(chs: seq<Chapter>, a: set<nat>, b: set<nat>, step: Chapter -> Option<Chapter>)
    requires a * b == {}
    ensures UpdateIn(UpdateIn(chs, a, step), b, step) == UpdateIn(chs, a + b, step)
  {
    var mid := UpdateIn(chs, a, step);
    var l := UpdateIn(mid, b, step);
    var r := UpdateIn(chs, a + b, step);
    forall x | 0 <= x < |chs| ensures l[x] == r[x] {
      assert x in a && x in b ==> x in a * b;
    }
  }

  /** Over a list without repeats, the next position holds a chapter not handled yet. */
  lemma PrefixFresh(l: seq<nat>, j: nat)
    requires j < |l| && forall a, b | 0 <= a < b < |l| :: l[a] != l[b]
    ensures l[j] !in Prefix(l, j)
  {
    PrefixMembers(l, j);
  }

  /** The step never moves a chapter to another novel. */
  ghost predicate KeepsNovel(step: Chapter -> Option<Chapter>) {
    forall c :: step(c).Some? ==> step(c).value.novel == c.novel
  }

  /** A pass whose step keeps novels leaves every novel with the same chapter ids. */
  lemma NovelIdsKept(chs: seq<Chapter>, done: set<nat>, step: Chapter -> Option<Chapter>, novel: nat)
    requires KeepsNovel(step)
    ensures NovelIds(UpdateIn(chs, done, step), novel) == NovelIds(chs, novel)
  {
    var r := UpdateIn(chs, done, step);
    forall x: nat | x < |chs| ensures r[x].novel == chs[x].novel {
      assert step(chs[x]).Some? ==> step(chs[x]).value.novel == chs[x].novel;
    }
  }

  /** A pass over chapters of other novels leaves one novel's writes as they were. */
  lemma {:induction false} NovelWritesKept(chs: seq<Chapter>, done: set<nat>, step: Chapter -> Option<Chapter>, novel: nat, k: nat)
    requires k <= |chs| && KeepsNovel(step) && done * NovelIds(chs, novel) == {}
    ensures NovelWrites(UpdateIn(chs, done, step), step, novel, k) == NovelWrites(chs, step, novel, k)
  {
    if k > 0 {
      NovelWritesKept(chs, done, step, novel, k - 1);
      var i := k - 1;
      var r := UpdateIn(chs, done, step);
      assert r[i] == if i in done then Apply(chs[i], step) else chs[i];
      assert i in done ==> r[i].novel == chs[i].novel;
      assert i in done && chs[i].novel == novel ==> i in done * NovelIds(chs, novel);
    }
  }

  /** The chapters of novel n are not among those of the novels below n. */
  lemma NovelsBelowApart(chs: seq<Chapter>, n: nat)
    ensures NovelsBelow(chs, n) * NovelIds(chs, n) == {}
  {
    NovelsBelowMembers(chs, n);
    forall x | x in NovelsBelow(chs, n) ensures x !in NovelIds(chs, n) {
    }
  }

  /** When every chapter belongs to a novel below n, the novels below n cover the store. */
  lemma NovelsBelowAll(chs: seq<Chapter>, n: nat)
    requires forall i | 0 <= i < |chs| :: chs[i].novel < n
    ensures NovelsBelow(chs, n) == Ids(chs)
  {
    NovelsBelowMembers(chs, n);
  }

  /** How many of the first j listed chapters the step writes. */
  function CountWritten(chs: seq<Chapter>, step: Chapter -> Option<Chapter>, l: seq<nat>, j: nat): nat
    requires j <= |l|
  {
    if j == 0 then 0
    else CountWritten(chs, step, l, j - 1) + (if l[j - 1] < |chs| && step(chs[l[j - 1]]).Some? then 1 else 0)
  }

  /** How many chapters with ids below k the step writes. */
  function CountWrites(chs: seq<Chapter>, step: Chapter -> Option<Chapter>, k: nat): nat
    requires k <= |chs|
  {
    if k == 0 then 0
    else CountWrites(chs, step, k - 1) + (if step(chs[k - 1]).Some? then 1 else 0)
  }

  /** How many chapters of one novel with ids below k the step writes. */
  function NovelWrites(chs: seq<Chapter>, step: Chapter -> Option<Chapter>, novel: nat, k: nat): nat
    requires k <= |chs|
  {
    if k == 0 then 0
    else NovelWrites(chs, step, novel, k - 1) + (if chs[k - 1].novel == novel && step(chs[k - 1]).Some? then 1 else 0)
  }

  /** The writes of the novels below n, added up novel by novel. */
  function SumWrites(chs: seq<Chapter>, step: Chapter -> Option<Chapter>, n: nat): nat {
    if n == 0 then 0 else SumWrites(chs, step, n - 1) + NovelWrites(chs, step, n - 1, |chs|)
  }

  /** How many chapters with ids below k of the novels below n the step writes. */
  function BelowWrites(chs: seq<Chapter>, step: Chapter -> Option<Chapter>, n: nat, k: nat): nat
    requires k <= |chs|
  {
    if k == 0 then 0
    else BelowWrites(chs, step, n, k - 1) + (if chs[k - 1].novel < n && step(chs[k - 1]).Some? then 1 else 0)
  }

  /** Counting the novels below n + 1 is counting those below n and novel n. */
  lemma {:induction false} BelowWritesStep(chs: seq<Chapter>, step: Chapter -> Option<Chapter>, n: nat, k: nat)
    requires k <= |chs|
    ensures BelowWrites(chs, step, n + 1, k) == BelowWrites(chs, step, n, k) + NovelWrites(chs, step, n, k)
  {
    if k > 0 {
      BelowWritesStep(chs, step, n, k - 1);
    }
  }

  /** No novel below 0, no writes. */
  lemma {:induction false} BelowNone(chs: seq<Chapter>, step: Chapter -> Option<Chapter>, k: nat)
    requires k <= |chs|
    ensures BelowWrites(chs, step, 0, k) == 0
  {
    if k > 0 {
      BelowNone(chs, step, k - 1);
    }
  }

  /** Added up novel by novel, the writes are those of the chapters of the novels below n. */
  lemma {:induction false} SumWritesBelow(chs: seq<Chapter>, step: Chapter -> Option<Chapter>, n: nat)
    ensures SumWrites(chs, step, n) == BelowWrites(chs, step, n, |chs|)
  {
    if n > 0 {
      SumWritesBelow(chs, step, n - 1);
      BelowWritesStep(chs, step, n - 1, |chs|);
    } else {
      BelowNone(chs, step, |chs|);
    }
  }

  /** When every chapter belongs to a novel below n, the novels below n hold every write. */
  lemma {:induction false} BelowAll(chs: seq<Chapter>, step: Chapter -> Option<Chapter>, n: nat, k: nat)
    requires k <= |chs| && forall i | 0 <= i < |chs| :: chs[i].novel < n
    ensures BelowWrites(chs, step, n, k) == CountWrites(chs, step, k)
  {
    if k > 0 {
      BelowAll(chs, step, n, k - 1);
    }
  }

  /** Once every novel of the store has been walked, every chapter has been handled and
      the per-novel counts add up to the writes of the whole store. */
  lemma AllDone(chs: seq<Chapter>, step: Chapter -> Option<Chapter>, n: nat)
    requires forall i | 0 <= i < |chs| :: chs[i].novel < n
    ensures NovelsBelow(chs, n) == Ids(chs)
    ensures SumWrites(chs, step, n) == CountWrites(chs, step, |chs|)
  {
    NovelsBelowAll(chs, n);
    SumWritesBelow(chs, step, n);
    BelowAll(chs, step, n, |chs|);
  }

  /** How many chapters with ids below k that `sel` keeps the step writes. */
  function SelWrites(chs: seq<Chapter>, step: Chapter -> Option<Chapter>, sel: nat -> bool, k: nat): nat
    requires k <= |chs|
  {
    if k == 0 then 0
    else SelWrites(chs, step, sel, k - 1) + (if sel(k - 1) && step(chs[k - 1]).Some? then 1 else 0)
  }

  /** A novel's writes are those of the chapters OfNovel keeps. */
  lemma {:induction false} NovelWritesSel(chs: seq<Chapter>, step: Chapter -> Option<Chapter>, novel: nat, k: nat)
    requires k <= |chs|
    ensures NovelWrites(chs, step, novel, k) == SelWrites(chs, step, OfNovel(chs, novel), k)
  {
    if k > 0 {
      NovelWritesSel(chs, step, novel, k - 1);
    }
  }

  /** A selection that keeps every chapter counts every write. */
  lemma {:induction false} CountWritesSel(chs: seq<Chapter>, step: Chapter -> Option<Chapter>, sel: nat -> bool, k: nat)
    requires k <= |chs| && forall i | 0 <= i < |chs| :: sel(i)
    ensures CountWrites(chs, step, k) == SelWrites(chs, step, sel, k)
  {
    if k > 0 {
      CountWritesSel(chs, step, sel, k - 1);
    }
  }

  /** The ids below k that `sel` keeps and the step writes. */
  function Picked(chs: seq<Chapter>, step: Chapter -> Option<Chapter>, sel: nat -> bool, k: nat): set<nat>
    requires k <= |chs|
  {
    if k == 0 then {}
    else Picked(chs, step, sel, k - 1) + (if sel(k - 1) && step(chs[k - 1]).Some? then {k - 1} else {})
  }

  /** Membership in Picked. */
  lemma {:induction false} PickedMembers(chs: seq<Chapter>, step: Chapter -> Option<Chapter>, sel: nat -> bool, k: nat)
    requires k <= |chs|
    ensures forall x: nat :: x in Picked(chs, step, sel, k) <==> x < k && sel(x) && step(chs[x]).Some?
  {
    if k > 0 {
      PickedMembers(chs, step, sel, k - 1);
    }
  }

  /** Picked holds only ids below k. */
  lemma {:induction false} PickedBound(chs: seq<Chapter>, step: Chapter -> Option<Chapter>, sel: nat -> bool, k: nat, x: nat)
    requires k <= |chs| && k <= x
    ensures x !in Picked(chs, step, sel, k)
  {
    if k > 0 {
      PickedBound(chs, step, sel, k - 1, x);
    }
  }

  /** SelWrites counts Picked. */
  lemma {:induction false} SelWritesPicked(chs: seq<Chapter>, step: Chapter -> Option<Chapter>, sel: nat -> bool, k: nat)
    requires k <= |chs|
    ensures SelWrites(chs, step, sel, k) == |Picked(chs, step, sel, k)|
  {
    if k > 0 {
      var i := k - 1;
      SelWritesPicked(chs, step, sel, i);
      var p := Picked(chs, step, sel, i);
      if sel(i) && step(chs[i]).Some? {
        assert SelWrites(chs, step, sel, k) == SelWrites(chs, step, sel, i) + 1;
        assert Picked(chs, step, sel, k) == p + {i};
        PickedBound(chs, step, sel, i, i);
        CardAdd(p, i);
      } else {
        assert SelWrites(chs, step, sel, k) == SelWrites(chs, step, sel, i);
        assert Picked(chs, step, sel, k) == p + {};
        assert p + {} == p;
      }
    }
  }

  /** The ids among the first j listed chapters that the step writes. */
  function ListedWritten(chs: seq<Chapter>, step: Chapter -> Option<Chapter>, l: seq<nat>, j: nat): set<nat>
    requires j <= |l|
  {
    if j == 0 then {}
    else ListedWritten(chs, step, l, j - 1) + (if l[j - 1] < |chs| && step(chs[l[j - 1]]).Some? then {l[j - 1]} else {})
  }

  /** Membership in ListedWritten. */
  lemma {:induction false} ListedWrittenMembers(chs: seq<Chapter>, step: Chapter -> Option<Chapter>, l: seq<nat>, j: nat)
    requires j <= |l|
    ensures forall x :: x in ListedWritten(chs, step, l, j) <==> x in l[..j] && x < |chs| && step(chs[x]).Some?
  {
    if j > 0 {
      ListedWrittenMembers(chs, step, l, j - 1);
      assert l[..j] == l[..j - 1] + [l[j - 1]];
    }
  }

  /** Over a list without repeats, CountWritten counts ListedWritten. */
  lemma {:induction false} CountWrittenListed(chs: seq<Chapter>, step: Chapter -> Option<Chapter>, l: seq<nat>, j: nat)
    requires j <= |l| && forall a, b | 0 <= a < b < |l| :: l[a] != l[b]
    ensures CountWritten(chs, step, l, j) == |ListedWritten(chs, step, l, j)|
  {
    if j > 0 {
      CountWrittenListed(chs, step, l, j - 1);
      var x := l[j - 1];
      if x < |chs| && step(chs[x]).Some? {
        ListedWrittenMembers(chs, step, l, j - 1);
        assert x !in l[..j - 1];
        CardAdd(ListedWritten(chs, step, l, j - 1), x);
      } else {
        assert ListedWritten(chs, step, l, j) == ListedWritten(chs, step, l, j - 1);
      }
    }
  }

  /** Walking a list that holds, without repeats, exactly the chapters `sel` keeps counts
      their writes whatever the order of the list. */
  lemma ListWrites(chs: seq<Chapter>, step: Chapter -> Option<Chapter>, l: seq<nat>, sel: nat -> bool)
    requires forall a, b | 0 <= a < b < |l| :: l[a] != l[b]
    requires forall k | 0 <= k < |l| :: l[k] < |chs| && sel(l[k])
    requires forall i | 0 <= i < |chs| && sel(i) :: i in l
    ensures CountWritten(chs, step, l, |l|) == SelWrites(chs, step, sel, |chs|)
  {
    CountWrittenListed(chs, step, l, |l|);
    SelWritesPicked(chs, step, sel, |chs|);
    ListedWrittenMembers(chs, step, l, |l|);
    PickedMembers(chs, step, sel, |chs|);
    assert l[..|l|] == l;
    assert ListedWritten(chs, step, l, |l|) == Picked(chs, step, sel, |chs|);
  }

  /** Once the whole listing of a novel is walked, every chapter of that novel has been
      handled, and the writes counted along the way are that novel's writes. */
  lemma ListingDone(chs: seq<Chapter>, step: Chapter -> Option<Chapter>, novel: nat)
    ensures Prefix(Listing(chs, novel), |Listing(chs, novel)|) == NovelIds(chs, novel)
    ensures CountWritten(chs, step, Listing(chs, novel), |Listing(chs, novel)|) == NovelWrites(chs, step, novel, |chs|)
  {
    var l := Listing(chs, novel);
    ListingFacts(chs, novel);
    PrefixMembers(l, |l|);
    assert l[..|l|] == l;
    ListWrites(chs, step, l, OfNovel(chs, novel));
    NovelWritesSel(chs, step, novel, |chs|);
  }

  /** Once a whole list holding exactly the chapters `sel` keeps is walked, those chapters
      have been handled and their writes counted. */
  lemma ListDone(chs: seq<Chapter>, step: Chapter -> Option<Chapter>, l: seq<nat>, sel: nat -> bool)
    requires forall a, b | 0 <= a < b < |l| :: l[a] != l[b]
    requires forall k | 0 <= k < |l| :: l[k] < |chs| && sel(l[k])
    requires forall i | 0 <= i < |chs| && sel(i) :: i in l
    ensures forall x: nat :: x in Prefix(l, |l|) <==> x < |chs| && sel(x)
    ensures CountWritten(chs, step, l, |l|) == SelWrites(chs, step, sel, |chs|)
  {
    PrefixMembers(l, |l|);
    assert l[..|l|] == l;
    ListWrites(chs, step, l, sel);
  }

  /** A new element adds one to a set's size. */
  lemma CardAdd(p: set<nat>, x: nat)
    requires x !in p
    ensures |p + {x}| == |p| + 1
  {
  }

  /** A row filter that keeps every chapter (Chapter.objects.all()). */
  predicate AnyRow(id: nat) {
    true
  }

  /** Walking Chapter.objects.all() in (order, id) order handles every chapter once and
      counts every write. */
  lemma AllRowsDone(chs: seq<Chapter>, step: Chapter -> Option<Chapter>)
    ensures var ids := Query(chs, AnyRow);
      && (forall a, b | 0 <= a < b < |ids| :: ids[a] != ids[b])
      && (forall k | 0 <= k < |ids| :: ids[k] < |chs|)
      && Prefix(ids, |ids|) == Ids(chs)
      && CountWritten(chs, step, ids, |ids|) == CountWrites(chs, step, |chs|)
  {
    var ids := Query(chs, AnyRow);
    QueryFacts(chs, AnyRow);
    ListDone(chs, step, ids, AnyRow);
    CountWritesSel(chs, step, AnyRow, |chs|);
  }
}

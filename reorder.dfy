/** The order-repair command (fix_chapter_order.py): per novel, the chapters are sorted so
    that special chapters (extras, afterwords, appendices) come first by descending number
    and normal chapters follow by ascending number; a normal chapter's order becomes its
    number and a special chapter's order 1000000 plus its position in the sorted list. Only
    changed orders are written, and only the order column. */
module Reorder {
  import opened Sorting
  import opened Titles
  import opened Store

  /** The base of the orders given to special chapters. */
  const SpecialBase: int := 1000000

  /** One tuple of the working list: a chapter with extract_chapter_info's (type, number). */
  datatype Entry = Entry(id: nat, kind: nat, number: nat)

  /** extract_chapter_info for a stored chapter. */
  function Info(chs: seq<Chapter>, id: nat): (e: Entry)
    requires id < |chs|
    ensures e.id == id && e.kind <= 1
    ensures e.kind == 0 <==> IsSpecial(chs[id].title)
    ensures e.number == RepairNumber(chs[id].title)
  {
    Entry(id, ChapterType(chs[id].title), RepairNumber(chs[id].title))
  }

  /** The tuples built for a list of chapters, in list order. */
  function Entries(chs: seq<Chapter>, l: seq<nat>): (es: seq<Entry>)
    requires forall k | 0 <= k < |l| :: l[k] < |chs|
    ensures |es| == |l| && forall k | 0 <= k < |l| :: es[k] == Info(chs, l[k])
  {
    if l == [] then [] else Entries(chs, l[..|l| - 1]) + [Info(chs, l[|l| - 1])]
  }

  /** The sort key of fix_chapter_order.py:46: (type, -number) for a special chapter,
      (type, number) for a normal one. */
  function RepairKey(e: Entry): Key {
    Key(e.kind, if e.kind == 0 then -(e.number as int) else e.number)
  }

  predicate IsSpecialEntry(e: Entry) {
    e.kind == 0
  }

  /** The tuple describes a chapter of `novel` as it is stored. */
  function Describes(chs: seq<Chapter>, novel: nat): Entry -> bool {
    (e: Entry) => e.id < |chs| && chs[e.id].novel == novel && e == Info(chs, e.id)
  }

  /** The working list of one novel: the tuples of its chapters as listed by (order, id),
      sorted stably by the repair key. */
  function Work(chs: seq<Chapter>, novel: nat): (w: seq<Entry>)
    ensures forall k | 0 <= k < |w| :: Describes(chs, novel)(w[k])
  {
    var es := Entries(chs, Listing(chs, novel));
    SortPreserves(es, RepairKey, Describes(chs, novel));
    Sort(es, RepairKey)
  }

  /** The order the pass gives the tuple at position i of the sorted list. */
  function NewOrder(e: Entry, i: nat): int {
    if e.kind == 1 then e.number else SpecialBase + i
  }

  /** The chapters after the first i tuples of `work` have had their new order assigned. */
  function Assign(chs: seq<Chapter>, work: seq<Entry>, i: nat): (r: seq<Chapter>)
    requires i <= |work|
    requires forall k | 0 <= k < |work| :: work[k].id < |chs|
    ensures |r| == |chs|
    decreases i
  {
    if i == 0 then chs
    else
      var r := Assign(chs, work, i - 1);
      var id := work[i - 1].id;
      r[id := r[id].(order := NewOrder(work[i - 1], i - 1))]
  }

  /** How many of the first i tuples of `work` get an order other than the stored one. */
  function Changes(chs: seq<Chapter>, work: seq<Entry>, i: nat): nat
    requires i <= |work|
    requires forall k | 0 <= k < |work| :: work[k].id < |chs|
  {
    if i == 0 then 0
    else
      var e := work[i - 1];
      Changes(chs, work, i - 1) + (if chs[e.id].order != NewOrder(e, i - 1) then 1 else 0)
  }

  /** The pass over one novel. */
  function FixNovel(chs: seq<Chapter>, novel: nat): seq<Chapter> {
    var w := Work(chs, novel);
    Assign(chs, w, |w|)
  }

  /** The updates the pass over one novel counts. */
  function NovelChanges(chs: seq<Chapter>, novel: nat): nat {
    var w := Work(chs, novel);
    Changes(chs, w, |w|)
  }

  /** No two tuples name the same chapter. */
  predicate DistinctIds(w: seq<Entry>) {
    forall a, b | 0 <= a < b < |w| :: w[a].id != w[b].id
  }

  /** The working list holds one tuple per chapter of the novel and is in key order. */
  lemma WorkFacts(chs: seq<Chapter>, novel: nat)
    ensures var w := Work(chs, novel);
      && multiset(w) == multiset(Entries(chs, Listing(chs, novel)))
      && DistinctIds(w)
      && (forall i | 0 <= i < |chs| && chs[i].novel == novel :: Info(chs, i) in w)
      && SortedBy(w, RepairKey)
  {
    var l := Listing(chs, novel);
    var es := Entries(chs, l);
    ListingFacts(chs, novel);
    SortFacts(es, RepairKey);
    var w := Work(chs, novel);
    forall a, b | 0 <= a < b < |es| ensures es[a] != es[b] {
      assert es[a].id == l[a] && es[b].id == l[b];
    }
    NoRepeatsPerm(w, es);
    forall a, b | 0 <= a < b < |w| ensures w[a].id != w[b].id {
      assert Describes(chs, novel)(w[a]) && Describes(chs, novel)(w[b]);
    }
    forall i | 0 <= i < |chs| && chs[i].novel == novel ensures Info(chs, i) in w {
      var k :| 0 <= k < |l| && l[k] == i;
      assert es[k] == Info(chs, i);
      assert Info(chs, i) in multiset(es);
    }
  }

  /** fix_chapter_order.py:46 — in the working list every special chapter precedes every
      normal one, specials run by descending number and normals by ascending number. */
  lemma WorkOrder(chs: seq<Chapter>, novel: nat)
    ensures var w := Work(chs, novel);
      forall p, q | 0 <= p < q < |w| ::
        var a := chs[w[p].id].title;
        var b := chs[w[q].id].title;
        && (IsSpecial(b) ==> IsSpecial(a))
        && (IsSpecial(a) && IsSpecial(b) ==> RepairNumber(a) >= RepairNumber(b))
        && (!IsSpecial(a) && !IsSpecial(b) ==> RepairNumber(a) <= RepairNumber(b))
  {
    WorkFacts(chs, novel);
    var w := Work(chs, novel);
    forall p, q | 0 <= p < q < |w|
      ensures var a := chs[w[p].id].title; var b := chs[w[q].id].title;
        && (IsSpecial(b) ==> IsSpecial(a))
        && (IsSpecial(a) && IsSpecial(b) ==> RepairNumber(a) >= RepairNumber(b))
        && (!IsSpecial(a) && !IsSpecial(b) ==> RepairNumber(a) <= RepairNumber(b))
    {
      assert KeyLessEq(RepairKey(w[p]), RepairKey(w[q]));
      assert Describes(chs, novel)(w[p]) && Describes(chs, novel)(w[q]);
    }
  }

  /** Only orders change. */
  lemma {:induction false} AssignOrdersOnly(chs: seq<Chapter>, work: seq<Entry>, i: nat, x: nat)
    requires i <= |work|
    requires forall k | 0 <= k < |work| :: work[k].id < |chs|
    requires x < |chs|
    ensures Assign(chs, work, i)[x] == chs[x].(order := Assign(chs, work, i)[x].order)
    decreases i
  {
    if i > 0 {
      AssignOrdersOnly(chs, work, i - 1, x);
    }
  }

  /** Chapters not yet reached keep their stored state. */
  lemma {:induction false} AssignUntouched(chs: seq<Chapter>, work: seq<Entry>, i: nat, x: nat)
    requires i <= |work|
    requires forall k | 0 <= k < |work| :: work[k].id < |chs|
    requires x < |chs| && forall k | 0 <= k < i :: work[k].id != x
    ensures Assign(chs, work, i)[x] == chs[x]
    decreases i
  {
    if i > 0 {
      AssignUntouched(chs, work, i - 1, x);
    }
  }

  /** Once reached, the chapter of the tuple at position k holds its new order. */
  lemma {:induction false} AssignReached(chs: seq<Chapter>, work: seq<Entry>, i: nat, k: nat)
    requires i <= |work| && DistinctIds(work)
    requires forall m | 0 <= m < |work| :: work[m].id < |chs|
    requires k < i
    ensures Assign(chs, work, i)[work[k].id].order == NewOrder(work[k], k)
    decreases i
  {
    if k < i - 1 {
      AssignReached(chs, work, i - 1, k);
    }
  }

  /** One step of the assignment loop, for a list naming each chapter once. */
  lemma AssignStep(chs: seq<Chapter>, work: seq<Entry>, i: nat)
    requires i < |work| && DistinctIds(work)
    requires forall k | 0 <= k < |work| :: work[k].id < |chs|
    ensures var e := work[i];
      var before := Assign(chs, work, i);
      && before[e.id] == chs[e.id]
      && Assign(chs, work, i + 1) == before[e.id := chs[e.id].(order := NewOrder(e, i))]
      && Changes(chs, work, i + 1)
         == Changes(chs, work, i) + (if chs[e.id].order != NewOrder(e, i) then 1 else 0)
      && (chs[e.id].order == NewOrder(e, i) ==> Assign(chs, work, i + 1) == before)
  {
    var e := work[i];
    AssignUntouched(chs, work, i, e.id);
    var before := Assign(chs, work, i);
    if chs[e.id].order == NewOrder(e, i) {
      assert before[e.id := chs[e.id].(order := NewOrder(e, i))] == before;
    }
  }

  /** One novel's pass: the chapter of the tuple at position k gets NewOrder of k, every
      other chapter is left as it was, and only orders change. */
  lemma FixNovelFacts(chs: seq<Chapter>, novel: nat)
    ensures var w := Work(chs, novel);
      var r := FixNovel(chs, novel);
      && |r| == |chs|
      && (forall x | 0 <= x < |chs| :: r[x] == chs[x].(order := r[x].order))
      && (forall k | 0 <= k < |w| :: r[w[k].id].order == NewOrder(w[k], k))
      && (forall x | 0 <= x < |chs| && chs[x].novel != novel :: r[x] == chs[x])
  {
    FixNovelOrdersOnly(chs, novel);
    FixNovelReached(chs, novel);
    FixNovelUntouched(chs, novel);
  }

  lemma FixNovelOrdersOnly(chs: seq<Chapter>, novel: nat)
    ensures var r := FixNovel(chs, novel);
      |r| == |chs| && forall x | 0 <= x < |chs| :: r[x] == chs[x].(order := r[x].order)
  {
    var w := Work(chs, novel);
    var r := FixNovel(chs, novel);
    WorkFacts(chs, novel);
    forall x | 0 <= x < |chs| ensures r[x] == chs[x].(order := r[x].order) {
      AssignOrdersOnly(chs, w, |w|, x);
    }
  }

  lemma FixNovelReached(chs: seq<Chapter>, novel: nat)
    ensures var w := Work(chs, novel);
      var r := FixNovel(chs, novel);
      |r| == |chs| && forall k | 0 <= k < |w| :: w[k].id < |chs| && r[w[k].id].order == NewOrder(w[k], k)
  {
    var w := Work(chs, novel);
    var r := FixNovel(chs, novel);
    WorkFacts(chs, novel);
    forall k | 0 <= k < |w| ensures w[k].id < |chs| && r[w[k].id].order == NewOrder(w[k], k) {
      AssignReached(chs, w, |w|, k);
    }
  }

  lemma FixNovelUntouched(chs: seq<Chapter>, novel: nat)
    ensures var r := FixNovel(chs, novel);
      |r| == |chs| && forall x | 0 <= x < |chs| && chs[x].novel != novel :: r[x] == chs[x]
  {
    var w := Work(chs, novel);
    var r := FixNovel(chs, novel);
    WorkFacts(chs, novel);
    forall x | 0 <= x < |chs| && chs[x].novel != novel ensures r[x] == chs[x] {
      forall k | 0 <= k < |w| ensures w[k].id != x {
        assert Describes(chs, novel)(w[k]);
      }
      AssignUntouched(chs, w, |w|, x);
    }
  }

  /** fix_chapter_order.py:48-51 — the special chapter at position p of the working list
      gets order SpecialBase + p, and when every normal number is below SpecialBase each
      special chapter's order exceeds every normal chapter's. */
  lemma SpecialOrders(chs: seq<Chapter>, novel: nat, p: nat, q: nat)
    requires p < |Work(chs, novel)| && q < |Work(chs, novel)|
    ensures var w := Work(chs, novel);
      var r := FixNovel(chs, novel);
      && (IsSpecial(chs[w[p].id].title) ==> r[w[p].id].order == SpecialBase + p)
      && (!IsSpecial(chs[w[q].id].title) ==> r[w[q].id].order == RepairNumber(chs[w[q].id].title))
      && ((IsSpecial(chs[w[p].id].title) && !IsSpecial(chs[w[q].id].title)
           && RepairNumber(chs[w[q].id].title) < SpecialBase) ==> r[w[q].id].order < r[w[p].id].order)
  {
    var w := Work(chs, novel);
    FixNovelFacts(chs, novel);
    assert Describes(chs, novel)(w[p]) && Describes(chs, novel)(w[q]);
  }

  /** In a list sorted by the repair key the special tuples form a prefix, namely the list
      of the special tuples. */
  lemma {:induction false} SpecialsFirst(w: seq<Entry>)
    requires SortedBy(w, RepairKey) && forall k | 0 <= k < |w| :: w[k].kind <= 1
    ensures var s := Filter(w, IsSpecialEntry);
      && |s| <= |w|
      && (forall k | 0 <= k < |s| :: s[k] == w[k] && w[k].kind == 0)
      && (forall k | |s| <= k < |w| :: w[k].kind == 1)
    decreases |w|
  {
    if w != [] {
      if w[0].kind == 0 {
        SortedTail(w, RepairKey);
        SpecialsFirst(w[1..]);
      } else {
        forall k | 0 <= k < |w| ensures w[k].kind == 1 {
          if k > 0 {
            assert KeyLessEq(RepairKey(w[0]), RepairKey(w[k]));
          }
        }
        FilterNone(w, IsSpecialEntry);
      }
    }
  }

  /** Nothing changes when every chapter already holds its new order. */
  lemma {:induction false} AssignNoop(chs: seq<Chapter>, work: seq<Entry>, i: nat)
    requires i <= |work|
    requires forall k | 0 <= k < |work| :: work[k].id < |chs|
    requires forall k | 0 <= k < i :: chs[work[k].id].order == NewOrder(work[k], k)
    ensures Assign(chs, work, i) == chs
    ensures Changes(chs, work, i) == 0
    decreases i
  {
    if i > 0 {
      AssignNoop(chs, work, i - 1);
      var e := work[i - 1];
      assert chs[e.id := chs[e.id].(order := NewOrder(e, i - 1))] == chs;
    }
  }

  /** The listing key on tuples: (order, id) of the chapter named. */
  function TupleListingKey(orders: seq<int>): Entry -> Key {
    (e: Entry) => ListingKey(orders)(e.id)
  }

  /** The tuples of a listing are in the listing's (order, id) order. */
  lemma EntriesStrict(chs: seq<Chapter>, l: seq<nat>, orders: seq<int>)
    requires forall k | 0 <= k < |l| :: l[k] < |chs|
    requires StrictlySortedBy(l, ListingKey(orders))
    ensures StrictlySortedBy(Entries(chs, l), TupleListingKey(orders))
  {
    var es := Entries(chs, l);
    forall a, b | 0 <= a < b < |es|
      ensures KeyLess(TupleListingKey(orders)(es[a]), TupleListingKey(orders)(es[b]))
    {
      assert es[a].id == l[a] && es[b].id == l[b];
    }
  }

  /** A tuple belongs to a novel's listing exactly when it describes one of its chapters. */
  lemma ListedTuples(chs: seq<Chapter>, novel: nat, e: Entry)
    ensures e in Entries(chs, Listing(chs, novel)) <==> Describes(chs, novel)(e)
  {
    var l := Listing(chs, novel);
    var es := Entries(chs, l);
    ListingFacts(chs, novel);
    if e in es {
      var k :| 0 <= k < |es| && es[k] == e;
      assert e == Info(chs, l[k]);
    }
    if Describes(chs, novel)(e) {
      assert e.id in l;
      var k :| 0 <= k < |l| && l[k] == e.id;
      assert es[k] == e;
    }
  }

  /** After the pass the special tuples, listed by (order, id), are exactly the special
      tuples of the working list in working-list order. */
  lemma SpecialsListedAfter(chs: seq<Chapter>, novel: nat)
    ensures var r := FixNovel(chs, novel);
      Filter(Entries(r, Listing(r, novel)), IsSpecialEntry) == Filter(Work(chs, novel), IsSpecialEntry)
  {
    var r := FixNovel(chs, novel);
    var lk := TupleListingKey(OrdersOf(r));
    var a := Filter(Entries(r, Listing(r, novel)), IsSpecialEntry);
    var s := Filter(Work(chs, novel), IsSpecialEntry);
    ListingFacts(r, novel);
    EntriesStrict(r, Listing(r, novel), OrdersOf(r));
    FilterStrict(Entries(r, Listing(r, novel)), IsSpecialEntry, lk);
    SpecialsByNewOrder(chs, novel);
    SpecialsSameTuples(chs, novel);
    StrictSortedUnique(a, s, lk);
  }

  /** The special tuples listed after the pass and those of the working list before it are
      the same. */
  lemma SpecialsSameTuples(chs: seq<Chapter>, novel: nat)
    ensures var r := FixNovel(chs, novel);
      forall e :: e in Filter(Entries(r, Listing(r, novel)), IsSpecialEntry)
             <==> e in Filter(Work(chs, novel), IsSpecialEntry)
  {
    var r := FixNovel(chs, novel);
    var w := Work(chs, novel);
    FixNovelFacts(chs, novel);
    WorkFacts(chs, novel);
    forall e ensures e in Filter(Entries(r, Listing(r, novel)), IsSpecialEntry)
                     <==> e in Filter(w, IsSpecialEntry)
    {
      FilterMembers(Entries(r, Listing(r, novel)), IsSpecialEntry, e);
      FilterMembers(w, IsSpecialEntry, e);
      ListedTuples(r, novel, e);
      ListedTuples(chs, novel, e);
      assert e in w <==> e in multiset(Entries(chs, Listing(chs, novel)));
      if e.id < |chs| {
        assert Info(r, e.id) == Info(chs, e.id);
      }
    }
  }

  /** After the pass the special tuple at position p of the working list has listing key
      (SpecialBase + p, id). */
  lemma SpecialKeyAt(chs: seq<Chapter>, novel: nat, p: nat)
    requires p < |Filter(Work(chs, novel), IsSpecialEntry)|
    ensures var s := Filter(Work(chs, novel), IsSpecialEntry);
      TupleListingKey(OrdersOf(FixNovel(chs, novel)))(s[p]) == Key(SpecialBase + p, s[p].id)
  {
    var r := FixNovel(chs, novel);
    var w := Work(chs, novel);
    WorkFacts(chs, novel);
    SpecialsPrefix(chs, novel);
    var e := w[p];
    assert Describes(chs, novel)(e);
    AssignReached(chs, w, |w|, p);
    var orders := OrdersOf(r);
    assert orders[e.id] == SpecialBase + p;
    assert e.id < |orders|;
    assert ListingKey(orders)(e.id) == Key(orders[e.id], e.id);
    assert TupleListingKey(orders)(e) == ListingKey(orders)(e.id);
    assert Filter(w, IsSpecialEntry)[p] == e;
  }

  /** The pass numbers the special tuples of the working list upwards from SpecialBase, so
      they are in strict (order, id) order afterwards. */
  lemma SpecialsByNewOrder(chs: seq<Chapter>, novel: nat)
    ensures var r := FixNovel(chs, novel);
      StrictlySortedBy(Filter(Work(chs, novel), IsSpecialEntry), TupleListingKey(OrdersOf(r)))
  {
    var lk := TupleListingKey(OrdersOf(FixNovel(chs, novel)));
    var s := Filter(Work(chs, novel), IsSpecialEntry);
    forall p, q | 0 <= p < q < |s| ensures KeyLess(lk(s[p]), lk(s[q])) {
      SpecialKeyAt(chs, novel, p);
      SpecialKeyAt(chs, novel, q);
    }
  }

  /** After the pass a normal chapter's order is its number. */
  lemma NormalKeepsNumber(chs: seq<Chapter>, novel: nat, e: Entry)
    requires Describes(FixNovel(chs, novel), novel)(e) && e.kind == 1
    ensures FixNovel(chs, novel)[e.id].order == e.number
  {
    var r := FixNovel(chs, novel);
    var w := Work(chs, novel);
    FixNovelFacts(chs, novel);
    WorkFacts(chs, novel);
    assert Info(r, e.id) == Info(chs, e.id);
    assert Info(chs, e.id) in w;
    var p :| 0 <= p < |w| && w[p] == e;
  }

  /** The special tuples of a working list come first. */
  lemma SpecialsPrefix(chs: seq<Chapter>, novel: nat)
    ensures var w := Work(chs, novel);
      var s := Filter(w, IsSpecialEntry);
      && |s| <= |w|
      && (forall k | 0 <= k < |s| :: s[k] == w[k] && w[k].kind == 0)
      && (forall k | |s| <= k < |w| :: w[k].kind == 1)
  {
    var w := Work(chs, novel);
    SortFacts(Entries(chs, Listing(chs, novel)), RepairKey);
    forall k | 0 <= k < |w| ensures w[k].kind <= 1 {
      assert Describes(chs, novel)(w[k]);
    }
    SpecialsFirst(w);
  }

  /** The pass keeps the special tuples of the working list, in their order. */
  lemma SpecialsStay(chs: seq<Chapter>, novel: nat)
    ensures Filter(Work(FixNovel(chs, novel), novel), IsSpecialEntry)
         == Filter(Work(chs, novel), IsSpecialEntry)
  {
    var r := FixNovel(chs, novel);
    var w := Work(chs, novel);
    WorkFacts(chs, novel);
    // the special tuples listed after the pass are those of w, already in key order
    SpecialsListedAfter(chs, novel);
    FilterSort(Entries(r, Listing(r, novel)), IsSpecialEntry, RepairKey);
    FilterSorted(w, IsSpecialEntry, RepairKey);
    SortSorted(Filter(w, IsSpecialEntry), RepairKey);
  }

  /** After the pass every chapter of the novel already holds the order a second pass
      would give it. */
  lemma OrdersSettled(chs: seq<Chapter>, novel: nat)
    ensures var r := FixNovel(chs, novel);
      var w2 := Work(r, novel);
      forall k | 0 <= k < |w2| :: r[w2[k].id].order == NewOrder(w2[k], k)
  {
    var r := FixNovel(chs, novel);
    var w := Work(chs, novel);
    var w2 := Work(r, novel);
    var s := Filter(w, IsSpecialEntry);
    FixNovelFacts(chs, novel);
    SpecialsPrefix(chs, novel);
    SpecialsPrefix(r, novel);
    SpecialsStay(chs, novel);
    forall k | 0 <= k < |w2| ensures r[w2[k].id].order == NewOrder(w2[k], k) {
      if k < |s| {
        assert w2[k] == w[k];
      } else {
        NormalKeepsNumber(chs, novel, w2[k]);
      }
    }
  }

  /** Re-running the pass on its own result changes nothing and counts no update. */
  lemma FixIdempotent(chs: seq<Chapter>, novel: nat)
    ensures var r := FixNovel(chs, novel);
      FixNovel(r, novel) == r && NovelChanges(r, novel) == 0
  {
    var r := FixNovel(chs, novel);
    OrdersSettled(chs, novel);
    AssignNoop(r, Work(r, novel), |Work(r, novel)|);
  }

  /** fix_chapter_order.py:40-56 for one novel: list its chapters by (order, id) and build
      the (chapter, type, number) tuples, sort them by the repair key, then write the
      orders. */
  method FixNovelOrder(db: Db, novel: nat) returns (updated: nat)
    requires db.Valid()
    modifies db
    ensures db.Valid()
    ensures db.novels == old(db.novels) && db.filterWords == old(db.filterWords)
    ensures db.chapters == FixNovel(old(db.chapters), novel)
    ensures updated == NovelChanges(old(db.chapters), novel)
  {
    var listing := Listing(db.chapters, novel);
    var entries: seq<Entry> := [];
    var j := 0;
    while j < |listing|
      invariant 0 <= j <= |listing|
      invariant entries == Entries(db.chapters, listing[..j])
    {
      assert listing[..j + 1][..j] == listing[..j];
      entries := entries + [Info(db.chapters, listing[j])];
      j := j + 1;
    }
    assert listing[..j] == listing;
    var chapters := Sort(entries, RepairKey);
    WorkFacts(db.chapters, novel);
    updated := AssignOrders(db, chapters);
  }

  /** fix_chapter_order.py:49-56: walk the sorted list and write each differing order with
      an order-only save, counting the writes. */
  method AssignOrders(db: Db, chapters: seq<Entry>) returns (updated: nat)
    requires db.Valid() && DistinctIds(chapters)
    requires forall k | 0 <= k < |chapters| :: chapters[k].id < |db.chapters|
    modifies db
    ensures db.Valid()
    ensures db.novels == old(db.novels) && db.filterWords == old(db.filterWords)
    ensures db.chapters == Assign(old(db.chapters), chapters, |chapters|)
    ensures updated == Changes(old(db.chapters), chapters, |chapters|)
  {
    ghost var start := db.chapters;
    updated := 0;
    var i := 0;
    while i < |chapters|
      invariant 0 <= i <= |chapters|
      invariant db.Valid()
      invariant db.novels == old(db.novels) && db.filterWords == old(db.filterWords)
      invariant db.chapters == Assign(start, chapters, i)
      invariant updated == Changes(start, chapters, i)
    {
      var e := chapters[i];
      AssignStep(start, chapters, i);
      var newOrder := NewOrder(e, i);
      if db.chapters[e.id].order != newOrder {
        db.SaveOrder(e.id, newOrder);
        updated := updated + 1;
      }
      i := i + 1;
    }
  }

  /** The pass over the novels with ids below n: the chapters afterwards and the number of
      updates counted. */
  function FixBelow(chs: seq<Chapter>, n: nat): (seq<Chapter>, nat) {
    if n == 0 then (chs, 0)
    else
      var (before, count) := FixBelow(chs, n - 1);
      (FixNovel(before, n - 1), count + NovelChanges(before, n - 1))
  }

  /** fix_chapter_order.py:30-60: the pass over every novel, with the total of updates. */
  method FixChapterOrder(db: Db) returns (total: nat)
    requires db.Valid()
    modifies db
    ensures db.Valid()
    ensures db.novels == old(db.novels) && db.filterWords == old(db.filterWords)
    ensures db.chapters == FixBelow(old(db.chapters), |db.novels|).0
    ensures total == FixBelow(old(db.chapters), |db.novels|).1
  {
    ghost var start := db.chapters;
    total := 0;
    var n := 0;
    while n < |db.novels|
      invariant 0 <= n <= |db.novels|
      invariant db.Valid()
      invariant db.novels == old(db.novels) && db.filterWords == old(db.filterWords)
      invariant db.chapters == FixBelow(start, n).0 && total == FixBelow(start, n).1
    {
      total := FixNext(db, start, n, total);
      n := n + 1;
    }
  }

  /** One round of the loop over the novels: repair novel n and add its updates to the
      running total. */
  method FixNext(db: Db, ghost start: seq<Chapter>, n: nat, total: nat) returns (total': nat)
    requires db.Valid() && db.chapters == FixBelow(start, n).0 && total == FixBelow(start, n).1
    modifies db
    ensures db.Valid()
    ensures db.novels == old(db.novels) && db.filterWords == old(db.filterWords)
    ensures db.chapters == FixBelow(start, n + 1).0 && total' == FixBelow(start, n + 1).1
  {
    ghost var before := db.chapters;
    var updated := FixNovelOrder(db, n);
    FixBelowStep(start, n, before, total);
    total' := total + updated;
  }

  /** The pass over the novels below n + 1 is the pass below n followed by novel n. */
  lemma FixBelowStep(chs: seq<Chapter>, n: nat, before: seq<Chapter>, count: nat)
    requires FixBelow(chs, n).0 == before && FixBelow(chs, n).1 == count
    ensures FixBelow(chs, n + 1).0 == FixNovel(before, n)
    ensures FixBelow(chs, n + 1).1 == count + NovelChanges(before, n)
  {
  }
}

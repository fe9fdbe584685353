/** Bounded selection of the smallest items by a rank key. */
module Select {
  import opened Wrappers
  import opened Sorting

  /** `key` is the pair {rank, tie}; an entry orders by it and then, as terms do, by its item. */
  datatype Entry<K, T> = Entry(key: K, item: T)

  /** The orders of keys and of items, and the key of an item. */
  datatype Ranking<!K, !T> = Ranking(keys: (K, K) -> bool, items: (T, T) -> bool, rank: T -> K)

  ghost predicate Orders<K(!new), T(!new)>(r: Ranking<K, T>) {
    TotalOrder(r.keys) && TotalOrder(r.items)
  }

  function EntryOrder<K(==), T>(r: Ranking<K, T>): (Entry<K, T>, Entry<K, T>) -> bool {
    (a: Entry<K, T>, b: Entry<K, T>) => if a.key == b.key then r.items(a.item, b.item) else r.keys(a.key, b.key)
  }

  /** The ordered working set and its size. */
  datatype Working<K, T> = Working(entries: seq<Entry<K, T>>, size: nat)

  /** Inserting an entry that the set holds is an error, None. */
  function InsertNew<K(==), T(==)>(
    r: Ranking<K, T>, e: Entry<K, T>, entries: seq<Entry<K, T>>): Option<seq<Entry<K, T>>>
  {
    if e in entries then None else Some(Insert(EntryOrder(r), e, entries))
  }

  function Consider<K(==), T(==)>(r: Ranking<K, T>, w: Working<K, T>, count: nat, e: Entry<K, T>): Option<Working<K, T>>
    requires w.size == |w.entries| && count > 0
  {
    if w.size < count then
      var grown := InsertNew(r, e, w.entries);
      if grown.None? then None else Some(Working(grown.value, w.size + 1))
    else
      var largest, rest := w.entries[w.size - 1], w.entries[..w.size - 1];
      if e.key != largest.key && r.keys(e.key, largest.key) then
        var swapped := InsertNew(r, e, rest);
        if swapped.None? then None else Some(Working(swapped.value, w.size))
      else Some(w)
  }

  function ConsiderAll<K(==), T(==)>(
    r: Ranking<K, T>, w: Working<K, T>, count: nat, items: seq<T>): Option<Working<K, T>>
    requires w.size == |w.entries| && count > 0
    decreases |items|
  {
    if items == [] then Some(w)
    else
      var next := Consider(r, w, count, Entry(r.rank(items[0]), items[0]));
      if next.None? then None else ConsiderAll(r, next.value, count, items[1..])
  }

  function Items<K, T>(entries: seq<Entry<K, T>>): (items: seq<T>)
    ensures |items| == |entries|
  {
    if entries == [] then [] else [entries[0].item] + Items(entries[1..])
  }

  function Smallest<K(==), T(==)>(r: Ranking<K, T>, items: seq<T>, count: nat): Option<seq<T>>
    requires count > 0
  {
    var w := ConsiderAll(r, Working([], 0), count, items);
    if w.None? then None else Some(Items(Sort(EntryOrder(r), w.value.entries)))
  }

  // ---------- Sort and take ----------

  function Entries<K(==), T>(r: Ranking<K, T>, items: seq<T>): (es: seq<Entry<K, T>>)
    ensures |es| == |items|
  {
    if items == [] then [] else [Entry(r.rank(items[0]), items[0])] + Entries(r, items[1..])
  }

  function First<T>(s: seq<T>, count: nat): seq<T> {
    if count <= |s| then s[..count] else s
  }

  /** The first `count` entries of the fully sorted input. */
  function SortAndTake<K(==), T>(r: Ranking<K, T>, entries: seq<Entry<K, T>>, count: nat): seq<Entry<K, T>> {
    First(Sort(EntryOrder(r), entries), count)
  }

  ghost predicate DistinctKeys<K, T>(entries: seq<Entry<K, T>>) {
    forall i, j | 0 <= i < j < |entries| :: entries[i].key != entries[j].key
  }

  lemma EntryOrderTotal<K(!new), T(!new)>(r: Ranking<K, T>)
    requires Orders(r)
    ensures TotalOrder(EntryOrder(r))
  {
    var le := EntryOrder(r);
    forall a, b ensures (le(a, b) || le(b, a)) && (le(a, b) && le(b, a) ==> a == b) {
      assert r.keys(a.key, b.key) || r.keys(b.key, a.key);
      assert r.keys(a.key, b.key) && r.keys(b.key, a.key) ==> a.key == b.key;
      assert r.items(a.item, b.item) || r.items(b.item, a.item);
      assert r.items(a.item, b.item) && r.items(b.item, a.item) ==> a.item == b.item;
    }
    forall a, b, c | le(a, b) && le(b, c) ensures le(a, c) {
      assert r.keys(a.key, b.key) && r.keys(b.key, c.key) ==> r.keys(a.key, c.key);
      assert r.items(a.item, b.item) && r.items(b.item, c.item) ==> r.items(a.item, c.item);
      assert r.keys(a.key, c.key) && r.keys(c.key, a.key) ==> a.key == c.key;
    }
  }

  /** Where an entry inserted into a sorted sequence goes, as far as the first `count` can tell. */
  lemma {:induction false} FirstOfInsert<T(!new)>(le: (T, T) -> bool, x: T, s: seq<T>, count: nat)
    requires TotalOrder(le) && Sorted(le, s) && 0 < count <= |s| && x !in s
    ensures le(x, s[count - 1]) ==> First(Insert(le, x, s), count) == Insert(le, x, s[..count - 1])
    ensures !le(x, s[count - 1]) ==> First(Insert(le, x, s), count) == s[..count]
    decreases |s|
  {
    if le(x, s[0]) {
      LeastFirst(le, x, s, count);
    } else if count > 1 {
      var tail := s[1..];
      FirstOfInsert(le, x, tail, count - 1);
      assert tail[..count - 2] == s[1..count - 1] && tail[..count - 1] == s[1..count];
      assert s[..count - 1][1..] == tail[..count - 2];
      assert s[..count] == [s[0]] + tail[..count - 1];
    }
  }

  lemma LeastFirst<T(!new)>(le: (T, T) -> bool, x: T, s: seq<T>, count: nat)
    requires TotalOrder(le) && Sorted(le, s) && 0 < count <= |s| && le(x, s[0])
    ensures le(x, s[count - 1])
    ensures First(Insert(le, x, s), count) == Insert(le, x, s[..count - 1])
  {
    assert count == 1 || le(s[0], s[count - 1]);
    assert Insert(le, x, s) == [x] + s;
    assert Insert(le, x, s[..count - 1]) == [x] + s[..count - 1];
  }

  lemma SortAppend<T(!new)>(le: (T, T) -> bool, s: seq<T>, x: T)
    requires TotalOrder(le)
    ensures Sort(le, s + [x]) == Insert(le, x, Sort(le, s))
    ensures Sorted(le, Sort(le, s)) && multiset(Sort(le, s)) == multiset(s)
  {
    SortOfPermutation(le, s + [x], [x] + s);
    assert ([x] + s)[1..] == s;
    SortSorted(le, s);
    SortElements(le, s);
  }

  /** What holds of the working set when the entries `seen` have been considered. */
  ghost predicate HoldsSmallest<K(!new), T(!new)>(
    r: Ranking<K, T>, w: Working<K, T>, count: nat, seen: seq<Entry<K, T>>)
  {
    w.entries == SortAndTake(r, seen, count) && w.size == |w.entries|
  }

  lemma NewEntry<K(!new), T(!new)>(r: Ranking<K, T>, seen: seq<Entry<K, T>>, e: Entry<K, T>)
    requires Orders(r) && DistinctKeys(seen + [e])
    ensures forall x <- Sort(EntryOrder(r), seen) :: x.key != e.key
  {
    EntryOrderTotal(r);
    SortElements(EntryOrder(r), seen);
    forall x <- Sort(EntryOrder(r), seen) ensures x.key != e.key {
      assert x in multiset(seen);
      var i :| 0 <= i < |seen| && seen[i] == x;
      assert (seen + [e])[i].key != (seen + [e])[|seen|].key;
    }
  }

  /** Considering one more entry keeps the smallest min(count, seen) entries. */
  lemma ConsiderKeepsSmallest<K(!new), T(!new)>(
    r: Ranking<K, T>, w: Working<K, T>, count: nat, seen: seq<Entry<K, T>>, e: Entry<K, T>)
    requires Orders(r) && count > 0 && HoldsSmallest(r, w, count, seen) && DistinctKeys(seen + [e])
    ensures Consider(r, w, count, e).Some?
    ensures HoldsSmallest(r, Consider(r, w, count, e).value, count, seen + [e])
  {
    var le := EntryOrder(r);
    var s := Sort(le, seen);
    EntryOrderTotal(r);
    SortAppend(le, seen, e);
    NewEntry(r, seen, e);
    assert e !in s;
    if |s| >= count {
      FirstOfInsert(le, e, s, count);
      FullConsiders(r, w, count, s, e);
    } else {
      hide Sort, Insert, EntryOrder, TotalOrder, DistinctKeys, Sorted;
      assert First(Insert(le, e, s), count) == Insert(le, e, s);
    }
  }

  /** A full working set takes the entry for its largest one, or passes it over. */
  lemma FullConsiders<K(!new), T(!new)>(
    r: Ranking<K, T>, w: Working<K, T>, count: nat, s: seq<Entry<K, T>>, e: Entry<K, T>)
    requires 0 < count <= |s| && w.entries == s[..count] && w.size == count
    requires forall x <- s :: x.key != e.key
    ensures var le := EntryOrder(r);
            Consider(r, w, count, e)
              == if le(e, s[count - 1]) then Some(Working(Insert(le, e, s[..count - 1]), count)) else Some(w)
  {
    hide EntryOrder, Insert;
    var largest := s[count - 1];
    assert largest in s && w.entries[w.size - 1] == largest;
    ByKey(r, e, largest);
    assert w.entries[..count - 1] == s[..count - 1];
    assert e !in s[..count - 1];
  }

  lemma ByKey<K(!new), T(!new)>(r: Ranking<K, T>, a: Entry<K, T>, b: Entry<K, T>)
    requires a.key != b.key
    ensures EntryOrder(r)(a, b) <==> r.keys(a.key, b.key)
  {
  }

  lemma {:induction false} EntriesConcat<K, T>(r: Ranking<K, T>, a: seq<T>, b: seq<T>)
    ensures Entries(r, a + b) == Entries(r, a) + Entries(r, b)
  {
    if a == [] {
      assert a + b == b;
    } else {
      assert (a + b)[1..] == a[1..] + b;
      EntriesConcat(r, a[1..], b);
    }
  }

  lemma {:induction false} ConsiderAllKeepsSmallest<K(!new), T(!new)>(
    r: Ranking<K, T>, w: Working<K, T>, count: nat, seen: seq<T>, items: seq<T>)
    requires Orders(r) && count > 0 && HoldsSmallest(r, w, count, Entries(r, seen))
    requires DistinctKeys(Entries(r, seen + items))
    ensures ConsiderAll(r, w, count, items).Some?
    ensures HoldsSmallest(r, ConsiderAll(r, w, count, items).value, count, Entries(r, seen + items))
    decreases |items|
  {
    hide HoldsSmallest, Orders, Consider;
    SizeHolds(r, w, count, Entries(r, seen));
    if items == [] {
      assert seen + items == seen;
    } else {
      var x := items[0];
      var e := Entry(r.rank(x), x);
      assert seen + items == (seen + [x]) + items[1..];
      EntriesConcat(r, seen + [x], items[1..]);
      EntriesConcat(r, seen, [x]);
      assert Entries(r, [x]) == [e];
      DistinctPrefix(Entries(r, seen) + [e], Entries(r, items[1..]));
      ConsiderKeepsSmallest(r, w, count, Entries(r, seen), e);
      var next := Consider(r, w, count, e).value;
      SizeHolds(r, next, count, Entries(r, seen + [x]));
      ConsiderAllKeepsSmallest(r, next, count, seen + [x], items[1..]);
    }
  }

  lemma SizeHolds<K(!new), T(!new)>(r: Ranking<K, T>, w: Working<K, T>, count: nat, seen: seq<Entry<K, T>>)
    requires HoldsSmallest(r, w, count, seen)
    ensures w.size == |w.entries| == if count <= |seen| then count else |seen|
  {
  }

  lemma DistinctPrefix<K, T>(a: seq<Entry<K, T>>, b: seq<Entry<K, T>>)
    requires DistinctKeys(a + b)
    ensures DistinctKeys(a)
  {
    forall i, j | 0 <= i < j < |a| ensures a[i].key != a[j].key {
      assert (a + b)[i].key != (a + b)[j].key;
    }
  }

  /** For items with pairwise distinct keys the bounded selection is sorting everything and taking the
      first `count` items. */
  lemma SmallestIsSortAndTake<K(!new), T(!new)>(r: Ranking<K, T>, items: seq<T>, count: nat)
    requires Orders(r) && count > 0 && DistinctKeys(Entries(r, items))
    ensures Smallest(r, items, count) == Some(Items(SortAndTake(r, Entries(r, items), count)))
  {
    var le, es := EntryOrder(r), Entries(r, items);
    hide EntryOrder, TotalOrder, Orders, DistinctKeys;
    EntryOrderTotal(r);
    assert [] + items == items;
    assert HoldsSmallest(r, Working([], 0), count, Entries(r, []));
    ConsiderAllKeepsSmallest(r, Working([], 0), count, [], items);
    var taken := SortAndTake(r, es, count);
    SortSorted(le, es);
    assert Sorted(le, taken);
    SortSorted(le, taken);
    SortElements(le, taken);
    SortedUnique(le, Sort(le, taken), taken);
  }

  lemma {:induction false} EntriesElements<K, T>(r: Ranking<K, T>, items: seq<T>, e: Entry<K, T>)
    ensures multiset(Entries(r, items))[e] == if e.key == r.rank(e.item) then multiset(items)[e.item] else 0
  {
    if items != [] {
      assert items == [items[0]] + items[1..];
      EntriesElements(r, items[1..], e);
    }
  }

  lemma DistinctIsMultiset<K, T>(a: seq<Entry<K, T>>, b: seq<Entry<K, T>>)
    requires DistinctKeys(a) && multiset(a) == multiset(b)
    ensures DistinctKeys(b)
  {
    forall i, j | 0 <= i < j < |b| ensures b[i].key != b[j].key {
      if b[i].key == b[j].key {
        var x, y := b[i], b[j];
        assert x in multiset(b) && y in multiset(b);
        var k :| 0 <= k < |a| && a[k] == x;
        var l :| 0 <= l < |a| && a[l] == y;
        assert k == l;
        TwoOccurrences(b, i, j);
        OneOccurrence(a, k);
        assert false;
      }
    }
  }

  lemma TwoOccurrences<T>(s: seq<T>, i: nat, j: nat)
    requires i < j < |s| && s[i] == s[j]
    ensures multiset(s)[s[i]] >= 2
  {
    assert s == s[..i] + [s[i]] + s[i + 1..j] + [s[j]] + s[j + 1..];
  }

  lemma OneOccurrence<K, T>(s: seq<Entry<K, T>>, i: nat)
    requires DistinctKeys(s) && i < |s|
    ensures multiset(s)[s[i]] == 1
  {
    assert s == s[..i] + [s[i]] + s[i + 1..];
    assert s[i] !in s[..i] && s[i] !in s[i + 1..];
  }

  /** The selection does not depend on the order in which the items are listed. */
  lemma SmallestIgnoresOrder<K(!new), T(!new)>(r: Ranking<K, T>, a: seq<T>, b: seq<T>, count: nat)
    requires Orders(r) && count > 0 && DistinctKeys(Entries(r, a)) && multiset(a) == multiset(b)
    ensures Smallest(r, a, count) == Smallest(r, b, count)
  {
    hide EntryOrder, TotalOrder, Orders, DistinctKeys, Smallest;
    DistinctListing(r, a, b);
    SmallestIsSortAndTake(r, a, count);
    SmallestIsSortAndTake(r, b, count);
    EntryOrderTotal(r);
    SortOfPermutation(EntryOrder(r), Entries(r, a), Entries(r, b));
  }

  /** With one key for two items, the first one listed wins. */
  lemma SharedKeyDependsOnOrder<K(!new), T(!new)>(r: Ranking<K, T>, a: T, b: T)
    requires a != b && r.rank(a) == r.rank(b)
    ensures Smallest(r, [a, b], 1) == Some([a]) && Smallest(r, [b, a], 1) == Some([b])
  {
    SharedKeyFirst(r, a, b);
    SharedKeyFirst(r, b, a);
  }

  lemma SharedKeyFirst<K(!new), T(!new)>(r: Ranking<K, T>, a: T, b: T)
    requires r.rank(a) == r.rank(b)
    ensures Smallest(r, [a, b], 1) == Some([a])
  {
    var e := Entry(r.rank(a), a);
    var one := Working([e], 1);
    assert [a, b][1..] == [b] && [b][1..] == [];
    assert Insert(EntryOrder(r), e, []) == [e];
    assert Consider(r, Working([], 0), 1, e) == Some(one);
    assert Consider(r, one, 1, Entry(r.rank(b), b)) == Some(one);
    assert ConsiderAll(r, one, 1, []) == Some(one);
    assert ConsiderAll(r, one, 1, [b]) == Some(one);
    assert Sort(EntryOrder(r), []) == [] && Sort(EntryOrder(r), [e]) == [e];
    assert Items([e]) == [a];
  }

  // ---------- Shared keys ----------

  /** The entries carry the keys of their items. */
  ghost predicate WellKeyed<K(!new), T(!new)>(r: Ranking<K, T>, es: seq<Entry<K, T>>) {
    forall e <- es :: e.key == r.rank(e.item)
  }

  lemma {:induction false} EntriesWellKeyed<K(!new), T(!new)>(r: Ranking<K, T>, items: seq<T>)
    ensures WellKeyed(r, Entries(r, items)) && Items(Entries(r, items)) == items
  {
    if items != [] {
      EntriesWellKeyed(r, items[1..]);
    }
  }

  lemma {:induction false} ItemsWellKeyed<K(!new), T(!new)>(r: Ranking<K, T>, es: seq<Entry<K, T>>)
    requires WellKeyed(r, es)
    ensures Entries(r, Items(es)) == es
  {
    if es != [] {
      assert es[0] in es;
      ItemsWellKeyed(r, es[1..]);
    }
  }

  lemma {:induction false} ItemsAt<K, T>(es: seq<Entry<K, T>>, i: nat)
    requires i < |es|
    ensures Items(es)[i] == es[i].item
  {
    if i > 0 {
      ItemsAt(es[1..], i - 1);
    }
  }

  lemma SameWellKeyed<K(!new), T(!new)>(r: Ranking<K, T>, a: seq<Entry<K, T>>, b: seq<Entry<K, T>>)
    requires WellKeyed(r, a) && multiset(a) == multiset(b)
    ensures WellKeyed(r, b)
  {
    forall e | e in b ensures e.key == r.rank(e.item) {
      assert e in multiset(b);
    }
  }

  /** Rearranging the entries of a list rearranges the list. */
  lemma Relisted<K(!new), T(!new)>(r: Ranking<K, T>, items: seq<T>, es: seq<Entry<K, T>>)
    requires multiset(es) == multiset(Entries(r, items))
    ensures WellKeyed(r, es) && Entries(r, Items(es)) == es && multiset(Items(es)) == multiset(items)
  {
    hide Entries, Items;
    EntriesWellKeyed(r, items);
    SameWellKeyed(r, Entries(r, items), es);
    hide WellKeyed;
    ItemsWellKeyed(r, es);
    forall x ensures multiset(Items(es))[x] == multiset(items)[x] {
      EntriesElements(r, items, Entry(r.rank(x), x));
      EntriesElements(r, Items(es), Entry(r.rank(x), x));
    }
  }

  /** The first tie of a sorted sequence is between neighbours. */
  lemma {:induction false} FirstTie<K(!new), T(!new)>(r: Ranking<K, T>, s: seq<Entry<K, T>>) returns (m: nat)
    requires Orders(r) && Sorted(EntryOrder(r), s) && !DistinctKeys(s)
    ensures m + 1 < |s| && s[m].key == s[m + 1].key && DistinctKeys(s[..m + 1])
    decreases |s|
  {
    var n := |s| - 1;
    if !DistinctKeys(s[..n]) {
      m := FirstTie(r, s[..n]);
      assert s[..n][..m + 1] == s[..m + 1];
    } else {
      forall a, b | 0 <= a < b < n ensures s[a].key != s[b].key {
        assert s[..n][a].key != s[..n][b].key;
      }
      var i, j :| 0 <= i < j < |s| && s[i].key == s[j].key;
      TiedNeighbours(r, s, i);
      m := n - 1;
    }
  }

  lemma TiedNeighbours<K(!new), T(!new)>(r: Ranking<K, T>, s: seq<Entry<K, T>>, i: nat)
    requires Orders(r) && Sorted(EntryOrder(r), s) && i < |s| - 1 && s[i].key == s[|s| - 1].key
    ensures s[|s| - 2].key == s[|s| - 1].key
  {
    var m, n := |s| - 2, |s| - 1;
    assert i == m || EntryOrder(r)(s[i], s[m]);
    assert EntryOrder(r)(s[m], s[n]);
  }

  lemma {:induction false} ConsiderAllSplit<K(!new), T(!new)>(
    r: Ranking<K, T>, w: Working<K, T>, count: nat, a: seq<T>, b: seq<T>)
    requires w.size == |w.entries| && count > 0 && ConsiderAll(r, w, count, a).Some?
    ensures var v := ConsiderAll(r, w, count, a).value;
            v.size == |v.entries| && ConsiderAll(r, w, count, a + b) == ConsiderAll(r, v, count, b)
    decreases |a|
  {
    if a == [] {
      assert a + b == b;
    } else {
      assert (a + b)[0] == a[0] && (a + b)[1..] == a[1..] + b;
      ConsiderAllSplit(r, Consider(r, w, count, Entry(r.rank(a[0]), a[0])).value, count, a[1..], b);
    }
  }

  /** Items whose keys are not below the largest of a full working set are passed over. */
  lemma {:induction false} ConsiderAllPasses<K(!new), T(!new)>(
    r: Ranking<K, T>, w: Working<K, T>, count: nat, items: seq<T>)
    requires w.size == |w.entries| == count > 0
    requires forall x <- items :: var k := w.entries[count - 1].key; r.rank(x) == k || !r.keys(r.rank(x), k)
    ensures ConsiderAll(r, w, count, items) == Some(w)
    decreases |items|
  {
    if items != [] {
      assert items[0] in items;
      ConsiderAllPasses(r, w, count, items[1..]);
    }
  }

  /** An item listed twice at the front is an error once two are asked for. */
  lemma TwiceFails<K(!new), T(!new)>(r: Ranking<K, T>, x: T, rest: seq<T>)
    ensures Smallest(r, [x, x] + rest, 2).None?
  {
    var e := Entry(r.rank(x), x);
    var items := [x, x] + rest;
    assert items[0] == x && items[1..] == [x] + rest && ([x] + rest)[0] == x;
    assert Insert(EntryOrder(r), e, []) == [e];
    assert Consider(r, Working([], 0), 2, e) == Some(Working([e], 1));
    assert Consider(r, Working([e], 1), 2, e).None?;
    assert ConsiderAll(r, Working([e], 1), 2, [x] + rest).None?;
  }

  /** The listing that puts the second of two tied neighbours first. */
  function TieFirst<K, T>(s: seq<Entry<K, T>>, m: nat): seq<Entry<K, T>>
    requires m + 1 < |s|
  {
    ([s[m + 1]] + s[..m]) + ([s[m]] + s[m + 2..])
  }

  lemma TieFirstElements<K, T>(s: seq<Entry<K, T>>, m: nat)
    requires m + 1 < |s|
    ensures multiset(TieFirst(s, m)) == multiset(s)
    ensures multiset([s[m + 1]] + s[..m]) == multiset(s[..m] + [s[m + 1]])
  {
    assert s == s[..m] + [s[m]] + [s[m + 1]] + s[m + 2..];
  }

  lemma TieKeys<K(!new), T(!new)>(r: Ranking<K, T>, s: seq<Entry<K, T>>, m: nat)
    requires Orders(r) && Sorted(EntryOrder(r), s) && m + 1 < |s| && s[m].key == s[m + 1].key
    requires DistinctKeys(s[..m + 1])
    ensures DistinctKeys([s[m + 1]] + s[..m]) && Sorted(EntryOrder(r), s[..m] + [s[m + 1]])
    ensures forall e <- [s[m]] + s[m + 2..] :: e.key == s[m + 1].key || !r.keys(e.key, s[m + 1].key)
  {
    var es := [s[m + 1]] + s[..m];
    forall i, j | 0 <= i < j < |es| ensures es[i].key != es[j].key {
      if i == 0 {
        assert s[..m + 1][j - 1].key != s[..m + 1][m].key;
      } else {
        assert s[..m + 1][i - 1].key != s[..m + 1][j - 1].key;
      }
    }
    forall e | e in [s[m]] + s[m + 2..] ensures e.key == s[m + 1].key || !r.keys(e.key, s[m + 1].key) {
      if e in s[m + 2..] {
        var k :| m + 2 <= k < |s| && s[k] == e;
        assert EntryOrder(r)(s[m + 1], s[k]);
      }
    }
  }

  /** Listing the second of two tied items first keeps it and loses the other, which sorts before it. */
  lemma TieFirstSelected<K(!new), T(!new)>(r: Ranking<K, T>, s: seq<Entry<K, T>>, m: nat)
    requires Orders(r) && Sorted(EntryOrder(r), s) && WellKeyed(r, s)
    requires m + 1 < |s| && s[m].key == s[m + 1].key && DistinctKeys(s[..m + 1])
    ensures Smallest(r, Items(TieFirst(s, m)), m + 1) == Some(Items(s[..m] + [s[m + 1]]))
  {
    var le, head, kept := EntryOrder(r), [s[m + 1]] + s[..m], s[..m] + [s[m + 1]];
    var tail := [s[m]] + s[m + 2..];
    TieFirstElements(s, m);
    TieKeys(r, s, m);
    PartWellKeyed(r, s, head);
    PartWellKeyed(r, s, tail);
    ItemsConcat(head, tail);
    ItemsWellKeyed(r, head);
    hide EntryOrder, TotalOrder, Orders, DistinctKeys, WellKeyed, Items, Sorted, ConsiderAll, Sort;
    EntryOrderTotal(r);
    EmptyHolds(r, m + 1);
    assert [] + Items(head) == Items(head);
    ConsiderAllKeepsSmallest(r, Working([], 0), m + 1, [], Items(head));
    SortElements(le, head);
    SortSorted(le, head);
    SortedUnique(le, Sort(le, head), kept);
    var w := Working(kept, m + 1);
    assert SortAndTake(r, head, m + 1) == kept;
    assert ConsiderAll(r, Working([], 0), m + 1, Items(head)) == Some(w);
    ConsiderAllSplit(r, Working([], 0), m + 1, Items(head), Items(tail));
    TailPasses(r, w, m + 1, tail);
    SortElements(le, kept);
    SortSorted(le, kept);
    SortedUnique(le, Sort(le, kept), kept);
  }

  lemma EmptyHolds<K(!new), T(!new)>(r: Ranking<K, T>, count: nat)
    ensures HoldsSmallest(r, Working([], 0), count, Entries(r, []))
  {
  }

  lemma PartWellKeyed<K(!new), T(!new)>(r: Ranking<K, T>, s: seq<Entry<K, T>>, part: seq<Entry<K, T>>)
    requires WellKeyed(r, s) && forall e <- part :: e in s
    ensures WellKeyed(r, part)
  {
  }

  lemma TailPasses<K(!new), T(!new)>(r: Ranking<K, T>, w: Working<K, T>, count: nat, tail: seq<Entry<K, T>>)
    requires w.size == |w.entries| == count > 0 && WellKeyed(r, tail)
    requires forall e <- tail :: e.key == w.entries[count - 1].key || !r.keys(e.key, w.entries[count - 1].key)
    ensures ConsiderAll(r, w, count, Items(tail)) == Some(w)
  {
    var k := w.entries[count - 1].key;
    forall x | x in Items(tail) ensures r.rank(x) == k || !r.keys(r.rank(x), k) {
      var i :| 0 <= i < |tail| && Items(tail)[i] == x;
      ItemsAt(tail, i);
      assert tail[i] in tail;
    }
    ConsiderAllPasses(r, w, count, Items(tail));
  }

  lemma {:induction false} ItemsConcat<K, T>(a: seq<Entry<K, T>>, b: seq<Entry<K, T>>)
    ensures Items(a + b) == Items(a) + Items(b)
  {
    if a == [] {
      assert a + b == b;
    } else {
      assert (a + b)[1..] == a[1..] + b;
      ItemsConcat(a[1..], b);
    }
  }

  /** The selection from a listing is sorting it and taking the first `count` items. */
  ghost predicate Selects<K(!new), T(!new)>(r: Ranking<K, T>, listing: seq<T>, count: nat)
    requires count > 0
  {
    Smallest(r, listing, count) == Some(Items(SortAndTake(r, Entries(r, listing), count)))
  }

  /** When two items share a key, some listing and count are selected from otherwise. */
  lemma SharedKeyMisses<K(!new), T(!new)>(r: Ranking<K, T>, items: seq<T>) returns (listing: seq<T>, count: nat)
    requires Orders(r) && !DistinctKeys(Entries(r, items))
    ensures multiset(listing) == multiset(items) && count > 0 && !Selects(r, listing, count)
  {
    var le, es := EntryOrder(r), Entries(r, items);
    var s := Sort(le, es);
    EntryOrderTotal(r);
    SortElements(le, es);
    SortSorted(le, es);
    if DistinctKeys(s) {
      DistinctIsMultiset(s, es);
    }
    var m := FirstTie(r, s);
    hide Selects, Sort, EntryOrder, DistinctKeys, TotalOrder, Sorted;
    if s[m] == s[m + 1] {
      listing := TwiceMisses(r, items, s, m);
      count := 2;
    } else {
      listing := TieMisses(r, items, s, m);
      count := m + 1;
    }
  }

  lemma TwiceMisses<K(!new), T(!new)>(r: Ranking<K, T>, items: seq<T>, s: seq<Entry<K, T>>, m: nat)
    returns (listing: seq<T>)
    requires multiset(s) == multiset(Entries(r, items)) && m + 1 < |s| && s[m] == s[m + 1]
    ensures multiset(listing) == multiset(items) && !Selects(r, listing, 2)
  {
    var rest := s[..m] + s[m + 2..];
    TwiceElements(s, m);
    Relisted(r, items, [s[m], s[m]] + rest);
    ItemsConcat([s[m], s[m]], rest);
    listing := Items([s[m], s[m]] + rest);
    assert Items([s[m], s[m]]) == [s[m].item, s[m].item];
    TwiceFails(r, s[m].item, Items(rest));
  }

  lemma TieMisses<K(!new), T(!new)>(r: Ranking<K, T>, items: seq<T>, s: seq<Entry<K, T>>, m: nat)
    returns (listing: seq<T>)
    requires Orders(r) && s == Sort(EntryOrder(r), Entries(r, items)) && multiset(s) == multiset(Entries(r, items))
    requires Sorted(EntryOrder(r), s) && m + 1 < |s| && DistinctKeys(s[..m + 1])
    requires s[m].key == s[m + 1].key && s[m] != s[m + 1]
    ensures multiset(listing) == multiset(items) && !Selects(r, listing, m + 1)
  {
    Relisted(r, items, s);
    TieFirstElements(s, m);
    Relisted(r, items, TieFirst(s, m));
    listing := Items(TieFirst(s, m));
    TieFirstSelected(r, s, m);
    EntryOrderTotal(r);
    hide EntryOrder, Items, Smallest, Sort, Orders, TotalOrder, DistinctKeys, Sorted;
    SortOfPermutation(EntryOrder(r), TieFirst(s, m), Entries(r, items));
    assert SortAndTake(r, Entries(r, listing), m + 1) == s[..m + 1];
    ItemsAt(s[..m] + [s[m + 1]], m);
    ItemsAt(s[..m + 1], m);
    assert s[m].item != s[m + 1].item;
  }

  lemma TwiceElements<K, T>(s: seq<Entry<K, T>>, m: nat)
    requires m + 1 < |s| && s[m] == s[m + 1]
    ensures multiset([s[m], s[m]] + (s[..m] + s[m + 2..])) == multiset(s)
  {
    assert s == s[..m] + [s[m]] + [s[m + 1]] + s[m + 2..];
  }

  /** The selection is sorting and taking, for every order of listing the items and every count, if and
      only if their keys are pairwise distinct. */
  lemma SelectsExactly<K(!new), T(!new)>(r: Ranking<K, T>, items: seq<T>)
    requires Orders(r)
    ensures (forall listing: seq<T>, count: nat | multiset(listing) == multiset(items) && count > 0 ::
               Selects(r, listing, count))
        <==> DistinctKeys(Entries(r, items))
  {
    hide Selects, Orders, DistinctKeys;
    if DistinctKeys(Entries(r, items)) {
      forall listing: seq<T>, count: nat | multiset(listing) == multiset(items) && count > 0
        ensures Selects(r, listing, count)
      {
        DistinctListing(r, items, listing);
        SelectsDistinct(r, listing, count);
      }
    } else {
      var listing, count := SharedKeyMisses(r, items);
    }
  }

  lemma SelectsDistinct<K(!new), T(!new)>(r: Ranking<K, T>, listing: seq<T>, count: nat)
    requires Orders(r) && count > 0 && DistinctKeys(Entries(r, listing))
    ensures Selects(r, listing, count)
  {
    SmallestIsSortAndTake(r, listing, count);
  }

  lemma DistinctListing<K(!new), T(!new)>(r: Ranking<K, T>, items: seq<T>, listing: seq<T>)
    requires DistinctKeys(Entries(r, items)) && multiset(listing) == multiset(items)
    ensures multiset(Entries(r, listing)) == multiset(Entries(r, items)) && DistinctKeys(Entries(r, listing))
  {
    hide DistinctKeys;
    forall e ensures multiset(Entries(r, items))[e] == multiset(Entries(r, listing))[e] {
      EntriesElements(r, items, e);
      EntriesElements(r, listing, e);
    }
    assert multiset(Entries(r, items)) == multiset(Entries(r, listing));
    DistinctIsMultiset(Entries(r, items), Entries(r, listing));
  }
}

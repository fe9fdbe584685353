/** Ranked-retrieval metrics: nDCG over an arbitrary positive, nonincreasing discount. */
module Metrics {
  import opened Arithmetic
  import opened Sorting

  type Id = string

  /** Relevance judgements: the entries of the qrels map. */
  type Qrels = seq<(Id, int)>

  /** A map has each key once. */
  ghost predicate IsMap(qrels: Qrels) {
    forall i, j | 0 <= i < j < |qrels| :: qrels[i].0 != qrels[j].0
  }

  ghost predicate Distinct(ids: seq<Id>) {
    forall i, j | 0 <= i < j < |ids| :: ids[i] != ids[j]
  }

  /** `Map.get(qrels, id, 0)` */
  function Grade(qrels: Qrels, id: Id): int {
    if qrels == [] then 0
    else if qrels[0].0 == id then qrels[0].1
    else Grade(qrels[1..], id)
  }

  function Grades(qrels: Qrels, ids: seq<Id>): (gs: seq<int>)
    ensures |gs| == |ids|
  {
    if ids == [] then [] else [Grade(qrels, ids[0])] + Grades(qrels, ids[1..])
  }

  /** `Map.values(qrels)` */
  function Values(qrels: Qrels): (vs: seq<int>)
    ensures |vs| == |qrels|
  {
    if qrels == [] then [] else [qrels[0].1] + Values(qrels[1..])
  }

  function Take<T>(s: seq<T>, k: nat): seq<T> {
    if k <= |s| then s[..k] else s
  }

  function Clip(grade: int): nat {
    if grade > 0 then grade else 0
  }

  /** The exponential gain `2^max(grade, 0) - 1`. */
  function Gain(grade: int): (g: real)
    ensures g >= 0.0
  {
    (Pow2(Clip(grade)) - 1) as real
  }

  function Discounted(grade: int, weight: real): real {
    Gain(grade) * weight
  }

  /** The discounted gain of a list whose first entry has (zero-based) rank `rank`; `w(i)` stands for
      the discount 1/log2(i + 2). */
  function Dcg(w: nat -> real, grades: seq<int>, rank: nat): real {
    if grades == [] then 0.0 else Discounted(grades[0], w(rank)) + Dcg(w, grades[1..], rank + 1)
  }

  /** Positive and nonincreasing, as 1/log2(rank + 1) is. */
  ghost predicate Discount(w: nat -> real) {
    && (forall i: nat :: w(i) > 0.0)
    && (forall i: nat, j: nat | i < j :: w(j) <= w(i))
  }

  ghost predicate StrictDiscount(w: nat -> real) {
    Discount(w) && forall i: nat, j: nat | i < j :: w(j) < w(i)
  }

  predicate GradeOrder(a: int, b: int) {
    a >= b
  }

  /** The grades of the ideal ranking. */
  function Ideal(qrels: Qrels, k: nat): seq<int> {
    Take(Sort(GradeOrder, Values(qrels)), k)
  }

  function NdcgAt(w: nat -> real, ranked: seq<Id>, qrels: Qrels, k: nat): real {
    var dcg := Dcg(w, Grades(qrels, Take(ranked, k)), 0);
    var ideal := Dcg(w, Ideal(qrels, k), 0);
    if ideal == 0.0 then 0.0 else dcg / ideal
  }

  // ---------- Gains and discounts ----------

  lemma GainOrder(a: int, b: int)
    ensures Gain(a) <= Gain(b) <==> Clip(a) <= Clip(b)
    ensures Gain(a) > 0.0 <==> a > 0
  {
    if Clip(a) < Clip(b) {
      Pow2Grows(Clip(a), Clip(b));
    } else if Clip(b) < Clip(a) {
      Pow2Grows(Clip(b), Clip(a));
    }
    if a > 0 {
      Pow2Grows(0, a);
    }
  }

  lemma DiscountedOrder(a: int, b: int, u: real)
    requires u > 0.0
    ensures Discounted(a, u) >= 0.0
    ensures Discounted(a, u) > 0.0 <==> a > 0
    ensures Clip(a) <= Clip(b) ==> Discounted(a, u) <= Discounted(b, u)
    ensures Clip(a) < Clip(b) ==> Discounted(a, u) < Discounted(b, u)
  {
    GainOrder(a, b);
    GainOrder(b, a);
    Monotone(Gain(a), Gain(b), u);
    ProductPositive(Gain(a), u);
  }

  /** The larger grade belongs to the larger weight. */
  lemma Exchange(a: int, b: int, u: real, v: real)
    requires 0.0 < v <= u && Clip(a) <= Clip(b)
    ensures Discounted(a, u) + Discounted(b, v) <= Discounted(b, u) + Discounted(a, v)
    ensures Clip(a) < Clip(b) && v < u ==>
            Discounted(a, u) + Discounted(b, v) < Discounted(b, u) + Discounted(a, v)
  {
    GainOrder(a, b);
    GainOrder(b, a);
    CrossProducts(Gain(a), Gain(b), u, v);
  }

  lemma {:induction false} DcgNonnegative(w: nat -> real, gs: seq<int>, rank: nat)
    requires Discount(w)
    ensures Dcg(w, gs, rank) >= 0.0
  {
    hide Discounted;
    if gs != [] {
      DcgNonnegative(w, gs[1..], rank + 1);
      DiscountedOrder(gs[0], gs[0], w(rank));
    }
  }

  /** Changing one entry exchanges one term of the sum. */
  lemma {:induction false} DcgUpdate(w: nat -> real, gs: seq<int>, rank: nat, i: nat, g: int)
    requires i < |gs|
    ensures Dcg(w, gs[i := g], rank)
         == Dcg(w, gs, rank) + Discounted(g, w(rank + i)) - Discounted(gs[i], w(rank + i))
  {
    hide Discounted;
    if i == 0 {
      assert gs[0 := g][1..] == gs[1..];
    } else {
      assert gs[i := g][1..] == gs[1..][i - 1 := g];
      DcgUpdate(w, gs[1..], rank + 1, i - 1, g);
    }
  }

  // ---------- Positive grades ----------

  function Positive(gs: seq<int>): seq<int> {
    if gs == [] then []
    else (if gs[0] > 0 then [gs[0]] else []) + Positive(gs[1..])
  }

  lemma {:induction false} PositiveElements(gs: seq<int>, g: int)
    ensures multiset(Positive(gs))[g] == if g > 0 then multiset(gs)[g] else 0
  {
    if gs != [] {
      assert gs == [gs[0]] + gs[1..];
      PositiveElements(gs[1..], g);
    }
  }

  lemma {:induction false} ValuesAfterRemoval(qrels: Qrels, i: nat)
    requires i < |qrels|
    ensures multiset(Values(qrels)) == multiset(Values(qrels[..i] + qrels[i + 1..])) + multiset{qrels[i].1}
  {
    if i == 0 {
      assert qrels[..0] + qrels[1..] == qrels[1..];
    } else {
      var rest := qrels[..i] + qrels[i + 1..];
      assert rest[1..] == qrels[1..][..i - 1] + qrels[1..][i..];
      ValuesAfterRemoval(qrels[1..], i - 1);
    }
  }

  lemma {:induction false} GradeAt(qrels: Qrels, i: nat)
    requires IsMap(qrels) && i < |qrels|
    ensures Grade(qrels, qrels[i].0) == qrels[i].1
  {
    if i > 0 {
      GradeAt(qrels[1..], i - 1);
    }
  }

  lemma {:induction false} GradeMissing(qrels: Qrels, id: Id)
    requires forall i | 0 <= i < |qrels| :: qrels[i].0 != id
    ensures Grade(qrels, id) == 0
  {
    if qrels != [] {
      GradeMissing(qrels[1..], id);
    }
  }

  lemma {:induction false} GradeAfterRemoval(qrels: Qrels, i: nat, id: Id)
    requires i < |qrels| && qrels[i].0 != id
    ensures Grade(qrels[..i] + qrels[i + 1..], id) == Grade(qrels, id)
  {
    var rest := qrels[..i] + qrels[i + 1..];
    if i == 0 {
      assert rest == qrels[1..];
    } else {
      assert rest[1..] == qrels[1..][..i - 1] + qrels[1..][i..];
      GradeAfterRemoval(qrels[1..], i - 1, id);
    }
  }

  lemma {:induction false} GradesAfterRemoval(qrels: Qrels, i: nat, ids: seq<Id>)
    requires i < |qrels| && qrels[i].0 !in ids
    ensures Grades(qrels[..i] + qrels[i + 1..], ids) == Grades(qrels, ids)
  {
    if ids != [] {
      GradeAfterRemoval(qrels, i, ids[0]);
      GradesAfterRemoval(qrels, i, ids[1..]);
    }
  }

  lemma RemovalKeepsMap(qrels: Qrels, i: nat)
    requires IsMap(qrels) && i < |qrels|
    ensures IsMap(qrels[..i] + qrels[i + 1..])
  {
  }

  /** A ranking without repeated ids collects each judged grade at most once. */
  lemma {:induction false} DistinctIdsCollectOnce(qrels: Qrels, ids: seq<Id>)
    requires IsMap(qrels) && Distinct(ids)
    ensures multiset(Positive(Grades(qrels, ids))) <= multiset(Values(qrels))
    decreases |ids|
  {
    hide IsMap, Grade, Values;
    if ids != [] {
      var id := ids[0];
      assert id !in ids[1..];
      assert Grades(qrels, ids)[1..] == Grades(qrels, ids[1..]);
      if i :| 0 <= i < |qrels| && qrels[i].0 == id {
        var rest := qrels[..i] + qrels[i + 1..];
        RemovalKeepsMap(qrels, i);
        GradeAt(qrels, i);
        GradesAfterRemoval(qrels, i, ids[1..]);
        ValuesAfterRemoval(qrels, i);
        DistinctIdsCollectOnce(rest, ids[1..]);
      } else {
        GradeMissing(qrels, id);
        DistinctIdsCollectOnce(qrels, ids[1..]);
      }
    }
  }

  // ---------- Rearrangement ----------

  predicate Descending(s: seq<int>) {
    forall i, j | 0 <= i < j < |s| :: s[i] >= s[j]
  }

  /** The clipped grade at a position, zero beyond the end. */
  function GainAt(gs: seq<int>, i: nat): nat {
    if i < |gs| then Clip(gs[i]) else 0
  }

  /** The same clipped grades at the first k positions. */
  ghost predicate SameGrades(a: seq<int>, b: seq<int>, k: nat) {
    forall i: nat | i < k :: GainAt(a, i) == GainAt(b, i)
  }

  lemma {:induction false} SameGradesSameDcg(w: nat -> real, a: seq<int>, b: seq<int>, k: nat, rank: nat)
    requires |a| <= k && |b| <= k && SameGrades(a, b, k)
    ensures Dcg(w, a, rank) == Dcg(w, b, rank)
    decreases k
  {
    if k > 0 {
      var a', b' := if a == [] then [] else a[1..], if b == [] then [] else b[1..];
      forall i: nat | i < k - 1 ensures GainAt(a', i) == GainAt(b', i) {
        assert GainAt(a, i + 1) == GainAt(b, i + 1);
      }
      SameGradesSameDcg(w, a', b', k - 1, rank + 1);
      assert GainAt(a, 0) == GainAt(b, 0);
    }
  }

  lemma ZeroDcg(w: nat -> real, gs: seq<int>, k: nat, rank: nat)
    requires |gs| <= k && SameGrades(gs, [], k)
    ensures Dcg(w, gs, rank) == 0.0
  {
    SameGradesSameDcg(w, gs, [], k, rank);
  }

  /** A positive grade that the ranking collects is a judged one, so no larger than the largest. */
  lemma CollectedAtMostHead(gs: seq<int>, s: seq<int>, g: int)
    requires multiset(Positive(gs)) <= multiset(s) && Descending(s) && g in gs && g > 0
    ensures s != [] && g <= s[0] && g in s
  {
    PositiveElements(gs, g);
    assert multiset(gs)[g] > 0;
    assert g in multiset(s);
    var i :| 0 <= i < |s| && s[i] == g;
    assert i == 0 || s[0] >= s[i];
  }

  /** Removing the head of the ideal list and one collected occurrence of it. */
  lemma CollectAfterHead(gs: seq<int>, rest: seq<int>, s: seq<int>)
    requires s != [] && multiset(Positive(gs)) <= multiset(s)
    requires forall g | g > 0 :: multiset(rest)[g] <= multiset(gs)[g] - (if g == s[0] && s[0] in gs then 1 else 0)
    ensures multiset(Positive(rest)) <= multiset(s[1..])
  {
    TailElements(s);
    forall g ensures multiset(Positive(rest))[g] <= multiset(s[1..])[g] {
      PositiveElements(rest, g);
      PositiveElements(gs, g);
    }
  }

  lemma TakeCons<T>(s: seq<T>, k: nat)
    requires s != [] && k > 0
    ensures Take(s, k) == [s[0]] + Take(s[1..], k - 1)
  {
  }

  /** Moving the best judged grade to the head of a ranking does not lower the sum: what follows it
      then is `rest`.  Under a strict discount the sum stays the same only if nothing moved. */
  lemma BestFirst(w: nat -> real, gs: seq<int>, s: seq<int>, rank: nat) returns (rest: seq<int>)
    requires Discount(w) && gs != [] && Descending(s) && multiset(Positive(gs)) <= multiset(s)
    requires s != [] && s[0] > 0
    ensures |rest| == |gs| - 1 && multiset(Positive(rest)) <= multiset(s[1..])
    ensures Dcg(w, gs, rank) <= Discounted(s[0], w(rank)) + Dcg(w, rest, rank + 1)
    ensures StrictDiscount(w) && Dcg(w, gs, rank) == Discounted(s[0], w(rank)) + Dcg(w, rest, rank + 1) ==>
            gs[0] == s[0] && rest == gs[1..]
  {
    hide Discounted, Positive;
    var best := s[0];
    if gs[0] > 0 {
      CollectedAtMostHead(gs, s, gs[0]);
    }
    DiscountedOrder(gs[0], best, w(rank));
    if gs[0] == best || best !in gs[1..] {
      rest := gs[1..];
      HeadElements(gs);
      CollectAfterHead(gs, rest, s);
    } else {
      rest := SwapHead(w, gs, best, rank);
      CollectAfterHead(gs, rest, s);
    }
  }

  lemma HeadElements(gs: seq<int>)
    requires gs != []
    ensures forall g :: multiset(gs[1..])[g] == multiset(gs)[g] - (if g == gs[0] then 1 else 0)
  {
    TailElements(gs);
  }

  lemma SwapElements(gs: seq<int>, p: nat)
    requires gs != [] && p < |gs| - 1
    ensures var tail := gs[1..];
            forall g :: multiset(tail[p := gs[0]])[g] == multiset(gs)[g] - (if g == tail[p] then 1 else 0)
  {
    UpdateElements(gs[1..], p, gs[0]);
    HeadElements(gs);
  }

  lemma SwapHead(w: nat -> real, gs: seq<int>, best: int, rank: nat) returns (rest: seq<int>)
    requires Discount(w) && gs != [] && Clip(gs[0]) < Clip(best) && best in gs[1..]
    ensures |rest| == |gs| - 1
    ensures forall g :: multiset(rest)[g] == multiset(gs)[g] - (if g == best then 1 else 0)
    ensures Dcg(w, gs, rank) <= Discounted(best, w(rank)) + Dcg(w, rest, rank + 1)
    ensures StrictDiscount(w) ==> Dcg(w, gs, rank) < Discounted(best, w(rank)) + Dcg(w, rest, rank + 1)
  {
    hide Discounted;
    var tail := gs[1..];
    var p :| 0 <= p < |tail| && tail[p] == best;
    rest := tail[p := gs[0]];
    SwapElements(gs, p);
    DcgUpdate(w, tail, rank + 1, p, gs[0]);
    Exchange(gs[0], best, w(rank), w(rank + 1 + p));
  }

  /** Among all rankings of at most k ids that collect judged grades, the descending one has the
      largest discounted gain; under a strictly decreasing discount it is the only one, up to grades
      that earn nothing. */
  lemma {:induction false} DescendingIsBest(w: nat -> real, gs: seq<int>, s: seq<int>, k: nat, rank: nat)
    requires Discount(w) && |gs| <= k && Descending(s) && multiset(Positive(gs)) <= multiset(s)
    ensures Dcg(w, gs, rank) <= Dcg(w, Take(s, k), rank)
    ensures StrictDiscount(w) && Dcg(w, gs, rank) == Dcg(w, Take(s, k), rank) ==> SameGrades(gs, Take(s, k), k)
    decreases k
  {
    hide Discounted, Positive, SameGrades, Dcg, Take;
    if s == [] || s[0] <= 0 {
      NothingToGain(gs, s, k);
      ZeroDcg(w, gs, k, rank);
      ZeroDcg(w, Take(s, k), k, rank);
    } else if k == 0 {
      NothingTaken(gs, s);
    } else {
      IdealCons(w, s, k, rank);
      if gs != [] {
        var rest := BestFirst(w, gs, s, rank);
        DescendingIsBest(w, rest, s[1..], k - 1, rank + 1);
        if gs[0] == s[0] {
          SameGradesCons(gs, s, k);
        }
      }
    }
  }

  lemma IdealCons(w: nat -> real, s: seq<int>, k: nat, rank: nat)
    requires Discount(w) && s != [] && s[0] > 0 && k > 0
    ensures Dcg(w, Take(s, k), rank) == Discounted(s[0], w(rank)) + Dcg(w, Take(s[1..], k - 1), rank + 1)
    ensures Dcg(w, Take(s, k), rank) > 0.0 && Dcg(w, [], rank) == 0.0
  {
    hide Discounted;
    TakeCons(s, k);
    DcgNonnegative(w, Take(s[1..], k - 1), rank + 1);
    DiscountedOrder(s[0], s[0], w(rank));
  }

  lemma NothingTaken(gs: seq<int>, s: seq<int>)
    requires gs == []
    ensures gs == Take(s, 0) && SameGrades(gs, Take(s, 0), 0)
  {
  }

  lemma NothingToGain(gs: seq<int>, s: seq<int>, k: nat)
    requires Descending(s) && multiset(Positive(gs)) <= multiset(s)
    requires s == [] || s[0] <= 0
    ensures SameGrades(gs, [], k) && SameGrades(Take(s, k), [], k) && SameGrades(gs, Take(s, k), k)
    ensures |Take(s, k)| <= k
  {
    forall i: nat | i < |gs| ensures gs[i] <= 0 {
      if gs[i] > 0 {
        CollectedAtMostHead(gs, s, gs[i]);
      }
    }
    forall i: nat | i < |s| ensures s[i] <= 0 {
      assert i == 0 || s[0] >= s[i];
    }
  }

  lemma SameGradesCons(gs: seq<int>, s: seq<int>, k: nat)
    requires gs != [] && s != [] && k > 0 && gs[0] == s[0]
    ensures SameGrades(gs[1..], Take(s[1..], k - 1), k - 1) ==> SameGrades(gs, Take(s, k), k)
  {
    TakeCons(s, k);
    var t := Take(s[1..], k - 1);
    if SameGrades(gs[1..], t, k - 1) {
      forall i: nat | i < k ensures GainAt(gs, i) == GainAt(Take(s, k), i) {
        if i > 0 {
          assert GainAt(gs[1..], i - 1) == GainAt(t, i - 1);
        }
      }
    }
  }

  lemma UpdateElements(s: seq<int>, p: nat, x: int)
    requires p < |s|
    ensures multiset(s[p := x]) == multiset(s) - multiset{s[p]} + multiset{x}
  {
  }

  // ---------- nDCG ----------

  lemma GradeOrderTotal()
    ensures TotalOrder(GradeOrder)
  {
  }

  lemma SortedDescends(s: seq<int>)
    requires Sorted(GradeOrder, s)
    ensures Descending(s)
  {
    forall i, j | 0 <= i < j < |s| ensures s[i] >= s[j] {
      assert GradeOrder(s[i], s[j]);
    }
  }

  lemma DistinctTake(ids: seq<Id>, k: nat)
    requires Distinct(ids)
    ensures Distinct(Take(ids, k))
  {
  }

  /** For every qrels map, every cut-off and every ranking without repeated ids in its top k, nDCG lies
      in [0, 1];
      with a positive ideal gain and a strictly decreasing discount it is 1 exactly when the ranking
      has, at each of the first k positions, the grade of the ideal ranking (grades that earn nothing
      count as zero). */
  lemma NdcgBounds(w: nat -> real, ranked: seq<Id>, qrels: Qrels, k: nat)
    requires Discount(w) && IsMap(qrels) && Distinct(Take(ranked, k))
    ensures 0.0 <= NdcgAt(w, ranked, qrels, k) <= 1.0
    ensures SameGrades(Grades(qrels, Take(ranked, k)), Ideal(qrels, k), k) && Dcg(w, Ideal(qrels, k), 0) > 0.0 ==>
            NdcgAt(w, ranked, qrels, k) == 1.0
    ensures StrictDiscount(w) && NdcgAt(w, ranked, qrels, k) == 1.0 ==>
            SameGrades(Grades(qrels, Take(ranked, k)), Ideal(qrels, k), k)
  {
    var gs := Grades(qrels, Take(ranked, k));
    var s := Sort(GradeOrder, Values(qrels));
    GradeOrderTotal();
    SortSorted(GradeOrder, Values(qrels));
    SortElements(GradeOrder, Values(qrels));
    SortedDescends(s);
    DistinctIdsCollectOnce(qrels, Take(ranked, k));
    hide Grades, Dcg, Positive, Sort, Values;
    DescendingIsBest(w, gs, s, k, 0);
    DcgNonnegative(w, gs, 0);
    DcgNonnegative(w, Take(s, k), 0);
    Ratio(Dcg(w, gs, 0), Dcg(w, Take(s, k), 0));
    if SameGrades(gs, Take(s, k), k) {
      SameGradesSameDcg(w, gs, Take(s, k), k, 0);
    }
  }

  /** A ranking that lists the judged ids in descending grade has the ideal grades. */
  lemma DescendingRankingIsIdeal(w: nat -> real, ranked: seq<Id>, qrels: Qrels, k: nat)
    requires Discount(w) && IsMap(qrels) && Distinct(ranked)
    requires multiset(ranked) == multiset(Ids(qrels)) && Descending(Grades(qrels, ranked))
    ensures Grades(qrels, Take(ranked, k)) == Ideal(qrels, k)
    ensures Dcg(w, Ideal(qrels, k), 0) > 0.0 ==> NdcgAt(w, ranked, qrels, k) == 1.0
  {
    var gs, vs := Grades(qrels, ranked), Values(qrels);
    GradesOfIds(qrels, qrels, ranked);
    GradeOrderTotal();
    SortSorted(GradeOrder, vs);
    SortElements(GradeOrder, vs);
    SortedUnique(GradeOrder, gs, Sort(GradeOrder, vs));
    GradesOfTake(qrels, ranked, k);
    DistinctTake(ranked, k);
    NdcgBounds(w, ranked, qrels, k);
  }

  function Ids(qrels: Qrels): seq<Id> {
    if qrels == [] then [] else [qrels[0].0] + Ids(qrels[1..])
  }

  lemma {:induction false} GradesOfTake(qrels: Qrels, ids: seq<Id>, k: nat)
    ensures Grades(qrels, Take(ids, k)) == Take(Grades(qrels, ids), k)
  {
    if ids != [] && k > 0 {
      GradesOfTake(qrels, ids[1..], k - 1);
      assert Take(ids, k)[1..] == Take(ids[1..], k - 1);
    }
  }

  lemma CancelElement<T>(a: multiset<T>, b: multiset<T>, x: T)
    requires a + multiset{x} == multiset{x} + b
    ensures a == b
  {
    forall y ensures a[y] == b[y] {
      assert (a + multiset{x})[y] == (multiset{x} + b)[y];
    }
  }

  /** Listing the ids of some entries in any order collects the grades of these entries. */
  lemma {:induction false} GradesOfIds(qrels: Qrels, entries: Qrels, ids: seq<Id>)
    requires IsMap(qrels) && (forall e <- entries :: e in qrels) && multiset(ids) == multiset(Ids(entries))
    ensures multiset(Grades(qrels, ids)) == multiset(Values(entries))
    decreases |entries|
  {
    hide IsMap, Grades, Grade, Ids, Values;
    if entries == [] {
      NoEntries(qrels);
      assert |ids| == |multiset(ids)| == 0;
    } else {
      var (id, grade) := entries[0];
      EntriesCons(entries);
      assert id in multiset(ids);
      var i :| 0 <= i < |ids| && ids[i] == id;
      WithoutElement(ids, i);
      var rest := ids[..i] + ids[i + 1..];
      CancelElement(multiset(rest), multiset(Ids(entries[1..])), id);
      GradesOfIds(qrels, entries[1..], rest);
      assert entries[0] in qrels;
      EntryGrade(qrels, entries[0]);
      GradesWithout(qrels, ids, i);
    }
  }

  lemma EntriesCons(entries: Qrels)
    requires entries != []
    ensures multiset(Ids(entries)) == multiset{entries[0].0} + multiset(Ids(entries[1..]))
    ensures multiset(Values(entries)) == multiset{entries[0].1} + multiset(Values(entries[1..]))
  {
  }

  lemma NoEntries(qrels: Qrels)
    ensures Grades(qrels, []) == [] && Ids([]) == [] && Values([]) == []
  {
  }

  lemma WithoutElement<T>(s: seq<T>, i: nat)
    requires i < |s|
    ensures multiset(s) == multiset(s[..i] + s[i + 1..]) + multiset{s[i]}
  {
    assert s == s[..i] + [s[i]] + s[i + 1..];
  }

  lemma EntryGrade(qrels: Qrels, e: (Id, int))
    requires IsMap(qrels) && e in qrels
    ensures Grade(qrels, e.0) == e.1
  {
    var j :| 0 <= j < |qrels| && qrels[j] == e;
    GradeAt(qrels, j);
  }

  lemma {:induction false} GradesWithout(qrels: Qrels, ids: seq<Id>, i: nat)
    requires i < |ids|
    ensures multiset(Grades(qrels, ids))
         == multiset(Grades(qrels, ids[..i] + ids[i + 1..])) + multiset{Grade(qrels, ids[i])}
  {
    if i == 0 {
      assert ids[..0] + ids[1..] == ids[1..];
    } else {
      var rest := ids[..i] + ids[i + 1..];
      assert rest[1..] == ids[1..][..i - 1] + ids[1..][i..];
      GradesWithout(qrels, ids[1..], i - 1);
    }
  }

  // ---------- Rankings with repeated ids ----------

  /** Grade 1 for each listed id, once. */
  function UnitQrels(ids: seq<Id>): (qrels: Qrels)
    ensures |qrels| <= |ids|
  {
    if ids == [] then []
    else (if ids[0] in ids[1..] then [] else [(ids[0], 1)]) + UnitQrels(ids[1..])
  }

  lemma {:induction false} UnitQrelsHold(ids: seq<Id>)
    ensures IsMap(UnitQrels(ids))
    ensures forall e <- UnitQrels(ids) :: e.0 in ids && e.1 == 1
    ensures forall id <- ids :: (id, 1) in UnitQrels(ids)
    ensures |UnitQrels(ids)| == |ids| <==> Distinct(ids)
  {
    if ids != [] {
      var rest := ids[1..];
      assert ids == [ids[0]] + rest;
      UnitQrelsHold(rest);
      DistinctCons(ids[0], rest);
    }
  }

  lemma DistinctCons(id: Id, rest: seq<Id>)
    ensures Distinct([id] + rest) <==> id !in rest && Distinct(rest)
  {
    var ids := [id] + rest;
    if Distinct(ids) {
      forall i, j | 0 <= i < j < |rest| ensures rest[i] != rest[j] {
        assert ids[i + 1] != ids[j + 1];
      }
      forall j | 0 <= j < |rest| ensures rest[j] != id {
        assert ids[0] != ids[j + 1];
      }
    }
  }

  /** The grades 1, n times. */
  function Ones(n: nat): (gs: seq<int>)
    ensures |gs| == n
  {
    if n == 0 then [] else [1] + Ones(n - 1)
  }

  lemma {:induction false} GradesOfUnits(qrels: Qrels, ids: seq<Id>)
    requires IsMap(qrels) && forall id <- ids :: (id, 1) in qrels
    ensures Grades(qrels, ids) == Ones(|ids|)
  {
    if ids != [] {
      assert ids[0] in ids;
      EntryGrade(qrels, (ids[0], 1));
      GradesOfUnits(qrels, ids[1..]);
    }
  }

  lemma {:induction false} ValuesOfUnits(qrels: Qrels)
    requires forall e <- qrels :: e.1 == 1
    ensures Values(qrels) == Ones(|qrels|)
  {
    if qrels != [] {
      assert qrels[0] in qrels;
      ValuesOfUnits(qrels[1..]);
    }
  }

  lemma {:induction false} SortedOnes(n: nat)
    ensures Sort(GradeOrder, Ones(n)) == Ones(n)
  {
    if n > 0 {
      SortedOnes(n - 1);
    }
  }

  lemma {:induction false} MoreOnes(w: nat -> real, m: nat, n: nat, rank: nat)
    requires Discount(w) && m < n
    ensures Dcg(w, Ones(m), rank) < Dcg(w, Ones(n), rank)
    ensures m > 0 ==> Dcg(w, Ones(m), rank) > 0.0
    decreases m
  {
    hide Discounted;
    DiscountedOrder(1, 1, w(rank));
    if m == 0 {
      DcgNonnegative(w, Ones(n - 1), rank + 1);
    } else {
      DcgNonnegative(w, Ones(m - 1), rank + 1);
      MoreOnes(w, m - 1, n - 1, rank + 1);
    }
  }

  /** When the top k repeats an id, grading every listed id 1 makes nDCG exceed 1. */
  lemma RepeatExceedsNdcg(w: nat -> real, ranked: seq<Id>, k: nat)
    requires Discount(w) && !Distinct(Take(ranked, k))
    ensures var qrels := UnitQrels(Take(ranked, k));
            IsMap(qrels) && NdcgAt(w, ranked, qrels, k) > 1.0
  {
    var top := Take(ranked, k);
    var qrels := UnitQrels(top);
    UnitQrelsHold(top);
    GradesOfUnits(qrels, top);
    ValuesOfUnits(qrels);
    SortedOnes(|qrels|);
    assert top != [];
    assert qrels != [] by { assert (top[0], 1) in qrels; }
    MoreOnes(w, |qrels|, |top|, 0);
    ExceedsOne(Dcg(w, Ones(|top|), 0), Dcg(w, Ones(|qrels|), 0));
  }

  /** For every ranking and cut-off: nDCG is at most 1 under all relevance judgements if and only if the
      top k repeats no id. */
  lemma NdcgBoundedExactly(w: nat -> real, ranked: seq<Id>, k: nat)
    requires Discount(w)
    ensures (forall qrels: Qrels | IsMap(qrels) :: NdcgAt(w, ranked, qrels, k) <= 1.0) <==> Distinct(Take(ranked, k))
  {
    hide NdcgAt, IsMap;
    if Distinct(Take(ranked, k)) {
      forall qrels: Qrels | IsMap(qrels) ensures NdcgAt(w, ranked, qrels, k) <= 1.0 {
        NdcgBounds(w, ranked, qrels, k);
      }
    } else {
      RepeatExceedsNdcg(w, ranked, k);
    }
  }

  // ---------- What nDCG is ----------

  /** The exponential law: a grade that is not positive gains nothing, and each step up doubles the gain
      and adds one. */
  lemma GainLaw(grade: int)
    ensures grade <= 0 ==> Gain(grade) == 0.0
    ensures grade >= 0 ==> Gain(grade + 1) == 2.0 * Gain(grade) + 1.0
    ensures Gain(1) == 1.0 && Gain(2) == 3.0 && Gain(3) == 7.0
  {
    assert Pow2(0) == 1 && Pow2(1) == 2 && Pow2(2) == 4 && Pow2(3) == 8;
    if grade >= 0 {
      Pow2Next(grade);
    }
  }

  /** f(0) + ... + f(n - 1) */
  function IndexSum(f: nat -> real, n: nat): real {
    if n == 0 then 0.0 else IndexSum(f, n - 1) + f(n - 1)
  }

  /** The term of a position of a list of grades. */
  function Term(w: nat -> real, grades: seq<int>): nat -> real {
    (i: nat) => if i < |grades| then Gain(grades[i]) * w(i) else 0.0
  }

  lemma {:induction false} IndexSumSame(f: nat -> real, g: nat -> real, n: nat)
    requires forall i: nat | i < n :: f(i) == g(i)
    ensures IndexSum(f, n) == IndexSum(g, n)
  {
    if n > 0 {
      IndexSumSame(f, g, n - 1);
    }
  }

  lemma {:induction false} DcgSnoc(w: nat -> real, grades: seq<int>, g: int, rank: nat)
    ensures Dcg(w, grades + [g], rank) == Dcg(w, grades, rank) + Gain(g) * w(rank + |grades|)
    decreases |grades|
  {
    if grades == [] {
      assert grades + [g] == [g] && [g][1..] == [];
    } else {
      assert (grades + [g])[1..] == grades[1..] + [g];
      DcgSnoc(w, grades[1..], g, rank + 1);
    }
  }

  /** The recursive sum is the sum over positions. */
  lemma {:induction false} DcgIsIndexSum(w: nat -> real, grades: seq<int>)
    ensures Dcg(w, grades, 0) == IndexSum(Term(w, grades), |grades|)
    decreases |grades|
  {
    hide Dcg, IndexSum, Term, Gain;
    if grades == [] {
      NoTerms(w);
    } else {
      var n := |grades| - 1;
      var front := grades[..n];
      assert grades == front + [grades[n]];
      DcgIsIndexSum(w, front);
      DcgSnoc(w, front, grades[n], 0);
      TermsOfPrefix(w, front, grades);
      IndexSumSame(Term(w, front), Term(w, grades), n);
      IndexSumNext(Term(w, grades), n);
    }
  }

  lemma NoTerms(w: nat -> real)
    ensures Dcg(w, [], 0) == 0.0 && IndexSum(Term(w, []), 0) == 0.0
  {
  }

  lemma IndexSumNext(f: nat -> real, n: nat)
    ensures IndexSum(f, n + 1) == IndexSum(f, n) + f(n)
  {
  }

  lemma TermsOfPrefix(w: nat -> real, front: seq<int>, grades: seq<int>)
    requires front <= grades
    ensures forall i: nat | i < |front| :: Term(w, front)(i) == Term(w, grades)(i)
    ensures forall i: nat | i < |grades| :: Term(w, grades)(i) == Gain(grades[i]) * w(i)
  {
    hide Gain;
  }

  lemma {:induction false} GradesAt(qrels: Qrels, ids: seq<Id>, i: nat)
    requires i < |ids|
    ensures Grades(qrels, ids)[i] == Grade(qrels, ids[i])
  {
    if i > 0 {
      GradesAt(qrels, ids[1..], i - 1);
    }
  }

  lemma {:induction false} ValuesAt(qrels: Qrels)
    ensures Values(qrels) == seq(|qrels|, i requires 0 <= i < |qrels| => qrels[i].1)
  {
    if qrels != [] {
      ValuesAt(qrels[1..]);
    }
  }

  function Least(a: nat, b: nat): nat {
    if a < b then a else b
  }

  /** The term of a position of a ranking. */
  function RankingTerm(w: nat -> real, ranked: seq<Id>, qrels: Qrels): nat -> real {
    (i: nat) => if i < |ranked| then Gain(Grade(qrels, ranked[i])) * w(i) else 0.0
  }

  /** The discounted gain of the first k entries of a ranking is the sum over positions. */
  lemma RankingSum(w: nat -> real, ranked: seq<Id>, qrels: Qrels, k: nat)
    ensures Dcg(w, Grades(qrels, Take(ranked, k)), 0)
         == IndexSum(RankingTerm(w, ranked, qrels), Least(k, |ranked|))
  {
    hide Dcg, Gain;
    var gs := Grades(qrels, Take(ranked, k));
    DcgIsIndexSum(w, gs);
    forall i: nat | i < |gs| ensures Term(w, gs)(i) == RankingTerm(w, ranked, qrels)(i) {
      GradesAt(qrels, Take(ranked, k), i);
    }
    IndexSumSame(Term(w, gs), RankingTerm(w, ranked, qrels), |gs|);
  }

  lemma TakenSum(w: nat -> real, s: seq<int>, k: nat)
    ensures Dcg(w, Take(s, k), 0) == IndexSum(Term(w, s), Least(k, |s|))
  {
    hide Dcg;
    var best := Take(s, k);
    DcgIsIndexSum(w, best);
    TermsOfPrefix(w, best, s);
    IndexSumSame(Term(w, best), Term(w, s), |best|);
  }

  /** What nDCG is, for every ranking, repeated ids or not: `s` being the judged grades in descending order,
      it is the sum of gain times weight over the first k positions of the ranking, divided by the same
      sum for `s`; and zero when that sum is zero. */
  lemma NdcgIsQuotient(w: nat -> real, ranked: seq<Id>, qrels: Qrels, k: nat, s: seq<int>)
    requires Discount(w) && Descending(s)
    requires multiset(s) == multiset(seq(|qrels|, i requires 0 <= i < |qrels| => qrels[i].1))
    ensures var ranking := IndexSum(RankingTerm(w, ranked, qrels), Least(k, |ranked|));
            var ideal := IndexSum(Term(w, s), Least(k, |s|));
            && (ideal == 0.0 ==> NdcgAt(w, ranked, qrels, k) == 0.0)
            && (ideal != 0.0 ==> NdcgAt(w, ranked, qrels, k) * ideal == ranking)
  {
    hide NdcgAt, Dcg, IndexSum, RankingTerm, Term, Sort, Values, Grades, Descending;
    IdealIs(qrels, s);
    RankingSum(w, ranked, qrels, k);
    TakenSum(w, s, k);
    NdcgDivides(w, ranked, qrels, k);
  }

  lemma NdcgDivides(w: nat -> real, ranked: seq<Id>, qrels: Qrels, k: nat)
    requires Discount(w)
    ensures var x, y := Dcg(w, Grades(qrels, Take(ranked, k)), 0), Dcg(w, Ideal(qrels, k), 0);
            && (y == 0.0 ==> NdcgAt(w, ranked, qrels, k) == 0.0)
            && (y != 0.0 ==> NdcgAt(w, ranked, qrels, k) * y == x)
  {
    DcgNonnegative(w, Ideal(qrels, k), 0);
    hide Dcg, Ideal, Grades, Discount;
    var x, y := Dcg(w, Grades(qrels, Take(ranked, k)), 0), Dcg(w, Ideal(qrels, k), 0);
    if y > 0.0 {
      DivideMultiply(x, y);
    }
  }

  lemma IdealIs(qrels: Qrels, s: seq<int>)
    requires Descending(s)
    requires multiset(s) == multiset(seq(|qrels|, i requires 0 <= i < |qrels| => qrels[i].1))
    ensures Sort(GradeOrder, Values(qrels)) == s
  {
    ValuesAt(qrels);
    GradeOrderTotal();
    SortSorted(GradeOrder, Values(qrels));
    SortElements(GradeOrder, Values(qrels));
    SortedUnique(GradeOrder, s, Sort(GradeOrder, Values(qrels)));
  }

  /** Two judged documents of grades 2 and 1, listed the wrong way round: strictly between 0 and 1. */
  lemma TwoDocuments(w: nat -> real, ranked: seq<Id>, qrels: Qrels)
    requires Discount(w) && qrels == [("a", 2), ("b", 1)] && ranked == ["b", "a"]
    ensures NdcgAt(w, ranked, qrels, 2) * (3.0 * w(0) + w(1)) == w(0) + 3.0 * w(1)
  {
    var s := [2, 1];
    assert seq(|qrels|, i requires 0 <= i < |qrels| => qrels[i].1) == s;
    NdcgIsQuotient(w, ranked, qrels, 2, s);
    GainLaw(1);
    assert qrels[1..] == [("b", 1)];
    assert Grade(qrels, "a") == 2 && Grade(qrels, "b") == 1;
    TwoTerms(RankingTerm(w, ranked, qrels));
    TwoTerms(Term(w, s));
  }

  lemma TwoTerms(f: nat -> real)
    ensures IndexSum(f, 2) == f(0) + f(1)
  {
    assert IndexSum(f, 1) == f(0);
  }
}

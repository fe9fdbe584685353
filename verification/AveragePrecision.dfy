/** Recall and average precision over binary relevance. */
module AveragePrecision {
  import opened Arithmetic
  import opened Metrics

  /** The ids judged with a positive grade. */
  function RelevantIds(qrels: Qrels): set<Id> {
    set e | e in qrels && e.1 > 0 :: e.0
  }

  /** How many entries of a list are relevant. */
  function Count(relevant: set<Id>, ids: seq<Id>): (c: nat)
    ensures c <= |ids|
  {
    if ids == [] then 0 else (if ids[0] in relevant then 1 else 0) + Count(relevant, ids[1..])
  }

  function Over(n: nat, d: nat): real
    requires d > 0
  {
    n as real / d as real
  }

  /** The fold over `{id, rank}` pairs with its accumulator `{sum, hits}`. */
  function AccumulateMap(relevant: set<Id>, ids: seq<Id>, rank: nat, sum: real, hits: nat): (real, nat)
    requires rank > 0
    decreases |ids|
  {
    if ids == [] then (sum, hits)
    else if ids[0] in relevant then
      AccumulateMap(relevant, ids[1..], rank + 1, sum + Over(hits + 1, rank), hits + 1)
    else AccumulateMap(relevant, ids[1..], rank + 1, sum, hits)
  }

  function RecallAt(ranked: seq<Id>, qrels: Qrels, k: nat): real {
    var relevant := RelevantIds(qrels);
    if |relevant| == 0 then 0.0 else Over(Count(relevant, Take(ranked, k)), |relevant|)
  }

  function MapAt(ranked: seq<Id>, qrels: Qrels, k: nat): real {
    var relevant := RelevantIds(qrels);
    if |relevant| == 0 then 0.0
    else AccumulateMap(relevant, Take(ranked, k), 1, 0.0, 0).0 / |relevant| as real
  }

  // ---------- The precision sum ----------

  /** Precision at each relevant entry, summed; `hits` relevant entries came before rank `rank`. */
  function PrecisionSum(relevant: set<Id>, ids: seq<Id>, rank: nat, hits: nat): real
    requires rank > 0
    decreases |ids|
  {
    if ids == [] then 0.0
    else if ids[0] in relevant then
      Over(hits + 1, rank) + PrecisionSum(relevant, ids[1..], rank + 1, hits + 1)
    else PrecisionSum(relevant, ids[1..], rank + 1, hits)
  }

  lemma {:induction false} FoldIsSum(relevant: set<Id>, ids: seq<Id>, rank: nat, sum: real, hits: nat)
    requires rank > 0
    ensures AccumulateMap(relevant, ids, rank, sum, hits)
         == (sum + PrecisionSum(relevant, ids, rank, hits), hits + Count(relevant, ids))
    decreases |ids|
  {
    hide Over;
    if ids != [] {
      if ids[0] in relevant {
        FoldIsSum(relevant, ids[1..], rank + 1, sum + Over(hits + 1, rank), hits + 1);
      } else {
        FoldIsSum(relevant, ids[1..], rank + 1, sum, hits);
      }
    }
  }

  lemma OverBounds(n: nat, d: nat)
    requires d > 0
    ensures Over(n, d) >= 0.0
    ensures n <= d ==> Over(n, d) <= 1.0
    ensures n < d ==> Over(n, d) < 1.0
    ensures n == d ==> Over(n, d) == 1.0
    ensures n > 0 ==> Over(n, d) > 0.0
  {
  }

  ghost predicate LeadingRelevant(relevant: set<Id>, ids: seq<Id>, n: nat) {
    n <= |ids| && forall i | 0 <= i < n :: ids[i] in relevant
  }

  lemma LeadingCons(relevant: set<Id>, ids: seq<Id>, n: nat)
    requires ids != [] && ids[0] in relevant
    ensures LeadingRelevant(relevant, ids, n + 1) <==> LeadingRelevant(relevant, ids[1..], n)
  {
    if LeadingRelevant(relevant, ids, n + 1) {
      forall i | 0 <= i < n ensures ids[1..][i] in relevant {
        assert ids[i + 1] in relevant;
      }
    }
    if LeadingRelevant(relevant, ids[1..], n) {
      forall i | 0 <= i < n + 1 ensures ids[i] in relevant {
        assert i == 0 || ids[i] == ids[1..][i - 1];
      }
    }
  }

  /** Each precision is at most 1, and all of them are 1 only for a list that starts with its relevant
      entries. */
  lemma {:induction false} PrecisionBounds(relevant: set<Id>, ids: seq<Id>, rank: nat, hits: nat)
    requires hits < rank
    ensures 0.0 <= PrecisionSum(relevant, ids, rank, hits) <= Count(relevant, ids) as real
    ensures PrecisionSum(relevant, ids, rank, hits) == Count(relevant, ids) as real <==>
            Count(relevant, ids) == 0
            || (hits + 1 == rank && LeadingRelevant(relevant, ids, Count(relevant, ids)))
    decreases |ids|
  {
    hide Over, LeadingRelevant;
    if ids != [] {
      OverBounds(hits + 1, rank);
      if ids[0] in relevant {
        PrecisionBounds(relevant, ids[1..], rank + 1, hits + 1);
        LeadingCons(relevant, ids, Count(relevant, ids[1..]));
        NoneLeading(relevant, ids[1..]);
      } else {
        PrecisionBounds(relevant, ids[1..], rank + 1, hits);
        LeadingMissed(relevant, ids);
      }
    }
  }

  lemma NoneLeading(relevant: set<Id>, ids: seq<Id>)
    ensures LeadingRelevant(relevant, ids, 0)
  {
  }

  lemma LeadingMissed(relevant: set<Id>, ids: seq<Id>)
    requires ids != [] && ids[0] !in relevant
    ensures LeadingRelevant(relevant, ids, Count(relevant, ids)) ==> Count(relevant, ids) == 0
  {
    if LeadingRelevant(relevant, ids, Count(relevant, ids)) && Count(relevant, ids) > 0 {
      assert false;
    }
  }

  /** A longer prefix counts at least as much and sums at least as much. */
  lemma {:induction false} LongerPrefix(relevant: set<Id>, ids: seq<Id>, k: nat, m: nat, rank: nat, hits: nat)
    requires k <= m && hits < rank
    ensures Count(relevant, Take(ids, k)) <= Count(relevant, Take(ids, m))
    ensures PrecisionSum(relevant, Take(ids, k), rank, hits) <= PrecisionSum(relevant, Take(ids, m), rank, hits)
    decreases |ids|
  {
    hide Over;
    if ids == [] || k == 0 {
      PrecisionBounds(relevant, Take(ids, m), rank, hits);
      assert ids == [] ==> Take(ids, m) == Take(ids, k);
    } else {
      assert Take(ids, k)[1..] == Take(ids[1..], k - 1);
      assert Take(ids, m)[1..] == Take(ids[1..], m - 1);
      LongerPrefix(relevant, ids[1..], k - 1, m - 1, rank + 1, if ids[0] in relevant then hits + 1 else hits);
    }
  }

  // ---------- Counting a set ----------

  function Members(ids: seq<Id>): set<Id> {
    set i | i in ids
  }

  /** A list without repeats counts each relevant id once. */
  lemma {:induction false} CountIsIntersection(relevant: set<Id>, ids: seq<Id>)
    requires Distinct(ids)
    ensures Count(relevant, ids) == |Members(ids) * relevant|
  {
    if ids == [] {
      assert Members(ids) * relevant == {};
    } else {
      var rest := ids[1..];
      assert ids[0] !in rest;
      CountIsIntersection(relevant, rest);
      assert Members(ids) == {ids[0]} + Members(rest);
      IntersectionCons(ids[0], Members(rest), relevant);
    }
  }

  lemma IntersectionCons(id: Id, rest: set<Id>, relevant: set<Id>)
    requires id !in rest
    ensures |({id} + rest) * relevant| == |rest * relevant| + (if id in relevant then 1 else 0)
  {
    assert ({id} + rest) * relevant == (if id in relevant then {id} + rest * relevant else rest * relevant);
  }

  lemma SubsetSize(a: set<Id>, b: set<Id>)
    requires a <= b
    ensures |a| <= |b| && (|a| == |b| ==> a == b)
  {
    assert b == a + (b - a);
    assert |b| == |a| + |b - a|;
  }

  lemma {:induction false} CountAll(relevant: set<Id>, ids: seq<Id>)
    requires forall id <- ids :: id in relevant
    ensures Count(relevant, ids) == |ids|
  {
    if ids != [] {
      CountAll(relevant, ids[1..]);
    }
  }

  lemma {:induction false} CountSplit(relevant: set<Id>, ids: seq<Id>, n: nat)
    requires n <= |ids|
    ensures Count(relevant, ids) == Count(relevant, ids[..n]) + Count(relevant, ids[n..])
  {
    if n > 0 {
      CountSplit(relevant, ids[1..], n - 1);
      assert ids[..n][1..] == ids[1..][..n - 1] && ids[n..] == ids[1..][n - 1..];
    } else {
      assert ids[n..] == ids;
    }
  }

  lemma CountAtMost(relevant: set<Id>, ids: seq<Id>)
    requires Distinct(ids)
    ensures Count(relevant, ids) <= |relevant|
  {
    CountIsIntersection(relevant, ids);
    SubsetSize(Members(ids) * relevant, relevant);
  }

  /** The list starts with exactly the relevant ids. */
  ghost predicate StartsWithAll(relevant: set<Id>, ids: seq<Id>) {
    |relevant| <= |ids| && Members(ids[..|relevant|]) == relevant
  }

  lemma CompleteExactly(relevant: set<Id>, ids: seq<Id>)
    requires Distinct(ids)
    ensures Count(relevant, ids) == |relevant| && LeadingRelevant(relevant, ids, |relevant|) <==>
            StartsWithAll(relevant, ids)
  {
    var n := |relevant|;
    if n <= |ids| {
      var head := ids[..n];
      if LeadingRelevant(relevant, ids, n) {
        CountAll(relevant, head);
        CountIsIntersection(relevant, head);
        assert Members(head) * relevant == Members(head);
        SubsetSize(Members(head), relevant);
      }
      if StartsWithAll(relevant, ids) {
        forall i | 0 <= i < n ensures ids[i] in relevant {
          assert head[i] in Members(head);
        }
        CountAll(relevant, head);
        CountSplit(relevant, ids, n);
        CountAtMost(relevant, ids);
      }
    }
  }

  // ---------- Recall and average precision ----------

  lemma Divided(x: real, y: real, n: nat)
    requires n > 0 && 0.0 <= x <= y <= n as real
    ensures 0.0 <= x / n as real <= y / n as real <= 1.0
    ensures x / n as real == 1.0 <==> x == n as real
  {
    Ratio(x, n as real);
    Ratio(y, n as real);
    DivideOrder(x, y, n as real);
  }

  /** For rankings without repeated ids in the top k, 0 <= average precision <= recall <= 1, and average precision
      is 1 exactly when there is a relevant id and the first |relevant| entries of the top k are the
      relevant set. */
  lemma AveragePrecisionBounds(ranked: seq<Id>, qrels: Qrels, k: nat)
    requires Distinct(Take(ranked, k))
    ensures 0.0 <= MapAt(ranked, qrels, k) <= RecallAt(ranked, qrels, k) <= 1.0
    ensures MapAt(ranked, qrels, k) == 1.0 <==>
            RelevantIds(qrels) != {} && StartsWithAll(RelevantIds(qrels), Take(ranked, k))
  {
    hide LeadingRelevant, StartsWithAll, RelevantIds;
    var relevant, top := RelevantIds(qrels), Take(ranked, k);
    if |relevant| > 0 {
      FoldIsSum(relevant, top, 1, 0.0, 0);
      PrecisionBounds(relevant, top, 1, 0);
      CountAtMost(relevant, top);
      CompleteExactly(relevant, top);
      Divided(PrecisionSum(relevant, top, 1, 0), Count(relevant, top) as real, |relevant|);
    }
  }

  /** A deeper cut-off never lowers either measure, repeated ids or not. */
  lemma DeeperCutOff(ranked: seq<Id>, qrels: Qrels, k: nat, m: nat)
    requires k <= m
    ensures MapAt(ranked, qrels, k) <= MapAt(ranked, qrels, m)
    ensures RecallAt(ranked, qrels, k) <= RecallAt(ranked, qrels, m)
  {
    hide RelevantIds;
    var relevant := RelevantIds(qrels);
    if |relevant| > 0 {
      FoldIsSum(relevant, Take(ranked, k), 1, 0.0, 0);
      FoldIsSum(relevant, Take(ranked, m), 1, 0.0, 0);
      LongerPrefix(relevant, ranked, k, m, 1, 0);
      DivideOrder(PrecisionSum(relevant, Take(ranked, k), 1, 0), PrecisionSum(relevant, Take(ranked, m), 1, 0),
                  |relevant| as real);
      DivideOrder(Count(relevant, Take(ranked, k)) as real, Count(relevant, Take(ranked, m)) as real,
                  |relevant| as real);
    }
  }

  // ---------- Rankings with repeated ids ----------

  lemma {:induction false} MembersOfUnits(ids: seq<Id>)
    ensures RelevantIds(UnitQrels(ids)) == Members(ids)
    ensures |Members(ids)| == |UnitQrels(ids)|
  {
    UnitQrelsHold(ids);
    if ids == [] {
      assert Members(ids) == {};
    } else {
      var rest := ids[1..];
      MembersOfUnits(rest);
      assert Members(ids) == Members(rest) + {ids[0]};
      if ids[0] in rest {
        assert Members(ids) == Members(rest);
      } else {
        assert ids[0] !in Members(rest);
      }
    }
    forall id ensures id in RelevantIds(UnitQrels(ids)) <==> id in Members(ids) {
      assert id in ids ==> (id, 1) in UnitQrels(ids);
    }
  }

  /** When the top k repeats an id, grading every listed id 1 makes both measures exceed 1, alike. */
  lemma RepeatExceeds(ranked: seq<Id>, k: nat)
    requires !Distinct(Take(ranked, k))
    ensures var qrels := UnitQrels(Take(ranked, k));
            IsMap(qrels) && RecallAt(ranked, qrels, k) == MapAt(ranked, qrels, k) > 1.0
  {
    hide LeadingRelevant, RelevantIds, UnitQrels;
    var top := Take(ranked, k);
    var relevant := RelevantIds(UnitQrels(top));
    UnitQrelsHold(top);
    MembersOfUnits(top);
    assert top != [] && top[0] in relevant;
    CountAll(relevant, top);
    AllLeading(relevant, top);
    FoldIsSum(relevant, top, 1, 0.0, 0);
    PrecisionBounds(relevant, top, 1, 0);
    ExceedsOne(|top| as real, |relevant| as real);
  }

  lemma AllLeading(relevant: set<Id>, ids: seq<Id>)
    requires forall id <- ids :: id in relevant
    ensures LeadingRelevant(relevant, ids, |ids|)
  {
  }

  /** For every ranking and cut-off: recall is at most 1 under all relevance judgements if and only if the
      top k repeats no id; and so is average precision. */
  lemma BoundedExactly(ranked: seq<Id>, k: nat)
    ensures (forall qrels: Qrels | IsMap(qrels) :: RecallAt(ranked, qrels, k) <= 1.0) <==> Distinct(Take(ranked, k))
    ensures (forall qrels: Qrels | IsMap(qrels) :: MapAt(ranked, qrels, k) <= 1.0) <==> Distinct(Take(ranked, k))
  {
    hide RecallAt, MapAt, IsMap;
    if Distinct(Take(ranked, k)) {
      forall qrels: Qrels ensures MapAt(ranked, qrels, k) <= 1.0 && RecallAt(ranked, qrels, k) <= 1.0 {
        AveragePrecisionBounds(ranked, qrels, k);
      }
    } else {
      RepeatExceeds(ranked, k);
    }
  }

  /** A ranking that repeats an id can leave the unit interval. */
  lemma RepeatedIdsExceedOne()
    ensures var qrels, ranked := [("a", 1)], ["a", "a"];
            IsMap(qrels) && RecallAt(ranked, qrels, 2) == 2.0 && MapAt(ranked, qrels, 2) == 2.0
  {
    var qrels: Qrels, ranked: seq<Id> := [("a", 1)], ["a", "a"];
    assert RelevantIds(qrels) == {"a"} by {
      assert qrels[0] in qrels;
    }
    assert Take(ranked, 2) == ranked && ranked[1..] == ["a"];
    FoldIsSum({"a"}, ranked, 1, 0.0, 0);
    OverBounds(1, 1);
    OverBounds(2, 2);
    assert Count({"a"}, ["a"]) == 1;
    assert PrecisionSum({"a"}, ["a"], 2, 1) == 1.0;
  }

  // ---------- What recall and average precision are ----------

  /** An id is relevant exactly if its grade is positive. */
  lemma RelevantExactly(qrels: Qrels, id: Id)
    requires IsMap(qrels)
    ensures id in RelevantIds(qrels) <==> Grade(qrels, id) > 0
  {
    if i :| 0 <= i < |qrels| && qrels[i].0 == id {
      GradeAt(qrels, i);
      assert qrels[i] in qrels;
    } else {
      GradeMissing(qrels, id);
    }
  }

  /** The positions of relevant ids. */
  function Hits(relevant: set<Id>, ids: seq<Id>): set<nat> {
    set i: nat | i < |ids| && ids[i] in relevant
  }

  lemma {:induction false} CountIsHits(relevant: set<Id>, ids: seq<Id>)
    ensures Count(relevant, ids) == |Hits(relevant, ids)|
    decreases |ids|
  {
    hide Count;
    if ids == [] {
      NothingCounted(relevant);
    } else {
      var n := |ids| - 1;
      var front := ids[..n];
      assert ids == front + [ids[n]];
      CountIsHits(relevant, front);
      CountSnoc(relevant, front, ids[n]);
      assert Hits(relevant, ids) == Hits(relevant, front) + if ids[n] in relevant then {n} else {};
    }
  }

  lemma NothingCounted(relevant: set<Id>)
    ensures Count(relevant, []) == 0 && Hits(relevant, []) == {}
  {
  }

  /** Recall is the number of hits among the first k, repeated ids or not, divided by the number of
      relevant ids, and zero without one. */
  lemma RecallIsShare(ranked: seq<Id>, qrels: Qrels, k: nat)
    ensures var relevant := RelevantIds(qrels);
            && (relevant == {} ==> RecallAt(ranked, qrels, k) == 0.0)
            && (relevant != {} ==>
                  RecallAt(ranked, qrels, k) * |relevant| as real == |Hits(relevant, Take(ranked, k))| as real)
  {
    hide RelevantIds, Count, Hits;
    var relevant, top := RelevantIds(qrels), Take(ranked, k);
    CountIsHits(relevant, top);
    if relevant != {} {
      DivideMultiply(Count(relevant, top) as real, |relevant| as real);
    }
  }

  /** The precision at a position: how many of the first i + 1 entries are relevant, of i + 1. */
  function PrecisionAt(relevant: set<Id>, ids: seq<Id>): nat -> real {
    (i: nat) => if i < |ids| && ids[i] in relevant then Over(Count(relevant, ids[..i + 1]), i + 1) else 0.0
  }

  lemma {:induction false} CountSnoc(relevant: set<Id>, ids: seq<Id>, id: Id)
    ensures Count(relevant, ids + [id]) == Count(relevant, ids) + (if id in relevant then 1 else 0)
  {
    CountSplit(relevant, ids + [id], |ids|);
    assert (ids + [id])[..|ids|] == ids && (ids + [id])[|ids|..] == [id];
  }

  lemma {:induction false} PrecisionSumSnoc(relevant: set<Id>, ids: seq<Id>, id: Id, rank: nat, hits: nat)
    requires rank > 0
    ensures PrecisionSum(relevant, ids + [id], rank, hits)
         == PrecisionSum(relevant, ids, rank, hits)
          + (if id in relevant then Over(hits + Count(relevant, ids) + 1, rank + |ids|) else 0.0)
    decreases |ids|
  {
    hide Over;
    if ids == [] {
      assert ids + [id] == [id] && [id][1..] == [];
    } else {
      assert (ids + [id])[1..] == ids[1..] + [id];
      PrecisionSumSnoc(relevant, ids[1..], id, rank + 1, if ids[0] in relevant then hits + 1 else hits);
    }
  }

  lemma {:induction false} PrecisionSumIsIndexSum(relevant: set<Id>, ids: seq<Id>)
    ensures PrecisionSum(relevant, ids, 1, 0) == IndexSum(PrecisionAt(relevant, ids), |ids|)
    decreases |ids|
  {
    hide Over;
    if ids != [] {
      var n := |ids| - 1;
      var front := ids[..n];
      assert ids == front + [ids[n]] && ids[..n + 1] == ids;
      PrecisionSumIsIndexSum(relevant, front);
      PrecisionSumSnoc(relevant, front, ids[n], 1, 0);
      CountSnoc(relevant, front, ids[n]);
      forall i: nat | i < n ensures PrecisionAt(relevant, front)(i) == PrecisionAt(relevant, ids)(i) {
        assert front[..i + 1] == ids[..i + 1];
      }
      IndexSumSame(PrecisionAt(relevant, front), PrecisionAt(relevant, ids), n);
    }
  }

  /** The share of hits among the first i + 1 entries, where entry i is relevant. */
  function ShareAt(relevant: set<Id>, ids: seq<Id>): nat -> real {
    (i: nat) => if i < |ids| && ids[i] in relevant then |Hits(relevant, ids[..i + 1])| as real / (i + 1) as real
                else 0.0
  }

  lemma PrecisionIsShare(relevant: set<Id>, ids: seq<Id>, i: nat)
    requires i < |ids|
    ensures PrecisionAt(relevant, ids)(i) == ShareAt(relevant, ids)(i)
  {
    hide Count, Hits;
    CountIsHits(relevant, ids[..i + 1]);
  }

  lemma SharesArePrecisions(relevant: set<Id>, ids: seq<Id>)
    ensures IndexSum(PrecisionAt(relevant, ids), |ids|) == IndexSum(ShareAt(relevant, ids), |ids|)
  {
    forall i: nat | i < |ids| ensures PrecisionAt(relevant, ids)(i) == ShareAt(relevant, ids)(i) {
      PrecisionIsShare(relevant, ids, i);
    }
    hide PrecisionAt, ShareAt;
    IndexSumSame(PrecisionAt(relevant, ids), ShareAt(relevant, ids), |ids|);
  }

  /** Average precision is the share of hits up to each hit of the first k, summed over positions and
      divided by the number of relevant ids; zero without one. */
  lemma AveragePrecisionIs(ranked: seq<Id>, qrels: Qrels, k: nat)
    ensures var relevant, top := RelevantIds(qrels), Take(ranked, k);
            && (relevant == {} ==> MapAt(ranked, qrels, k) == 0.0)
            && (relevant != {} ==>
                  MapAt(ranked, qrels, k) * |relevant| as real == IndexSum(ShareAt(relevant, top), |top|))
  {
    hide RelevantIds, PrecisionAt, ShareAt, PrecisionSum, IndexSum;
    var relevant, top := RelevantIds(qrels), Take(ranked, k);
    if relevant != {} {
      FoldIsSum(relevant, top, 1, 0.0, 0);
      PrecisionSumIsIndexSum(relevant, top);
      SharesArePrecisions(relevant, top);
      DivideMultiply(PrecisionSum(relevant, top, 1, 0), |relevant| as real);
    }
  }
}

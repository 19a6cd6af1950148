/**
 Pairwise scoring of a clustering against gold labels (scripts/run_news_eval.py and
 scripts/run_title_clustering_eval.py), with exact rationals for the scores.
 */
module PairScores {
  import opened Options
  import opened Lists

  type Pair = (int, int)

  // ----- the set of pairs with equal labels -----

  function LabelOf<L>(labels: map<int, Option<L>>, id: int): Option<L> {
    if id in labels then labels[id] else None
  }

  predicate SameLabel<L(==)>(labels: map<int, Option<L>>, a: int, b: int) {
    LabelOf(labels, a).Some? && LabelOf(labels, a) == LabelOf(labels, b)
  }

  /** The pairs of ids, smaller first, that have the same label. */
  ghost function PairSet<L>(ids: set<int>, labels: map<int, Option<L>>): set<Pair> {
    set a, b | a in ids && b in ids && a < b && SameLabel(labels, a, b) :: (a, b)
  }

  predicate Ascending(xs: seq<int>) {
    forall i, j | 0 <= i < j < |xs| :: xs[i] <= xs[j]
  }

  function InsertInt(xs: seq<int>, x: int): (r: seq<int>)
    ensures multiset(r) == multiset(xs) + multiset{x}
  {
    if xs == [] then [x]
    else if x <= xs[0] then [x] + xs
    else
      assert xs == [xs[0]] + xs[1..];
      [xs[0]] + InsertInt(xs[1..], x)
  }

  lemma {:induction false} InsertAscending(xs: seq<int>, x: int)
    requires Ascending(xs)
    ensures Ascending(InsertInt(xs, x))
  {
    if xs != [] && x > xs[0] {
      var rest := InsertInt(xs[1..], x);
      InsertAscending(xs[1..], x);
      forall i | 0 <= i < |rest| ensures xs[0] <= rest[i] {
        assert rest[i] in multiset(rest);
        assert rest[i] in xs[1..] || rest[i] == x;
      }
    }
  }

  function SortInts(xs: seq<int>): (r: seq<int>)
    ensures Ascending(r) && multiset(r) == multiset(xs)
  {
    if xs == [] then []
    else
      assert xs == [xs[0]] + xs[1..];
      InsertAscending(SortInts(xs[1..]), xs[0]);
      InsertInt(SortInts(xs[1..]), xs[0])
  }

  lemma CountedTwice(s: seq<int>, i: nat, j: nat)
    requires i < j < |s| && s[i] == s[j]
    ensures multiset(s)[s[j]] >= 2
  {
    assert s == s[..j] + s[j..];
    assert s[i] in s[..j] && s[j] in s[j..];
  }

  lemma {:induction false} MultiplicityOne(xs: seq<int>)
    requires Distinct(xs)
    ensures forall x :: multiset(xs)[x] <= 1
  {
    if xs != [] {
      MultiplicityOne(xs[1..]);
      assert xs == [xs[0]] + xs[1..];
      assert xs[0] !in xs[1..];
    }
  }

  /** `_pairwise_sets`: the two nested loops over the sorted ids. */
  method PairwiseSets<L(==)>(itemIds: seq<int>, labels: map<int, Option<L>>) returns (pairs: set<Pair>)
    ensures pairs == PairSet(SetOf(itemIds), labels) + RepeatedPairs(itemIds, labels)
    ensures Distinct(itemIds) ==> pairs == PairSet(SetOf(itemIds), labels)
  {
    hide Distinct, PairSet, SetOf, SortInts, RepeatedPairs, SameLabel, PairedBefore, PairedWith;
    var s := SortInts(itemIds);
    pairs := {};
    NoneYet(s, labels);
    for i := 0 to |s|
      invariant forall p :: p in pairs <==> PairedBefore(s, labels, i, p)
    {
      NoPartnerYet(s, labels, i, i + 1);
      for j := i + 1 to |s|
        invariant forall p :: p in pairs <==> PairedBefore(s, labels, i, p) || PairedWith(s, labels, i, j, p)
      {
        NextPartner(s, labels, i, j);
        if SameLabel(labels, s[i], s[j]) {
          pairs := pairs + {(s[i], s[j])};
        }
      }
      NextLeft(s, labels, i);
    }
    PairsOfSorted(itemIds, labels, pairs);
    if Distinct(itemIds) {
      NoRepeatedPairs(itemIds, labels);
    }
  }

  /** The pair is found with its first id among the first `i`. */
  ghost predicate PairedBefore<L>(s: seq<int>, labels: map<int, Option<L>>, i: nat, p: Pair)
    requires i <= |s|
  {
    exists k | 0 <= k < i :: PairedWith(s, labels, k, |s|, p)
  }

  /** The pair is found with the `i`-th id and one behind it, before the `j`-th. */
  ghost predicate PairedWith<L>(s: seq<int>, labels: map<int, Option<L>>, i: nat, j: nat, p: Pair)
    requires i < j <= |s|
  {
    exists l | i < l < j :: p == (s[i], s[l]) && SameLabel(labels, s[i], s[l])
  }

  lemma NoneYet<L>(s: seq<int>, labels: map<int, Option<L>>)
    ensures forall p :: !PairedBefore(s, labels, 0, p)
  {
  }

  lemma NoPartnerYet<L>(s: seq<int>, labels: map<int, Option<L>>, i: nat, j: nat)
    requires i < j <= |s| && j == i + 1
    ensures forall p :: !PairedWith(s, labels, i, j, p)
  {
  }

  lemma NextPartner<L>(s: seq<int>, labels: map<int, Option<L>>, i: nat, j: nat)
    requires i < j < |s|
    ensures forall p :: PairedWith(s, labels, i, j + 1, p) <==>
                          PairedWith(s, labels, i, j, p) || (p == (s[i], s[j]) && SameLabel(labels, s[i], s[j]))
  {
    hide SameLabel;
  }

  lemma NextLeft<L>(s: seq<int>, labels: map<int, Option<L>>, i: nat)
    requires i < |s|
    ensures forall p :: PairedBefore(s, labels, i + 1, p) <==>
                          PairedBefore(s, labels, i, p) || PairedWith(s, labels, i, |s|, p)
  {
    hide PairedWith;
  }

  /** An id that occurs twice, and has a label, is paired with itself. */
  ghost function RepeatedPairs<L>(itemIds: seq<int>, labels: map<int, Option<L>>): set<Pair> {
    set x | x in itemIds && multiset(itemIds)[x] >= 2 && LabelOf(labels, x).Some? :: (x, x)
  }

  lemma NoRepeatedPairs<L>(itemIds: seq<int>, labels: map<int, Option<L>>)
    requires Distinct(itemIds)
    ensures RepeatedPairs(itemIds, labels) == {}
  {
    MultiplicityOne(itemIds);
  }

  lemma PairsOfSorted<L>(itemIds: seq<int>, labels: map<int, Option<L>>, pairs: set<Pair>)
    requires var s := SortInts(itemIds); forall p :: p in pairs <==> PairedBefore(s, labels, |s|, p)
    ensures pairs == PairSet(SetOf(itemIds), labels) + RepeatedPairs(itemIds, labels)
  {
    hide SortInts, PairSet, SetOf, RepeatedPairs, PairedBefore;
    var all := PairSet(SetOf(itemIds), labels) + RepeatedPairs(itemIds, labels);
    forall p ensures p in pairs <==> p in all {
      PairOfSorted(itemIds, labels, p);
    }
  }

  lemma PairOfSorted<L>(itemIds: seq<int>, labels: map<int, Option<L>>, p: Pair)
    ensures var s := SortInts(itemIds);
            PairedBefore(s, labels, |s|, p) <==> p in PairSet(SetOf(itemIds), labels) + RepeatedPairs(itemIds, labels)
  {
    hide SortInts, PairSet, SetOf, RepeatedPairs, SameLabel;
    var s := SortInts(itemIds);
    if PairedBefore(s, labels, |s|, p) {
      var k :| 0 <= k < |s| && PairedWith(s, labels, k, |s|, p);
      var l :| k < l < |s| && p == (s[k], s[l]) && SameLabel(labels, s[k], s[l]);
      PlacesGivePair(itemIds, labels, k, l);
    }
    if p in PairSet(SetOf(itemIds), labels) + RepeatedPairs(itemIds, labels) {
      var k, l := PlacesOfPair(itemIds, labels, p);
      assert PairedWith(s, labels, k, |s|, p);
    }
  }

  lemma PlacesGivePair<L>(itemIds: seq<int>, labels: map<int, Option<L>>, k: nat, l: nat)
    requires k < l < |SortInts(itemIds)| && SameLabel(labels, SortInts(itemIds)[k], SortInts(itemIds)[l])
    ensures var s := SortInts(itemIds); (s[k], s[l]) in PairSet(SetOf(itemIds), labels) + RepeatedPairs(itemIds, labels)
  {
    var s := SortInts(itemIds);
    assert s[k] in multiset(s) && s[l] in multiset(s);
    hide SortInts;
    assert s[k] in itemIds && s[l] in itemIds;
    if s[k] == s[l] {
      CountedTwice(s, k, l);
    }
  }

  lemma PlacesOfPair<L>(itemIds: seq<int>, labels: map<int, Option<L>>, p: Pair) returns (k: nat, l: nat)
    requires p in PairSet(SetOf(itemIds), labels) + RepeatedPairs(itemIds, labels)
    ensures var s := SortInts(itemIds); k < l < |s| && p == (s[k], s[l]) && SameLabel(labels, p.0, p.1)
  {
    hide SortInts;
    var s := SortInts(itemIds);
    if p.0 == p.1 {
      k, l := TwoPlaces(s, p.0);
    } else {
      assert p.0 in multiset(itemIds) && p.1 in multiset(itemIds);
      assert p.0 in s && p.1 in s;
      k :| k < |s| && s[k] == p.0;
      l :| l < |s| && s[l] == p.1;
    }
  }

  lemma TwoPlaces(s: seq<int>, x: int) returns (k: nat, l: nat)
    requires multiset(s)[x] >= 2
    ensures k < l < |s| && s[k] == s[l] == x
  {
    assert x in s;
    k :| k < |s| && s[k] == x;
    var rest := s[..k] + s[k + 1..];
    assert s == s[..k] + [x] + s[k + 1..];
    assert multiset(rest)[x] >= 1 && x in rest;
    var m :| 0 <= m < |rest| && rest[m] == x;
    if m < k {
      k, l := m, k;
    } else {
      l := m + 1;
    }
  }

  // ----- counting pairs -----

  /** All pairs within a set of ids. */
  ghost function PairsWithin(ids: set<int>): set<Pair> {
    set a, b | a in ids && b in ids && a < b :: (a, b)
  }

  function Ordered(a: int, b: int): Pair {
    if a < b then (a, b) else (b, a)
  }

  /** The pairs of `x` with each of `ids`. */
  ghost function Star(ids: set<int>, x: int): set<Pair> {
    set a | a in ids :: Ordered(a, x)
  }

  lemma {:induction false} StarCount(ids: seq<int>, x: int)
    requires Distinct(ids) && x !in ids
    ensures |Star(SetOf(ids), x)| == |ids|
  {
    if ids == [] {
      assert Star(SetOf(ids), x) == {};
    } else {
      var a, rest := ids[0], ids[1..];
      StarCount(rest, x);
      assert ids == [a] + rest && a !in rest;
      assert Star(SetOf(ids), x) == Star(SetOf(rest), x) + {Ordered(a, x)};
      assert Ordered(a, x) !in Star(SetOf(rest), x);
    }
  }

  /** n ids have n(n-1)/2 pairs. */
  lemma {:induction false} PairsWithinCount(ids: seq<int>)
    requires Distinct(ids)
    ensures 2 * |PairsWithin(SetOf(ids))| == |ids| * (|ids| - 1)
  {
    if ids == [] {
      assert PairsWithin(SetOf(ids)) == {};
    } else {
      var x, rest := ids[0], ids[1..];
      PairsWithinCount(rest);
      StarCount(rest, x);
      assert ids == [x] + rest && x !in rest;
      assert SetOf(ids) == SetOf(rest) + {x};
      assert x !in SetOf(rest);
      hide PairsWithin, Star, SetOf, Distinct;
      OneMore(SetOf(rest), x);
      Triangle(|rest|, |ids|);
    }
  }

  lemma OneMore(ids: set<int>, x: int)
    requires x !in ids
    ensures |PairsWithin(ids + {x})| == |PairsWithin(ids)| + |Star(ids, x)|
  {
    PairsSplit(ids, x);
    hide PairsWithin, Star;
  }

  lemma Triangle(n: nat, m: nat)
    requires m == n + 1
    ensures m * (m - 1) == n * (n - 1) + 2 * n
  {
  }

  lemma PairsSplit(ids: set<int>, x: int)
    requires x !in ids
    ensures PairsWithin(ids + {x}) == PairsWithin(ids) + Star(ids, x) && PairsWithin(ids) !! Star(ids, x)
  {
    forall a, b | a in ids + {x} && b in ids + {x} && a < b && (a == x || b == x) ensures (a, b) in Star(ids, x) {
      var other := if a == x then b else a;
      assert other in ids && Ordered(other, x) == (a, b);
    }
  }

  /** The number of pairs in each cluster, summed over the clusters, and the number of items. */
  function ClosedForm(sizes: seq<nat>): (r: (nat, nat)) {
    if sizes == [] then (0, 0)
    else
      var (pairs, count) := ClosedForm(sizes[..|sizes| - 1]);
      var n := sizes[|sizes| - 1];
      (pairs + if n >= 2 then n * (n - 1) / 2 else 0, count + n)
  }

  method PairwisePositiveCount(clusters: seq<seq<int>>) returns (positivePairs: nat, itemCount: nat)
    ensures (positivePairs, itemCount) == ClosedForm(Sizes(clusters))
  {
    positivePairs, itemCount := 0, 0;
    for i := 0 to |clusters|
      invariant (positivePairs, itemCount) == ClosedForm(Sizes(clusters[..i]))
    {
      assert Sizes(clusters[..i + 1]) == Sizes(clusters[..i]) + [|clusters[i]|];
      var clusterSize := |clusters[i]|;
      itemCount := itemCount + clusterSize;
      if clusterSize >= 2 {
        positivePairs := positivePairs + clusterSize * (clusterSize - 1) / 2;
      }
    }
    assert clusters[..|clusters|] == clusters;
  }

  function Sizes(clusters: seq<seq<int>>): (r: seq<nat>)
    ensures |r| == |clusters| && forall i | 0 <= i < |r| :: r[i] == |clusters[i]|
  {
    seq(|clusters|, i requires 0 <= i < |clusters| => |clusters[i]|)
  }

  /** No id is in two clusters or twice in one. */
  predicate Disjoint(clusters: seq<seq<int>>) {
    && (forall i | 0 <= i < |clusters| :: Distinct(clusters[i]))
    && (forall i, j | 0 <= i < j < |clusters| :: SetOf(clusters[i]) !! SetOf(clusters[j]))
  }

  /** Every member has its cluster's label. */
  predicate Labelled(clusters: seq<seq<int>>, labels: map<int, Option<nat>>) {
    forall g, m | 0 <= g < |clusters| && 0 <= m < |clusters[g]| :: LabelOf(labels, clusters[g][m]) == Some(g + 1)
  }

  /** Each id with the number of the last cluster it is in. */
  function LastLabels(clusters: seq<seq<int>>): map<int, Option<nat>> {
    if clusters == [] then map[]
    else
      var n := |clusters| - 1;
      Relabelled(LastLabels(clusters[..n]), clusters[n], n + 1)
  }

  /** The labels with those of some ids set. */
  function Relabelled(labels: map<int, Option<nat>>, ids: seq<int>, number: nat): (r: map<int, Option<nat>>)
    ensures forall id :: id in r <==> id in labels || id in ids
    ensures forall id | id in r :: r[id] == if id in ids then Some(number) else labels[id]
  {
    labels + map id | id in ids :: Some(number)
  }

  lemma RelabelOne(labels: map<int, Option<nat>>, ids: seq<int>, number: nat, j: nat)
    requires j < |ids|
    ensures Relabelled(labels, ids[..j + 1], number) == Relabelled(labels, ids[..j], number)[ids[j] := Some(number)]
  {
    hide Relabelled;
    assert ids[..j + 1] == ids[..j] + [ids[j]];
  }

  /** `predicted_labels` as the program fills it: each item gets the number of its cluster, the last one if several. */
  method PredictedLabels(clusters: seq<seq<int>>) returns (labels: map<int, Option<nat>>)
    ensures labels == LastLabels(clusters)
  {
    hide Relabelled;
    labels := map[];
    for i := 0 to |clusters|
      invariant labels == LastLabels(clusters[..i])
    {
      ghost var before := labels;
      RelabelNone(before, clusters[i], i + 1);
      for j := 0 to |clusters[i]|
        invariant labels == Relabelled(before, clusters[i][..j], i + 1)
      {
        RelabelOne(before, clusters[i], i + 1, j);
        labels := labels[clusters[i][j] := Some(i + 1)];
      }
      assert clusters[i][..|clusters[i]|] == clusters[i];
      assert clusters[..i + 1][..i] == clusters[..i];
    }
    assert clusters[..|clusters|] == clusters;
  }

  lemma RelabelNone(labels: map<int, Option<nat>>, ids: seq<int>, number: nat)
    ensures Relabelled(labels, ids[..0], number) == labels
  {
  }

  /** An id has a label exactly if it is in a cluster, and the label is that of the last such cluster. */
  lemma {:induction false} LastLabelsAre(clusters: seq<seq<int>>, id: int)
    ensures id in LastLabels(clusters) <==> exists g | 0 <= g < |clusters| :: id in clusters[g]
    ensures forall g | 0 <= g < |clusters| && id in clusters[g] &&
            (forall h | g < h < |clusters| :: id !in clusters[h]) ::
              LabelOf(LastLabels(clusters), id) == Some(g + 1)
  {
    if clusters != [] {
      hide Relabelled;
      var n := |clusters| - 1;
      LastLabelsAre(clusters[..n], id);
      assert forall g | 0 <= g < n :: clusters[..n][g] == clusters[g];
      assert id in LastLabels(clusters) <==> id in LastLabels(clusters[..n]) || id in clusters[n];
    }
  }

  /** Without shared ids, every member has its cluster's label. */
  lemma DisjointAreLabelled(clusters: seq<seq<int>>)
    requires Disjoint(clusters)
    ensures Labelled(clusters, LastLabels(clusters))
  {
    hide LastLabels;
    forall g, m | 0 <= g < |clusters| && 0 <= m < |clusters[g]|
      ensures LabelOf(LastLabels(clusters), clusters[g][m]) == Some(g + 1)
    {
      var id := clusters[g][m];
      LastLabelsAre(clusters, id);
      assert id in SetOf(clusters[g]);
      forall h | g < h < |clusters| ensures id !in clusters[h] {
        assert id !in SetOf(clusters[h]);
      }
    }
  }

  function AllIds(clusters: seq<seq<int>>): set<int> {
    if clusters == [] then {} else AllIds(clusters[..|clusters| - 1]) + SetOf(clusters[|clusters| - 1])
  }

  lemma {:induction false} InAllIds(clusters: seq<seq<int>>, x: int)
    ensures x in AllIds(clusters) <==> exists g | 0 <= g < |clusters| :: x in clusters[g]
  {
    if clusters != [] {
      var before := clusters[..|clusters| - 1];
      InAllIds(before, x);
      assert forall g | 0 <= g < |before| :: before[g] == clusters[g];
    }
  }

  /** The predicted pairs are the pairs within the clusters. */
  ghost function ClusterPairs(clusters: seq<seq<int>>): set<Pair> {
    if clusters == [] then {}
    else ClusterPairs(clusters[..|clusters| - 1]) + PairsWithin(SetOf(clusters[|clusters| - 1]))
  }

  lemma {:induction false} InClusterPairs(clusters: seq<seq<int>>, p: Pair)
    ensures p in ClusterPairs(clusters) <==>
            exists g | 0 <= g < |clusters| :: p.0 in clusters[g] && p.1 in clusters[g] && p.0 < p.1
  {
    if clusters != [] {
      var before := clusters[..|clusters| - 1];
      InClusterPairs(before, p);
      assert forall g | 0 <= g < |before| :: before[g] == clusters[g];
      assert p in PairsWithin(SetOf(clusters[|clusters| - 1])) <==>
             p.0 in clusters[|clusters| - 1] && p.1 in clusters[|clusters| - 1] && p.0 < p.1;
    }
  }

  lemma PredictedPairsAreWithinClusters(clusters: seq<seq<int>>, labels: map<int, Option<nat>>)
    requires Disjoint(clusters) && Labelled(clusters, labels)
    ensures PairSet(AllIds(clusters), labels) == ClusterPairs(clusters)
  {
    hide PairSet, AllIds, ClusterPairs, Disjoint, Labelled;
    forall p ensures p in PairSet(AllIds(clusters), labels) <==> p in ClusterPairs(clusters) {
      PredictedPair(clusters, labels, p);
    }
  }

  lemma PredictedPair(clusters: seq<seq<int>>, labels: map<int, Option<nat>>, p: Pair)
    requires Disjoint(clusters) && Labelled(clusters, labels)
    ensures p in PairSet(AllIds(clusters), labels) <==> p in ClusterPairs(clusters)
  {
    hide AllIds, ClusterPairs, Disjoint;
    InAllIds(clusters, p.0);
    InAllIds(clusters, p.1);
    InClusterPairs(clusters, p);
  }

  lemma {:induction false} ClusterPairsCount(clusters: seq<seq<int>>)
    requires Disjoint(clusters)
    ensures |ClusterPairs(clusters)| == ClosedForm(Sizes(clusters)).0
  {
    if clusters != [] {
      var before, last := clusters[..|clusters| - 1], clusters[|clusters| - 1];
      assert Sizes(clusters)[..|clusters| - 1] == Sizes(before);
      ClusterPairsCount(before);
      PairsWithinCount(last);
      forall p | p in ClusterPairs(before) ensures p !in PairsWithin(SetOf(last)) {
        InClusterPairs(before, p);
        var g :| 0 <= g < |before| && p.0 in before[g];
        assert p.0 in SetOf(clusters[g]);
      }
      hide PairsWithin, SetOf, Disjoint;
      PairsOf(|last|);
    }
  }

  lemma PairsOf(n: nat)
    ensures n < 2 ==> n * (n - 1) == 0
    ensures 2 * (n * (n - 1) / 2) == n * (n - 1)
  {
    if n > 0 {
      PairsOf(n - 1);
      assert n * (n - 1) == (n - 1) * (n - 2) + 2 * (n - 1);
    }
  }

  /** The closed form counts the predicted pairs: the sum of n(n-1)/2 is the size of the set the double loop builds. */
  lemma ClosedFormCountsPairs(clusters: seq<seq<int>>, labels: map<int, Option<nat>>)
    requires Disjoint(clusters) && Labelled(clusters, labels)
    ensures ClosedForm(Sizes(clusters)).0 == |PairSet(AllIds(clusters), labels)|
  {
    PredictedPairsAreWithinClusters(clusters, labels);
    ClusterPairsCount(clusters);
  }

  // ----- precision, recall and F1 -----

  datatype Score = Score(precision: real, recall: real, f1: real, overMerge: real)

  function ScoreOf(gold: set<Pair>, predicted: set<Pair>): Score {
    var truePositive := |gold * predicted| as real;
    var falsePositive := |predicted - gold| as real;
    var precision := if predicted != {} then truePositive / |predicted| as real else 1.0;
    var recall := if gold != {} then truePositive / |gold| as real else 1.0;
    var f1 := if precision + recall != 0.0 then 2.0 * precision * recall / (precision + recall) else 0.0;
    var overMerge := if predicted != {} then falsePositive / |predicted| as real else 0.0;
    Score(precision, recall, f1, overMerge)
  }

  lemma Quotient(a: nat, b: nat)
    requires a <= b && b > 0
    ensures 0.0 <= a as real / b as real <= 1.0
    ensures a as real / b as real == 1.0 <==> a == b
    ensures a as real / b as real == 0.0 <==> a == 0
  {
    var q := a as real / b as real;
    assert q * b as real == a as real;
  }

  lemma SharedPairs(gold: set<Pair>, predicted: set<Pair>)
    ensures |gold * predicted| <= |predicted| && |gold * predicted| <= |gold|
    ensures |gold * predicted| == |predicted| <==> predicted <= gold
    ensures |gold * predicted| == |gold| <==> gold <= predicted
    ensures |predicted - gold| == |predicted| - |gold * predicted|
  {
    SubsetSize(gold * predicted, predicted);
    SubsetSize(gold * predicted, gold);
    assert predicted == (predicted - gold) + (gold * predicted);
  }

  lemma SubsetSize(a: set<Pair>, b: set<Pair>)
    requires a <= b
    ensures |a| <= |b| && (|a| == |b| <==> a == b)
  {
    assert b == a + (b - a);
    if |a| == |b| {
      assert |b - a| == 0;
    }
  }

  lemma Products(a: real, b: real)
    requires b >= 0.0
    ensures a >= 0.0 ==> a * b >= 0.0
    ensures b > 0.0 && a * b >= 0.0 ==> a >= 0.0
  {
  }

  lemma HarmonicMean(p: real, r: real, f: real)
    requires 0.0 <= p <= r <= 1.0 && p + r > 0.0 && f * (p + r) == 2.0 * p * r
    ensures p <= f <= r
    ensures f == 1.0 <==> p == 1.0
  {
    HarmonicMeanBetween(p, r, f);
    assert p == 1.0 ==> r == 1.0 && f * 2.0 == 2.0;
    assert f == 1.0 ==> r == 1.0;
  }

  lemma HarmonicMeanBetween(p: real, r: real, f: real)
    requires 0.0 <= p <= r && p + r > 0.0 && f * (p + r) == 2.0 * p * r
    ensures p <= f <= r
  {
    var low, high := f - p, r - f;
    assert low * (p + r) == (r - p) * p;
    assert high * (p + r) == (r - p) * r;
    Products(r - p, p);
    Products(r - p, r);
    Products(low, p + r);
    Products(high, p + r);
  }

  /** `f1` as the program computes it. */
  function F1(p: real, r: real): real {
    if p + r != 0.0 then 2.0 * p * r / (p + r) else 0.0
  }

  lemma F1Between(p: real, r: real)
    requires 0.0 <= p <= 1.0 && 0.0 <= r <= 1.0
    ensures p <= F1(p, r) <= r || r <= F1(p, r) <= p
    ensures F1(p, r) == 1.0 <==> p == 1.0 && r == 1.0
  {
    if p + r != 0.0 {
      var f := F1(p, r);
      assert f * (p + r) == 2.0 * p * r;
      if p <= r {
        HarmonicMean(p, r, f);
      } else {
        assert f * (r + p) == 2.0 * r * p;
        HarmonicMean(r, p, f);
      }
    }
  }

  lemma Parts(a: nat, b: nat, n: nat)
    requires a + b == n && n > 0
    ensures a as real / n as real == 1.0 - b as real / n as real
  {
    var x, y, z := a as real / n as real, b as real / n as real, n as real;
    assert x * z == a as real && y * z == b as real;
    assert (x + y - 1.0) * z == 0.0;
    Zero(x + y - 1.0, z);
  }

  lemma Zero(x: real, z: real)
    requires x * z == 0.0 && z > 0.0
    ensures x == 0.0
  {
  }

  /** Over-merging is what precision leaves. */
  lemma OverMergeIsRest(gold: set<Pair>, predicted: set<Pair>)
    requires predicted != {}
    ensures ScoreOf(gold, predicted).overMerge == 1.0 - ScoreOf(gold, predicted).precision
  {
    SharedPairs(gold, predicted);
    assert |predicted| > 0;
    Parts(|predicted - gold|, |gold * predicted|, |predicted|);
  }

  lemma PrecisionAndRecall(gold: set<Pair>, predicted: set<Pair>)
    ensures var s := ScoreOf(gold, predicted);
            && 0.0 <= s.precision <= 1.0 && 0.0 <= s.recall <= 1.0 && s.f1 == F1(s.precision, s.recall)
            && (s.precision == 1.0 <==> predicted <= gold) && (s.recall == 1.0 <==> gold <= predicted)
  {
    SharedPairs(gold, predicted);
    if predicted != {} {
      assert |predicted| > 0;
      Quotient(|gold * predicted|, |predicted|);
    }
    if gold != {} {
      assert |gold| > 0;
      Quotient(|gold * predicted|, |gold|);
    }
  }

  /** Scores are proportions, and F1 lies between precision and recall. */
  lemma ScoresAreProportions(gold: set<Pair>, predicted: set<Pair>)
    ensures var s := ScoreOf(gold, predicted);
            && 0.0 <= s.precision <= 1.0 && 0.0 <= s.recall <= 1.0 && 0.0 <= s.overMerge <= 1.0
            && (s.precision <= s.f1 <= s.recall || s.recall <= s.f1 <= s.precision)
            && s.overMerge == if predicted != {} then 1.0 - s.precision else 0.0
  {
    hide F1;
    PrecisionAndRecall(gold, predicted);
    F1Between(ScoreOf(gold, predicted).precision, ScoreOf(gold, predicted).recall);
    if predicted != {} {
      OverMergeIsRest(gold, predicted);
    }
  }

  lemma Share(a: nat, b: nat)
    requires b > 0
    ensures a as real / b as real * b as real == a as real
  {
  }

  lemma F1Product(p: real, r: real, t: real, gold: real, predicted: real)
    requires gold > 0.0 && predicted > 0.0 && t >= 0.0 && p * predicted == t && r * gold == t
    ensures F1(p, r) * (gold + predicted) == 2.0 * t
  {
    if t == 0.0 {
      Zero(p, predicted);
      Zero(r, gold);
    } else {
      Products(p, predicted);
      Products(r, gold);
      var f := F1(p, r);
      assert f * (p + r) == 2.0 * p * r;
      F1Scaled(f, p, r, t, gold, predicted);
      Zero(f * (gold + predicted) - 2.0 * t, t);
    }
  }

  lemma F1Scaled(f: real, p: real, r: real, t: real, gold: real, predicted: real)
    requires p * predicted == t && r * gold == t && f * (p + r) == 2.0 * p * r
    ensures (f * (gold + predicted) - 2.0 * t) * t == 0.0
  {
    assert f * (p + r) * (predicted * gold) == f * ((p * predicted) * gold + (r * gold) * predicted);
    assert 2.0 * p * r * (predicted * gold) == 2.0 * (p * predicted) * (r * gold);
  }

  /**
   What the scores count: precision times the predicted pairs, and recall times the gold pairs, are the shared pairs;
   F1 times all gold and predicted pairs is twice the shared pairs. Without pairs to divide by, a score is 1.
   */
  lemma ScoresCountPairs(gold: set<Pair>, predicted: set<Pair>)
    ensures var s := ScoreOf(gold, predicted);
            && (if predicted == {} then s.precision == 1.0 && s.overMerge == 0.0
                else s.precision * |predicted| as real == |gold * predicted| as real &&
                     s.overMerge * |predicted| as real == |predicted - gold| as real)
            && (if gold == {} then s.recall == 1.0 else s.recall * |gold| as real == |gold * predicted| as real)
            && (if gold == {} && predicted == {} then s.f1 == 1.0
                else s.f1 * (|gold| + |predicted|) as real == 2.0 * |gold * predicted| as real)
  {
    hide ScoreOf, F1;
    ShareOfPredicted(gold, predicted);
    ShareOfGold(gold, predicted);
    F1OfPairs(gold, predicted);
  }

  lemma ShareOfPredicted(gold: set<Pair>, predicted: set<Pair>)
    ensures var s := ScoreOf(gold, predicted);
            if predicted == {} then s.precision == 1.0 && s.overMerge == 0.0
            else s.precision * |predicted| as real == |gold * predicted| as real &&
                 s.overMerge * |predicted| as real == |predicted - gold| as real
  {
    if predicted != {} {
      assert |predicted| > 0;
      Share(|gold * predicted|, |predicted|);
      Share(|predicted - gold|, |predicted|);
    }
  }

  lemma ShareOfGold(gold: set<Pair>, predicted: set<Pair>)
    ensures var s := ScoreOf(gold, predicted);
            if gold == {} then s.recall == 1.0 else s.recall * |gold| as real == |gold * predicted| as real
  {
    if gold != {} {
      assert |gold| > 0;
      Share(|gold * predicted|, |gold|);
    }
  }

  lemma F1OfPairs(gold: set<Pair>, predicted: set<Pair>)
    ensures var f1 := ScoreOf(gold, predicted).f1;
            if gold == {} && predicted == {} then f1 == 1.0
            else f1 * (|gold| + |predicted|) as real == 2.0 * |gold * predicted| as real
  {
    hide ScoreOf, F1;
    ShareOfPredicted(gold, predicted);
    ShareOfGold(gold, predicted);
    PrecisionAndRecall(gold, predicted);
    var s := ScoreOf(gold, predicted);
    if gold == {} || predicted == {} {
      F1WithoutPairs(gold, predicted);
    } else {
      assert |gold| > 0 && |predicted| > 0;
      F1Product(s.precision, s.recall, |gold * predicted| as real, |gold| as real, |predicted| as real);
    }
  }

  lemma F1WithoutPairs(gold: set<Pair>, predicted: set<Pair>)
    requires gold == {} || predicted == {}
    ensures ScoreOf(gold, predicted).f1 == (if gold == predicted then 1.0 else 0.0) && gold * predicted == {}
  {
    assert gold * predicted == {};
    if gold != {} {
      assert |gold| > 0;
    }
    if predicted != {} {
      assert |predicted| > 0;
    }
  }

  /** F1 is 1 exactly when the predicted pairs are the gold pairs. */
  lemma PerfectExactly(gold: set<Pair>, predicted: set<Pair>)
    ensures ScoreOf(gold, predicted).f1 == 1.0 <==> gold == predicted
  {
    hide F1, ScoreOf;
    PrecisionAndRecall(gold, predicted);
    F1Between(ScoreOf(gold, predicted).precision, ScoreOf(gold, predicted).recall);
  }

  /** Two labelings that label every id have the same pairs exactly when they put the same ids together. */
  lemma SamePairsExactly<L, M>(ids: set<int>, gold: map<int, Option<L>>, predicted: map<int, Option<M>>)
    requires forall id | id in ids :: LabelOf(gold, id).Some? && LabelOf(predicted, id).Some?
    ensures PairSet(ids, gold) == PairSet(ids, predicted) <==>
            forall a, b | a in ids && b in ids :: SameLabel(gold, a, b) <==> SameLabel(predicted, a, b)
  {
    if PairSet(ids, gold) == PairSet(ids, predicted) {
      forall a, b | a in ids && b in ids ensures SameLabel(gold, a, b) <==> SameLabel(predicted, a, b) {
        var (x, y) := Ordered(a, b);
        assert (x, y) in PairSet(ids, gold) <==> (x, y) in PairSet(ids, predicted);
      }
    }
  }
}

/**
 Scoring one case of the news eval (scripts/run_news_eval.py: `_score_case`): cluster, label, and
 compare the pairs.
 */
module NewsEval {
  import opened Options
  import opened Lists
  import opened NewsClusters
  import PairScores

  function IdOf(item: Item): int {
    match item.id
    case None => 0
    case Some(id) => id
  }

  function Ids(items: seq<Item>): (r: seq<int>)
    ensures |r| == |items| && forall i | 0 <= i < |r| :: r[i] == IdOf(items[i])
  {
    seq(|items|, i requires 0 <= i < |items| => IdOf(items[i]))
  }

  function GroupIds(groups: seq<seq<Item>>): (r: seq<seq<int>>)
    ensures |r| == |groups| && forall i | 0 <= i < |r| :: r[i] == Ids(groups[i])
  {
    seq(|groups|, i requires 0 <= i < |groups| => Ids(groups[i]))
  }

  ghost predicate AllIdentified(items: seq<Item>) {
    forall x | x in items :: x.id.Some?
  }

  lemma {:induction false} InGroups(groups: seq<seq<Item>>, x: Item)
    requires x in Flatten(groups)
    ensures exists g | 0 <= g < |groups| :: x in groups[g]
  {
    if x !in groups[0] {
      InGroups(groups[1..], x);
      var g :| 0 <= g < |groups[1..]| && x in groups[1..][g];
      assert x in groups[g + 1];
    }
  }

  lemma WithinGroup(items: seq<Item>, groups: seq<seq<Item>>, g: nat, m: nat, n: nat)
    requires DistinctIds(items) && AllIdentified(items) && Flatten(groups) == multiset(items)
    requires g < |groups| && m < n < |groups[g]|
    ensures IdOf(groups[g][m]) != IdOf(groups[g][n])
  {
    var x, y := groups[g][m], groups[g][n];
    InFlatten(groups, g, x);
    InFlatten(groups, g, y);
    GroupCount(groups, g, x);
    assert groups[g] == groups[g][..n] + [y] + groups[g][n + 1..];
    assert x == groups[g][..n][m] && x in multiset(groups[g][..n]);
    assert multiset(groups[g])[x] >= 1 + multiset{y}[x];
    assert x in items && y in items;
  }

  lemma BetweenGroups(items: seq<Item>, groups: seq<seq<Item>>, g: nat, h: nat, m: nat, n: nat)
    requires DistinctIds(items) && AllIdentified(items) && Flatten(groups) == multiset(items)
    requires g < h < |groups| && m < |groups[g]| && n < |groups[h]|
    ensures IdOf(groups[g][m]) != IdOf(groups[h][n])
  {
    var x, y := groups[g][m], groups[h][n];
    InFlatten(groups, g, x);
    InFlatten(groups, h, y);
    TwoGroupsCount(groups, g, h, x);
    assert x in multiset(groups[g]) && y in multiset(groups[h]);
    assert x in items && y in items;
  }

  /** Groups of items without shared ids are disjoint lists of ids. */
  lemma GroupsAreDisjoint(items: seq<Item>, groups: seq<seq<Item>>)
    requires DistinctIds(items) && AllIdentified(items) && Flatten(groups) == multiset(items)
    ensures PairScores.Disjoint(GroupIds(groups))
  {
    hide DistinctIds, AllIdentified, Flatten, IdOf;
    forall g, m, n | 0 <= g < |groups| && 0 <= m < n < |groups[g]| ensures Ids(groups[g])[m] != Ids(groups[g])[n] {
      WithinGroup(items, groups, g, m, n);
    }
    forall g, h | 0 <= g < h < |groups| ensures SetOf(Ids(groups[g])) !! SetOf(Ids(groups[h])) {
      forall m, n | 0 <= m < |groups[g]| && 0 <= n < |groups[h]| ensures Ids(groups[g])[m] != Ids(groups[h])[n] {
        BetweenGroups(items, groups, g, h, m, n);
      }
    }
  }

  /** The groups hold the ids of the items. */
  lemma GroupsHoldIds(items: seq<Item>, groups: seq<seq<Item>>)
    requires Flatten(groups) == multiset(items)
    ensures PairScores.AllIds(GroupIds(groups)) == SetOf(Ids(items))
  {
    forall id ensures id in PairScores.AllIds(GroupIds(groups)) <==> id in SetOf(Ids(items)) {
      PairScores.InAllIds(GroupIds(groups), id);
      if id in SetOf(Ids(items)) {
        var i :| 0 <= i < |items| && IdOf(items[i]) == id;
        assert items[i] in multiset(items);
        InGroups(groups, items[i]);
        var g :| 0 <= g < |groups| && items[i] in groups[g];
        var m :| 0 <= m < |groups[g]| && groups[g][m] == items[i];
        assert Ids(groups[g])[m] == id;
      }
      if id in PairScores.AllIds(GroupIds(groups)) {
        var g :| 0 <= g < |groups| && id in GroupIds(groups)[g];
        var m :| 0 <= m < |groups[g]| && IdOf(groups[g][m]) == id;
        InFlatten(groups, g, groups[g][m]);
        assert groups[g][m] in multiset(items);
        var i :| 0 <= i < |items| && items[i] == groups[g][m];
        assert Ids(items)[i] == id;
      }
    }
  }

  lemma DistinctIdLists(items: seq<Item>)
    requires DistinctIds(items) && AllIdentified(items)
    ensures Distinct(Ids(items))
  {
    forall i, j | 0 <= i < j < |items| ensures IdOf(items[i]) != IdOf(items[j]) {
      assert items == items[..j] + [items[j]] + items[j + 1..];
      assert items[i] in items[..j];
      assert multiset(items)[items[i]] >= 1 + multiset{items[j]}[items[i]];
    }
  }

  /** `_score_case` without its timing; `None` when an item has no id. */
  method ScoreCase(items: seq<Item>, gold: map<int, Option<string>>, cfg: Config, enc: Encoder)
    returns (r: Option<(PairScores.Score, nat, nat)>)
    ensures r.None? <==> exists x :: x in items && x.id.None?
    ensures r.Some? ==>
              exists clusters, groups ::
                && Grouped(Sorted(items), groups, cfg, enc) && Clustered(items, groups, clusters, cfg, enc)
                && r.value == CaseScore(items, gold, clusters)
    ensures r.Some? && DistinctIds(items) ==>
              exists groups :: Grouped(Sorted(items), groups, cfg, enc) && ScoresGroups(items, gold, groups, r.value)
  {
    hide Grouped, WellGrouped, DistinctIds, ScoresGroups, PairScores.Disjoint, PairScores.Labelled,
      RepresentativesApart, Tabled, PairScores.ClosedForm, PairScores.LastLabels, PairScores.ScoreOf,
        PairScores.PairSet,
      PairScores.RepeatedPairs, SetOf, Flatten;
    var clusters, groups := ClusterFeedItems(items, cfg, enc);
    if clusters.None? {
      return None;
    }
    var ids := Ids(items);
    var clusterIds := GroupIds(clusters.value);
    var labels := PairScores.PredictedLabels(clusterIds);
    var goldPairs := PairScores.PairwiseSets(ids, gold);
    var predictedPairs := PairScores.PairwiseSets(ids, labels);
    var positivePairs, itemCount := PairScores.PairwisePositiveCount(clusterIds);
    r := Some((PairScores.ScoreOf(goldPairs, predictedPairs), positivePairs, itemCount));
    assert Clustered(items, groups, clusters.value, cfg, enc);
    if DistinctIds(items) {
      GroupsHoldAll(items, groups, cfg, enc);
      DistinctIdsLoseNothing(items, groups);
      GroupsAreDisjoint(items, clusters.value);
      GroupsHoldIds(items, clusters.value);
      DistinctIdLists(items);
      PairScores.DisjointAreLabelled(clusterIds);
      CountsAgree(items, gold, clusters.value, labels);
    }
  }

  /** The clusters are what the dictionary by representative ids holds in the end. */
  ghost predicate Clustered(
    items: seq<Item>, groups: seq<seq<Item>>, clusters: seq<seq<Item>>, cfg: Config, enc: Encoder) {
    exists keys, table ::
      && Tabled(Sorted(items), groups, keys, table, cfg, enc)
      && (forall j | 0 <= j < |keys| :: keys[j] in table) && clusters == ValuesOf(keys, table)
  }

  /** All pairs that equal labels give: of different ids, and of an id that occurs twice with itself. */
  ghost function LabelPairs<L>(items: seq<Item>, labels: map<int, Option<L>>): set<PairScores.Pair> {
    PairScores.PairSet(SetOf(Ids(items)), labels) + PairScores.RepeatedPairs(Ids(items), labels)
  }

  /** The scores and counts of a case with these clusters, whatever ids its items share. */
  ghost function CaseScore(items: seq<Item>, gold: map<int, Option<string>>, clusters: seq<seq<Item>>)
    : (PairScores.Score, nat, nat)
  {
    var counts := PairScores.ClosedForm(PairScores.Sizes(GroupIds(clusters)));
    var predicted := LabelPairs(items, PairScores.LastLabels(GroupIds(clusters)));
    (PairScores.ScoreOf(LabelPairs(items, gold), predicted), counts.0, counts.1)
  }

  lemma GroupsHoldAll(items: seq<Item>, groups: seq<seq<Item>>, cfg: Config, enc: Encoder)
    requires Grouped(Sorted(items), groups, cfg, enc)
    ensures Flatten(groups) == multiset(items)
  {
    hide Grouped;
    GroupedIsWellGrouped(Sorted(items), groups, cfg, enc);
  }

  /** The score compares the gold pairs with the pairs within the groups, and the closed form counts the latter. */
  ghost predicate ScoresGroups(
    items: seq<Item>, gold: map<int, Option<string>>, groups: seq<seq<Item>>, r: (PairScores.Score, nat, nat))
  {
    var predicted := PairScores.ClusterPairs(GroupIds(groups));
    && r.0 == PairScores.ScoreOf(PairScores.PairSet(SetOf(Ids(items)), gold), predicted)
    && r.1 == |predicted|
    && r.2 == |items|
  }

  lemma CountsAgree(
    items: seq<Item>, gold: map<int, Option<string>>, groups: seq<seq<Item>>, labels: map<int, Option<nat>>)
    requires PairScores.Disjoint(GroupIds(groups)) && Flatten(groups) == multiset(items)
    requires PairScores.Labelled(GroupIds(groups), labels)
    requires PairScores.AllIds(GroupIds(groups)) == SetOf(Ids(items))
    ensures var ids := SetOf(Ids(items));
            var counts := PairScores.ClosedForm(PairScores.Sizes(GroupIds(groups)));
            ScoresGroups(items, gold, groups,
              (PairScores.ScoreOf(PairScores.PairSet(ids, gold), PairScores.PairSet(ids, labels)), counts.0, counts.1))
  {
    hide PairScores.Disjoint, PairScores.Labelled, PairScores.ScoreOf, PairScores.PairSet, PairScores.ClosedForm;
    PairScores.PredictedPairsAreWithinClusters(GroupIds(groups), labels);
    PairScores.ClosedFormCountsPairs(GroupIds(groups), labels);
    GroupSizes(groups);
    assert |multiset(items)| == |items|;
  }

  lemma {:induction false} GroupSizes(groups: seq<seq<Item>>)
    ensures PairScores.ClosedForm(PairScores.Sizes(GroupIds(groups))).1 == |Flatten(groups)|
  {
    if groups != [] {
      var before, last := groups[..|groups| - 1], groups[|groups| - 1];
      GroupSizes(before);
      assert PairScores.Sizes(GroupIds(groups))[..|groups| - 1] == PairScores.Sizes(GroupIds(before));
      assert groups == before + [last];
      FlattenAppend(before, last);
    }
  }
}

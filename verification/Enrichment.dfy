/**
 Joining a normalised answer with the rows of its batch
 (scripts/run_title_clustering_opus.py: `_enrich_batch_result`).
 */
module Enrichment {
  import opened Options
  import opened Lists
  import opened JsonValues
  import opened ModelAnswer

  /** A row of the batch: its content id, if it has one, and the columns that are copied along. */
  datatype Row = Row(contentId: Option<int>, columns: Json)

  datatype EnrichedCluster = EnrichedCluster(
    clusterId: Json, topic: Json, confidence: Json, reason: Json, memberIds: seq<int>, members: seq<Row>)

  datatype Enriched = Enriched(clusteredCount: nat, clusters: seq<EnrichedCluster>, singletons: seq<Row>)

  /** The keys of `rows_by_id` in the order in which they first appear. */
  function RowIds(rows: seq<Row>): seq<int> {
    AddNew([], PresentIds(rows))
  }

  function PresentIds(rows: seq<Row>): seq<int> {
    if rows == [] then []
    else (if rows[0].contentId.Some? then [rows[0].contentId.value] else []) + PresentIds(rows[1..])
  }

  /** `rows_by_id`: the last row of each id. */
  function RowsById(rows: seq<Row>): (m: map<int, Row>)
    ensures forall id :: id in m <==> id in PresentIds(rows)
    ensures forall id | id in m :: m[id] in rows && m[id].contentId == Some(id)
  {
    if rows == [] then map[]
    else
      var rest := RowsById(rows[1..]);
      assert forall id | id in rest :: rest[id] in rows[1..];
      match rows[0].contentId
      case None => rest
      case Some(id) => if id in rest then rest else rest[id := rows[0]]
  }

  /** The integers among `ids` that are ids of rows, in order. */
  function Known(m: map<int, Row>, ids: seq<Json>): (r: seq<int>)
    ensures forall id :: id in r <==> id in m && Num(Integer(id)) in ids
    ensures forall k | 0 <= k < |r| :: r[k] in m
  {
    if ids == [] then []
    else
      var rest := Known(m, ids[1..]);
      match ids[0]
      case Num(Integer(id)) => if id in m then [id] + rest else rest
      case _ => rest
  }

  function RowsOf(m: map<int, Row>, ids: seq<int>): (r: seq<Row>)
    requires forall k | 0 <= k < |ids| :: ids[k] in m
    ensures |r| == |ids| && forall i | 0 <= i < |ids| :: r[i] == m[ids[i]]
  {
    seq(|ids|, i requires 0 <= i < |ids| => m[ids[i]])
  }

  /** The members a normalised cluster lists. */
  function MembersOf(cluster: Fields): seq<Json> {
    match Get(cluster, MEMBERS)
    case Some(Arr(items)) => Elements(items)
    case _ => []
  }

  function EnrichCluster(m: map<int, Row>, cluster: Fields): EnrichedCluster {
    var ids := Known(m, MembersOf(cluster));
    EnrichedCluster(
      OrNull(cluster, "cluster_id"), OrNull(cluster, "label"), OrNull(cluster, "confidence"), OrNull(cluster, "reason"),
      ids, RowsOf(m, ids))
  }

  function OrNull(d: Fields, k: string): Json {
    match Get(d, k)
    case None => Null
    case Some(v) => v
  }

  function AssignedIds(m: map<int, Row>, clusters: seq<Fields>): (r: set<int>)
    ensures forall id :: id in r <==>
            id in m && exists i | 0 <= i < |clusters| :: Num(Integer(id)) in MembersOf(clusters[i])
  {
    if clusters == [] then {} else SetOf(Known(m, MembersOf(clusters[0]))) + AssignedIds(m, clusters[1..])
  }

  function NotIn(ids: seq<int>, taken: set<int>): (r: seq<int>)
    ensures forall id :: id in r <==> id in ids && id !in taken
    ensures forall k | 0 <= k < |r| :: r[k] in ids
  {
    if ids == [] then [] else (if ids[0] in taken then [] else [ids[0]]) + NotIn(ids[1..], taken)
  }

  /** The singletons that are kept: the listed ones that are rows, or, if none is, the rows without a cluster. */
  function SingletonIds(rows: seq<Row>, a: Answer): (r: seq<int>)
    ensures forall k | 0 <= k < |r| :: r[k] in RowsById(rows)
  {
    var m := RowsById(rows);
    var listed := Known(m, a.singletons);
    if listed != [] then listed
    else
      AddNewContents([], PresentIds(rows));
      NotIn(RowIds(rows), AssignedIds(m, a.clusters))
  }

  function EnrichClusters(m: map<int, Row>, clusters: seq<Fields>): (r: seq<EnrichedCluster>)
    ensures |r| == |clusters| && forall i | 0 <= i < |r| :: r[i] == EnrichCluster(m, clusters[i])
  {
    seq(|clusters|, i requires 0 <= i < |clusters| => EnrichCluster(m, clusters[i]))
  }

  function EnrichedBatch(rows: seq<Row>, a: Answer): Enriched {
    var m := RowsById(rows);
    Enriched(|AssignedIds(m, a.clusters)|, EnrichClusters(m, a.clusters), RowsOf(m, SingletonIds(rows, a)))
  }

  method EnrichBatchResult(rows: seq<Row>, a: Answer) returns (r: Enriched)
    ensures r == EnrichedBatch(rows, a)
  {
    var m := RowsById(rows);
    var assignedIds: set<int>, clusters: seq<EnrichedCluster> := {}, [];
    for i := 0 to |a.clusters|
      invariant clusters == EnrichClusters(m, a.clusters[..i])
      invariant assignedIds + AssignedIds(m, a.clusters[i..]) == AssignedIds(m, a.clusters)
    {
      var ids := Known(m, MembersOf(a.clusters[i]));
      assignedIds := assignedIds + SetOf(ids);
      clusters := clusters + [EnrichCluster(m, a.clusters[i])];
    }
    assert a.clusters[..|a.clusters|] == a.clusters;
    var singletons := RowsOf(m, Known(m, a.singletons));
    if singletons == [] {
      AddNewContents([], PresentIds(rows));
      singletons := RowsOf(m, NotIn(RowIds(rows), assignedIds));
    }
    return Enriched(|assignedIds|, clusters, singletons);
  }

  // ----- what the result holds -----

  /** The row of the batch with the id, the last one if several have it. */
  ghost predicate IsRowOf(rows: seq<Row>, id: int, row: Row) {
    exists k :: 0 <= k < |rows| && rows[k] == row && row.contentId == Some(id) &&
                forall l | k < l < |rows| :: rows[l].contentId != Some(id)
  }

  predicate IsRowId(rows: seq<Row>, id: int) {
    exists k :: 0 <= k < |rows| && rows[k].contentId == Some(id)
  }

  lemma {:induction false} PresentExactly(rows: seq<Row>, id: int)
    ensures id in PresentIds(rows) <==> IsRowId(rows, id)
  {
    if rows != [] {
      PresentExactly(rows[1..], id);
      if IsRowId(rows[1..], id) {
        var k :| 0 <= k < |rows[1..]| && rows[1..][k].contentId == Some(id);
        assert rows[k + 1].contentId == Some(id);
      }
      if IsRowId(rows, id) {
        var k :| 0 <= k < |rows| && rows[k].contentId == Some(id);
        assert k > 0 ==> rows[1..][k - 1].contentId == Some(id);
      }
    }
  }

  lemma {:induction false} LastRowWins(rows: seq<Row>, id: int)
    requires id in RowsById(rows)
    ensures IsRowOf(rows, id, RowsById(rows)[id])
  {
    var rest := rows[1..];
    if id in RowsById(rest) {
      LastRowWins(rest, id);
      var row := RowsById(rest)[id];
      var k :| 0 <= k < |rest| && rest[k] == row && row.contentId == Some(id) &&
               forall l | k < l < |rest| :: rest[l].contentId != Some(id);
      assert rows[k + 1] == row;
      assert forall l | k + 1 < l < |rows| :: rows[l] == rest[l - 1];
    } else {
      PresentExactly(rest, id);
      assert rows[0] == RowsById(rows)[id];
      forall l | 0 < l < |rows| ensures rows[l].contentId != Some(id) {
        assert rest[l - 1] == rows[l];
      }
    }
  }

  /** `ids` are the row ids among `listed`, found at `places`: in the listed order, and as often as they are listed. */
  ghost predicate PickedAt(rows: seq<Row>, listed: seq<Json>, ids: seq<int>, places: seq<nat>) {
    && |places| == |ids|
    && (forall j, l | 0 <= j < l < |places| :: places[j] < places[l])
    && (forall j | 0 <= j < |places| ::
          places[j] < |listed| && listed[places[j]] == Num(Integer(ids[j])) && IsRowId(rows, ids[j]))
    && (forall p, id | 0 <= p < |listed| && listed[p] == Num(Integer(id)) && IsRowId(rows, id) :: p in places)
  }

  lemma ShiftPicked(rows: seq<Row>, listed: seq<Json>, ids: seq<int>, places: seq<nat>)
    requires listed != [] && PickedAt(rows, listed[1..], ids, places)
    requires forall id :: listed[0] == Num(Integer(id)) ==> !IsRowId(rows, id)
    ensures PickedAt(rows, listed, ids, Shifted(places))
  {
    hide IsRowId;
    forall p, id | 0 <= p < |listed| && listed[p] == Num(Integer(id)) &&
      IsRowId(rows, id) ensures p in Shifted(places) {
      assert p > 0 && listed[1..][p - 1] == Num(Integer(id));
      var j :| 0 <= j < |places| && places[j] == p - 1;
      assert Shifted(places)[j] == p;
    }
  }

  lemma PickFirst(rows: seq<Row>, listed: seq<Json>, id: int, ids: seq<int>, places: seq<nat>)
    requires listed != [] && PickedAt(rows, listed[1..], ids, places)
    requires listed[0] == Num(Integer(id)) && IsRowId(rows, id)
    ensures PickedAt(rows, listed, [id] + ids, [0] + Shifted(places))
  {
    hide IsRowId;
    var all: seq<nat> := [0] + Shifted(places);
    forall j | 0 <= j < |all|
      ensures all[j] < |listed| && listed[all[j]] == Num(Integer(([id] + ids)[j])) && IsRowId(rows, ([id] + ids)[j])
    {
      if j > 0 {
        assert all[j] == places[j - 1] + 1 && ([id] + ids)[j] == ids[j - 1];
        assert listed[1..][places[j - 1]] == listed[all[j]];
      }
    }
    assert forall j, l | 0 <= j < l < |all| :: all[j] < all[l] by {
      FrontStaysIncreasing(places);
    }
    forall p, x | 0 <= p < |listed| && listed[p] == Num(Integer(x)) && IsRowId(rows, x) ensures p in all {
      ShiftedPlace(places, p);
      if p > 0 {
        assert listed[1..][p - 1] == Num(Integer(x));
        assert p in Shifted(places);
      } else {
        assert all[0] == 0;
      }
    }
  }

  lemma {:induction false} KnownArePicked(rows: seq<Row>, listed: seq<Json>) returns (places: seq<nat>)
    ensures PickedAt(rows, listed, Known(RowsById(rows), listed), places)
  {
    hide IsRowId, RowsById, PresentIds, PickedAt;
    if listed == [] {
      places := [];
      NothingPicked(rows);
      return;
    }
    var later := KnownArePicked(rows, listed[1..]);
    match listed[0]
    case Num(Integer(id)) =>
      PresentExactly(rows, id);
      if IsRowId(rows, id) {
        PickFirst(rows, listed, id, Known(RowsById(rows), listed[1..]), later);
        places := [0] + Shifted(later);
      } else {
        ShiftPicked(rows, listed, Known(RowsById(rows), listed[1..]), later);
        places := Shifted(later);
      }
    case _ =>
      ShiftPicked(rows, listed, Known(RowsById(rows), listed[1..]), later);
      places := Shifted(later);
  }

  lemma NothingPicked(rows: seq<Row>)
    ensures PickedAt(rows, [], [], [])
  {
  }

  /**
   The i-th enriched cluster has the row ids that the i-th cluster lists, with the last row of each, and that cluster's
   own name, label, confidence and reason.
   */
  lemma ClusterExactly(rows: seq<Row>, a: Answer, i: nat) returns (places: seq<nat>)
    requires ProperAnswer(a) && i < |a.clusters|
    ensures |EnrichedBatch(rows, a).clusters| == |a.clusters|
    ensures var given, got := a.clusters[i], EnrichedBatch(rows, a).clusters[i];
            && PickedAt(rows, Elements(Get(given, "member_content_ids").value.items), got.memberIds, places)
            && |got.members| == |got.memberIds|
            && (forall j | 0 <= j < |got.members| :: IsRowOf(rows, got.memberIds[j], got.members[j]))
            && got.clusterId == (if Has(given, "cluster_id") then Get(given, "cluster_id").value else Null)
            && got.topic == (if Has(given, "label") then Get(given, "label").value else Null)
            && got.confidence == (if Has(given, "confidence") then Get(given, "confidence").value else Null)
            && got.reason == (if Has(given, "reason") then Get(given, "reason").value else Null)
  {
    hide PickedAt, Known, RowsById, AssignedIds, IsRowOf, SingletonIds, IdList;
    assert ProperCluster(a.clusters[i]);
    places := KnownArePicked(rows, MembersOf(a.clusters[i]));
    forall id | id in RowsById(rows) {
      LastRowWins(rows, id);
    }
  }

  /** The ids in the clusters of the result. */
  ghost function ClusteredIds(e: Enriched): set<int> {
    set i, j | 0 <= i < |e.clusters| && 0 <= j < |e.clusters[i].memberIds| :: e.clusters[i].memberIds[j]
  }

  lemma AssignedAreClustered(m: map<int, Row>, clusters: seq<Fields>, id: int)
    ensures id in AssignedIds(m, clusters) <==>
            exists i :: 0 <= i < |clusters| && id in EnrichClusters(m, clusters)[i].memberIds
  {
    hide AssignedIds, Known, MembersOf, RowsOf;
    forall i | 0 <= i < |clusters|
      ensures id in EnrichClusters(m, clusters)[i].memberIds <==>
              id in m && Num(Integer(id)) in MembersOf(clusters[i])
    {
      assert EnrichClusters(m, clusters)[i].memberIds == Known(m, MembersOf(clusters[i]));
    }
  }

  /** The reported count is the number of different ids in the clusters of the result. */
  lemma CountIsExact(rows: seq<Row>, a: Answer)
    ensures EnrichedBatch(rows, a).clusteredCount == |ClusteredIds(EnrichedBatch(rows, a))|
  {
    hide AssignedIds, EnrichClusters, SingletonIds, RowsById;
    var m, e := RowsById(rows), EnrichedBatch(rows, a);
    forall id ensures id in AssignedIds(m, a.clusters) <==> id in ClusteredIds(e) {
      AssignedAreClustered(m, a.clusters, id);
      if id in ClusteredIds(e) {
        var i, j :| 0 <= i < |e.clusters| && 0 <= j < |e.clusters[i].memberIds| && e.clusters[i].memberIds[j] == id;
      }
    }
    assert AssignedIds(m, a.clusters) == ClusteredIds(e);
  }

  // ----- which rows the result covers -----

  /** Is the id in some cluster of the result? */
  predicate InCluster(e: Enriched, id: int) {
    exists i :: 0 <= i < |e.clusters| && id in e.clusters[i].memberIds
  }

  /** Is the row of the id among the singletons of the result? */
  predicate InSingletons(e: Enriched, id: int) {
    exists k :: 0 <= k < |e.singletons| && e.singletons[k].contentId == Some(id)
  }

  predicate ListsSomeRow(rows: seq<Row>, a: Answer) {
    exists k :: 0 <= k < |rows| && rows[k].contentId.Some? && Num(Integer(rows[k].contentId.value)) in a.singletons
  }

  lemma InClusterExactly(rows: seq<Row>, a: Answer, id: int)
    ensures InCluster(EnrichedBatch(rows, a), id) <==> id in AssignedIds(RowsById(rows), a.clusters)
  {
    hide AssignedIds, EnrichClusters, SingletonIds, RowsById;
    AssignedAreClustered(RowsById(rows), a.clusters, id);
  }

  lemma InSingletonsExactly(rows: seq<Row>, a: Answer, id: int)
    ensures InSingletons(EnrichedBatch(rows, a), id) <==> id in SingletonIds(rows, a)
  {
    hide AssignedIds, EnrichClusters, SingletonIds, RowsById;
    var ids, e := SingletonIds(rows, a), EnrichedBatch(rows, a);
    assert forall k | 0 <= k < |ids| :: e.singletons[k].contentId == Some(ids[k]);
  }

  /** The reported singletons are rows of the batch, the last of their ids, and no id is reported twice. */
  lemma SingletonsAreRows(rows: seq<Row>, a: Answer)
    requires ProperAnswer(a)
    ensures var singles := EnrichedBatch(rows, a).singletons;
            && (forall k | 0 <= k < |singles| ::
                  singles[k].contentId.Some? && IsRowOf(rows, singles[k].contentId.value, singles[k]))
            && forall k, l | 0 <= k < l < |singles| :: singles[k].contentId != singles[l].contentId
  {
    hide IsRowOf, AssignedIds, EnrichClusters, RowsById;
    SingletonIdsDistinct(rows, a);
    forall id | id in RowsById(rows) {
      LastRowWins(rows, id);
    }
  }

  lemma SingletonIdsDistinct(rows: seq<Row>, a: Answer)
    requires ProperAnswer(a)
    ensures Distinct(SingletonIds(rows, a))
  {
    KnownDistinct(RowsById(rows), a.singletons);
    AddNewDistinct([], PresentIds(rows));
    NotInDistinct(RowIds(rows), AssignedIds(RowsById(rows), a.clusters));
  }

  lemma {:induction false} KnownDistinct(m: map<int, Row>, ids: seq<Json>)
    requires Distinct(ids)
    ensures Distinct(Known(m, ids))
  {
    if ids != [] {
      KnownDistinct(m, ids[1..]);
      assert forall x | x in ids[1..] :: x != ids[0];
    }
  }

  lemma {:induction false} NotInDistinct(ids: seq<int>, taken: set<int>)
    requires Distinct(ids)
    ensures Distinct(NotIn(ids, taken))
  {
    if ids != [] {
      NotInDistinct(ids[1..], taken);
      assert forall x | x in ids[1..] :: x != ids[0];
    }
  }

  /** A row is reported as a singleton exactly when the model lists it, or lists no row and clusters it nowhere. */
  lemma SingletonExactly(rows: seq<Row>, a: Answer, id: int)
    ensures InSingletons(EnrichedBatch(rows, a), id) <==>
            IsRowId(rows, id) &&
            (Num(Integer(id)) in a.singletons ||
             (!ListsSomeRow(rows, a) && !InCluster(EnrichedBatch(rows, a), id)))
  {
    hide RowsById, Known, PresentIds, AssignedIds, NotIn, AddNew, EnrichedBatch, InCluster, InSingletons;
    var m := RowsById(rows);
    InSingletonsExactly(rows, a, id);
    InClusterExactly(rows, a, id);
    var listed := Known(m, a.singletons);
    AddNewContents([], PresentIds(rows));
    PresentExactly(rows, id);
    if listed != [] {
      assert listed[0] in listed;
      PresentExactly(rows, listed[0]);
    } else {
      forall x | IsRowId(rows, x) ensures Num(Integer(x)) !in a.singletons {
        PresentExactly(rows, x);
        assert x !in listed;
      }
    }
  }

  /** Listed singletons come in the listed order. */
  lemma ListedSingletonsInOrder(rows: seq<Row>, a: Answer) returns (places: seq<nat>)
    requires ListsSomeRow(rows, a)
    ensures var singles := EnrichedBatch(rows, a).singletons;
            PickedAt(rows, a.singletons, IdsOf(singles), places)
  {
    hide RowsById, Known, PresentIds, AssignedIds, NotIn, AddNew, PickedAt, EnrichClusters;
    places := KnownArePicked(rows, a.singletons);
    var k :| 0 <= k < |rows| && rows[k].contentId.Some? && Num(Integer(rows[k].contentId.value)) in a.singletons;
    PresentExactly(rows, rows[k].contentId.value);
    assert rows[k].contentId.value in Known(RowsById(rows), a.singletons);
    assert IdsOf(EnrichedBatch(rows, a).singletons) == Known(RowsById(rows), a.singletons);
  }

  function IdsOf(rows: seq<Row>): (r: seq<int>) {
    seq(|rows|, i requires 0 <= i < |rows| => match rows[i].contentId case None => 0 case Some(id) => id)
  }

  lemma KnownIsListed(rows: seq<Row>, a: Answer)
    requires Known(RowsById(rows), a.singletons) != []
    ensures ListsSomeRow(rows, a)
  {
    hide Known, PresentIds;
    var id := Known(RowsById(rows), a.singletons)[0];
    assert id in Known(RowsById(rows), a.singletons);
    PresentExactly(rows, id);
  }

  /** Does the first id appear in the batch before the second does? */
  predicate AppearsBefore(rows: seq<Row>, id: int, other: int) {
    exists p :: 0 <= p < |rows| && rows[p].contentId == Some(id) &&
                forall q | 0 <= q <= p :: rows[q].contentId != Some(other)
  }

  /** When no row is listed, the singletons come in the order in which their ids first appear in the batch. */
  lemma UnlistedSingletonsInOrder(rows: seq<Row>, a: Answer, j: nat, l: nat)
    requires !ListsSomeRow(rows, a) && j < l < |EnrichedBatch(rows, a).singletons|
    ensures var ids := IdsOf(EnrichedBatch(rows, a).singletons); AppearsBefore(rows, ids[j], ids[l])
  {
    hide RowsById, Known, PresentIds, AssignedIds, NotIn, AddNew, EnrichClusters, AppearsBefore;
    var ids, listed := SingletonIds(rows, a), Known(RowsById(rows), a.singletons);
    assert IdsOf(EnrichedBatch(rows, a).singletons) == ids;
    if listed != [] {
      KnownIsListed(rows, a);
    }
    AddNewContents([], PresentIds(rows));
    assert ids[j] in RowIds(rows);
    var i, k := NotInOrder(RowIds(rows), AssignedIds(RowsById(rows), a.clusters), j, l);
    RowIdsInOrder(rows, i, k);
  }

  lemma {:induction false} NotInOrder(ids: seq<int>, taken: set<int>, j: nat, l: nat) returns (i: nat, k: nat)
    requires ids != [] && j < l < |NotIn(ids, taken)|
    ensures i < k < |ids| && NotIn(ids, taken)[j] == ids[i] && NotIn(ids, taken)[l] == ids[k]
  {
    hide NotIn;
    NotInUnfolds(ids, taken);
    var skipped := if ids[0] in taken then 0 else 1;
    if j < skipped {
      k := PlaceIn(ids[1..], NotIn(ids[1..], taken)[l - 1]);
      i, k := 0, k + 1;
    } else {
      i, k := NotInOrder(ids[1..], taken, j - skipped, l - skipped);
      i, k := i + 1, k + 1;
    }
  }

  lemma NotInUnfolds(ids: seq<int>, taken: set<int>)
    requires ids != []
    ensures NotIn(ids, taken) == (if ids[0] in taken then [] else [ids[0]]) + NotIn(ids[1..], taken)
  {
  }

  lemma PlaceIn(ids: seq<int>, id: int) returns (k: nat)
    requires id in ids
    ensures k < |ids| && ids[k] == id
  {
    k :| 0 <= k < |ids| && ids[k] == id;
  }

  lemma RowIdsInOrder(rows: seq<Row>, i: nat, k: nat)
    requires i < k < |RowIds(rows)|
    ensures AppearsBefore(rows, RowIds(rows)[i], RowIds(rows)[k])
  {
    hide AddNew, PresentIds, AppearsBefore, FirstSeen, RowIds;
    var ids := PresentIds(rows);
    var places := RowIdPlaces(rows);
    SeenInOrder(ids, places, i, k);
    PresentInOrder(rows, places[i], RowIds(rows)[k]);
  }

  lemma RowIdPlaces(rows: seq<Row>) returns (places: seq<nat>)
    ensures FirstSeen([], PresentIds(rows), places) && RowIds(rows) == Picks(PresentIds(rows), places)
  {
    hide AddNew, PresentIds, FirstSeen;
    places := AddNewOrder([], PresentIds(rows));
  }

  lemma SeenInOrder(xs: seq<int>, places: seq<nat>, i: nat, k: nat)
    requires FirstSeen([], xs, places) && i < k < |places|
    ensures places[i] < |xs| && places[k] < |xs| && xs[places[k]] !in xs[..places[i] + 1]
  {
    var p := places[k];
    assert p in places;
    assert xs[p] !in xs[..p];
    assert xs[..places[i] + 1] <= xs[..p];
    PrefixMembers(xs[..places[i] + 1], xs[..p], xs[p]);
  }

  lemma PrefixMembers(s: seq<int>, t: seq<int>, x: int)
    requires s <= t && x !in t
    ensures x !in s
  {
    assert forall j | 0 <= j < |s| :: s[j] == t[j];
  }

  lemma {:induction false} PresentInOrder(rows: seq<Row>, p: nat, other: int)
    requires p < |PresentIds(rows)| && other !in PresentIds(rows)[..p + 1]
    ensures AppearsBefore(rows, PresentIds(rows)[p], other)
  {
    var ids, rest := PresentIds(rows), PresentIds(rows[1..]);
    var head := |ids| - |rest|;
    if p < head {
      assert rows[0].contentId == Some(ids[p]);
      assert ids[..p + 1][p] == ids[p];
    } else {
      assert other !in rest[..p - head + 1] by {
        assert ids[..p + 1] == ids[..head] + rest[..p - head + 1];
      }
      PresentInOrder(rows[1..], p - head, other);
      var q :| 0 <= q < |rows[1..]| && rows[1..][q].contentId == Some(rest[p - head]) &&
               forall o | 0 <= o <= q :: rows[1..][o].contentId != Some(other);
      HeadIsNot(rows, p, other);
      assert rows[q + 1].contentId == Some(ids[p]);
      assert forall o | 0 < o <= q + 1 :: rows[o] == rows[1..][o - 1];
    }
  }

  lemma HeadIsNot(rows: seq<Row>, p: nat, other: int)
    requires rows != [] && p < |PresentIds(rows)| && other !in PresentIds(rows)[..p + 1]
    ensures rows[0].contentId != Some(other)
  {
    if rows[0].contentId.Some? {
      assert PresentIds(rows)[..p + 1][0] == rows[0].contentId.value;
    }
  }

  /**
   Every row is covered exactly when the model lists no row as a singleton, or lists every row it leaves unclustered.
   */
  lemma EveryRowCoveredExactly(rows: seq<Row>, a: Answer)
    ensures var e := EnrichedBatch(rows, a);
            (forall id | IsRowId(rows, id) :: InCluster(e, id) || InSingletons(e, id)) <==>
            (ListsSomeRow(rows, a) ==>
               forall id | IsRowId(rows, id) && !InCluster(e, id) :: Num(Integer(id)) in a.singletons)
  {
    hide EnrichedBatch, InCluster, InSingletons, IsRowId, ListsSomeRow;
    forall id | IsRowId(rows, id) {
      SingletonExactly(rows, a, id);
    }
  }

  /** No row is covered twice exactly when the model lists no clustered row as a singleton. */
  lemma NoRowCoveredTwiceExactly(rows: seq<Row>, a: Answer)
    ensures var e := EnrichedBatch(rows, a);
            (forall id | IsRowId(rows, id) :: !(InCluster(e, id) && InSingletons(e, id))) <==>
            (forall id | IsRowId(rows, id) && InCluster(e, id) :: Num(Integer(id)) !in a.singletons)
  {
    hide EnrichedBatch, InCluster, InSingletons, IsRowId, ListsSomeRow;
    forall id | IsRowId(rows, id) {
      SingletonExactly(rows, a, id);
    }
  }

  /** A row the model forgets while listing another singleton is dropped without a trace. */
  lemma ForgottenRowIsDropped(one: Json, two: Json)
    ensures var rows := [Row(Some(1), one), Row(Some(2), two)];
            var e := EnrichedBatch(rows, Answer(Null, [], [Num(Integer(1))]));
            !InCluster(e, 2) && !InSingletons(e, 2)
  {
    hide EnrichedBatch, InCluster, InSingletons;
    var rows := [Row(Some(1), one), Row(Some(2), two)];
    var a := Answer(Null, [], [Num(Integer(1))]);
    assert ListsSomeRow(rows, a) by {
      assert rows[0].contentId == Some(1) && Num(Integer(1)) in a.singletons;
    }
    SingletonExactly(rows, a, 2);
    InClusterExactly(rows, a, 2);
  }
}

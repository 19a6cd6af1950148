/**
 What normalising makes of a clustering answer (scripts/run_title_clustering_opus.py): which
 answers have the wrong shape, which clusters are kept and as what, and which singletons there are.
 */
module AnswerShape {
  import opened Options
  import opened Lists
  import opened JsonValues
  import opened ModelAnswer

  // ----- iteration -----

  /** What iterating gives: the elements, the characters as strings, or the keys; other values cannot be iterated. */
  lemma IterationExactly(v: Json)
    ensures Iterate(v).Some? <==> v.Arr? || v.Str? || v.Obj?
    ensures v.Arr? ==> Iterate(v) == Some(Elements(v.items))
    ensures v.Str? ==> |Iterate(v).value| == |v.s| && forall k | 0 <= k < |v.s| :: Iterate(v).value[k] == Str([v.s[k]])
    ensures v.Obj? ==> forall x :: x in Iterate(v).value <==> x.Str? && Has(v.fields, x.s)
  {
    match v
    case Str(s) => LettersAre(s);
    case Obj(d) => KeysAre(d);
    case _ =>
  }

  lemma {:induction false} LettersAre(s: string)
    ensures |Letters(s)| == |s| && forall k | 0 <= k < |s| :: Letters(s)[k] == Str([s[k]])
  {
    if s != "" {
      LettersAre(s[1..]);
      forall k | 0 <= k < |s| ensures Letters(s)[k] == Str([s[k]]) {
        if k > 0 {
          assert Letters(s)[k] == Letters(s[1..])[k - 1] && s[k] == s[1..][k - 1];
        }
      }
    }
  }

  lemma {:induction false} KeysAre(d: Fields)
    ensures forall x :: x in Keys(d) <==> x.Str? && Has(d, x.s)
  {
    if d.Entry? {
      KeysAre(d.rest);
      assert Keys(d) == [Str(d.key)] + Keys(d.rest);
    }
  }

  // ----- which answers are normalised -----

  /** Can the value be iterated, and its elements be put into a set? */
  predicate IdsReadable(v: Json) {
    Iterate(v).Some? && AllHashable(Iterate(v).value)
  }

  predicate ClusterReadable(cluster: Json) {
    cluster.Obj? && IdsReadable(GetOrEmpty(cluster.fields, "member_content_ids"))
  }

  predicate AnswerReadable(parsed: Json) {
    && parsed.Obj?
    && IdsReadable(GetOrEmpty(parsed.fields, "singletons"))
    && var clusters := Iterate(GetOrEmpty(parsed.fields, "clusters"));
       clusters.Some? && forall i | 0 <= i < |clusters.value| :: ClusterReadable(clusters.value[i])
  }

  /** An answer has the wrong shape exactly when one of its lists cannot be read, or a cluster is no dictionary. */
  lemma NormalizedExactly(parsed: Json)
    ensures NormalizeAnswer(parsed).Some? <==> AnswerReadable(parsed)
  {
    hide AddNew, Iterate, GetOrEmpty, SplitClusters;
    if parsed.Obj? && Iterate(GetOrEmpty(parsed.fields, "clusters")).Some? {
      SplitSucceedsExactly(Iterate(GetOrEmpty(parsed.fields, "clusters")).value, [], []);
    }
  }

  lemma {:induction false} SplitSucceedsExactly(raw: seq<Json>, clusters: seq<Fields>, singles: seq<Json>)
    ensures SplitClusters(raw, clusters, singles).Some? <==> forall i | 0 <= i < |raw| :: ClusterReadable(raw[i])
    decreases |raw|
  {
    hide AddNew, Iterate, GetOrEmpty, WithMembers;
    if raw != [] && ClusterReadable(raw[0]) {
      var ids := MemberIds(raw[0]).value;
      if |ids| < 2 {
        SplitSucceedsExactly(raw[1..], clusters, AddNew(singles, ids));
      } else {
        SplitSucceedsExactly(raw[1..], clusters + [WithMembers(raw[0].fields, ids)], singles);
      }
      assert forall i | 1 <= i < |raw| :: raw[i] == raw[1..][i - 1];
    }
  }

  // ----- adding twice -----

  lemma {:induction false} AddNewAppend<T>(done: seq<T>, xs: seq<T>, ys: seq<T>)
    ensures AddNew(done, xs + ys) == AddNew(AddNew(done, xs), ys)
    decreases |xs|
  {
    if xs == [] {
      assert xs + ys == ys;
    } else {
      assert (xs + ys)[1..] == xs[1..] + ys;
      AddNewAppend(if xs[0] in done then done else done + [xs[0]], xs[1..], ys);
    }
  }

  /** Dropping repetitions before adding makes no difference. */
  lemma {:induction false} AddNewOfDistinct<T>(done: seq<T>, xs: seq<T>)
    ensures AddNew(done, AddNew([], xs)) == AddNew(done, xs)
    decreases |xs|
  {
    if xs != [] {
      var ys, x := xs[..|xs| - 1], xs[|xs| - 1];
      assert xs == ys + [x];
      AddNewOfDistinct(done, ys);
      AddNewAppend([], ys, [x]);
      AddNewAppend(done, ys, [x]);
      AddNewContents([], ys);
      AddNewContents(done, ys);
      AddOne(AddNew([], ys), x);
      AddOne(AddNew(done, ys), x);
      if x !in ys {
        AddNewAppend(done, AddNew([], ys), [x]);
      }
    }
  }

  lemma AddOne<T>(done: seq<T>, x: T)
    ensures AddNew(done, [x]) == if x in done then done else done + [x]
  {
    assert [x][1..] == [];
  }

  // ----- clusters and singletons -----

  /** The ids a readable cluster lists, as they stand there. */
  function ListedIds(cluster: Json): seq<Json>
    requires ClusterReadable(cluster)
  {
    Iterate(GetOrEmpty(cluster.fields, "member_content_ids")).value
  }

  /** At least two different ids. */
  predicate Large(cluster: Json)
    requires ClusterReadable(cluster)
  {
    |SetOf(ListedIds(cluster))| >= 2
  }

  /** The raw cluster with every id listed once, where it is first listed, and every other entry as it was. */
  ghost predicate Deduplicated(raw: Json, c: Fields)
    requires ClusterReadable(raw)
  {
    && (forall k :: k != "member_content_ids" ==> Get(c, k) == Get(raw.fields, k))
    && exists items, places ::
         && Get(c, "member_content_ids") == Some(Arr(items))
         && FirstSeen([], ListedIds(raw), places) && Elements(items) == Picks(ListedIds(raw), places)
  }

  /** The places of the large clusters, in order. */
  ghost predicate LargePlaces(raw: seq<Json>, places: seq<nat>)
    requires forall i | 0 <= i < |raw| :: ClusterReadable(raw[i])
  {
    && (forall j, l | 0 <= j < l < |places| :: places[j] < places[l])
    && (forall j | 0 <= j < |places| :: places[j] < |raw|)
    && (forall p: nat | p < |raw| :: p in places <==> Large(raw[p]))
  }

  /** The ids of the other clusters, one cluster after the other. */
  function SmallIds(raw: seq<Json>): seq<Json>
    requires forall i | 0 <= i < |raw| :: ClusterReadable(raw[i])
  {
    if raw == [] then [] else (if Large(raw[0]) then [] else ListedIds(raw[0])) + SmallIds(raw[1..])
  }

  lemma {:induction false} DistinctSize<T>(xs: seq<T>)
    requires Distinct(xs)
    ensures |SetOf(xs)| == |xs|
  {
    if xs == [] {
      assert SetOf(xs) == {};
    } else {
      DistinctSize(xs[1..]);
      assert xs == [xs[0]] + xs[1..];
      assert SetOf(xs) == {xs[0]} + SetOf(xs[1..]);
      assert xs[0] !in xs[1..];
    }
  }

  lemma MembersExactly(cluster: Json) returns (places: seq<nat>)
    requires ClusterReadable(cluster)
    ensures MemberIds(cluster).Some? && (|MemberIds(cluster).value| >= 2 <==> Large(cluster))
    ensures MemberIds(cluster).value == AddNew([], ListedIds(cluster))
    ensures FirstSeen([], ListedIds(cluster), places) && MemberIds(cluster).value == Picks(ListedIds(cluster), places)
  {
    hide AddNew, Iterate, FirstSeen;
    places := AddNewOrder([], ListedIds(cluster));
    AddNewIdList([], ListedIds(cluster));
    DistinctSize(AddNew([], ListedIds(cluster)));
    assert SetOf<Json>([]) == {};
  }

  lemma WithMembersDeduplicates(raw: Json)
    requires ClusterReadable(raw)
    ensures MemberIds(raw).Some? && Deduplicated(raw, WithMembers(raw.fields, MemberIds(raw).value))
  {
    hide AddNew, Iterate, Get, MemberIds, Put;
    var places := MembersExactly(raw);
    var items := ToItems(MemberIds(raw).value);
    assert Elements(items) == Picks(ListedIds(raw), places);
  }

  /** `cs` are the large clusters, each deduplicated. */
  ghost predicate AllDeduplicated(raw: seq<Json>, places: seq<nat>, cs: seq<Fields>)
    requires (forall i | 0 <= i < |raw| :: ClusterReadable(raw[i])) && LargePlaces(raw, places)
  {
    |cs| == |places| && forall j | 0 <= j < |places| :: Deduplicated(raw[places[j]], cs[j])
  }

  lemma {:induction false} SplitExactly(
    raw: seq<Json>, clusters: seq<Fields>, singles: seq<Json>) returns (places: seq<nat>)
    requires forall i | 0 <= i < |raw| :: ClusterReadable(raw[i])
    ensures LargePlaces(raw, places)
    ensures SplitClusters(raw, clusters, singles).Some?
    ensures var (cs, ss) := SplitClusters(raw, clusters, singles).value;
            && |clusters| <= |cs| && cs[..|clusters|] == clusters
            && AllDeduplicated(raw, places, cs[|clusters|..])
            && ss == AddNew(singles, SmallIds(raw))
    decreases |raw|
  {
    hide AddNew, Deduplicated, AllDeduplicated, LargePlaces, WithMembers, Large, MemberIds, ClusterReadable;
    if raw == [] {
      NoClusters(singles);
      assert clusters[|clusters|..] == [];
      return [];
    }
    var rest := raw[1..];
    assert forall i | 0 <= i < |rest| :: rest[i] == raw[i + 1];
    var members := MembersExactly(raw[0]);
    var ids := MemberIds(raw[0]).value;
    IsDictionary(raw[0]);
    if Large(raw[0]) {
      var c := WithMembers(raw[0].fields, ids);
      WithMembersDeduplicates(raw[0]);
      var later := SplitExactly(rest, clusters + [c], singles);
      LargeFirst(raw, later);
      assert SmallIds(raw) == SmallIds(rest);
      places := [0] + Shifted(later);
      OneMoreKept(raw, later, SplitClusters(raw, clusters, singles).value.0, clusters, c);
    } else {
      var later := SplitExactly(rest, clusters, AddNew(singles, ids));
      SmallFirst(raw, later);
      assert SmallIds(raw) == ListedIds(raw[0]) + SmallIds(rest);
      NoMoreKept(raw, later, SplitClusters(raw, clusters, singles).value.0[|clusters|..]);
      places := Shifted(later);
      AddNewOfDistinct(singles, ListedIds(raw[0]));
      AddNewAppend(singles, ListedIds(raw[0]), SmallIds(rest));
    }
  }

  lemma IsDictionary(raw: Json)
    requires ClusterReadable(raw)
    ensures raw.Obj?
  {
  }

  lemma NoClusters(singles: seq<Json>)
    ensures LargePlaces([], []) && AllDeduplicated([], [], []) && AddNew(singles, SmallIds([])) == singles
  {
  }

  lemma LargeFirst(raw: seq<Json>, later: seq<nat>)
    requires raw != [] && (forall i | 0 <= i < |raw| :: ClusterReadable(raw[i])) && Large(raw[0])
    requires LargePlaces(raw[1..], later)
    ensures LargePlaces(raw, [0] + Shifted(later))
  {
    hide Large, ClusterReadable;
    var places: seq<nat> := [0] + Shifted(later);
    FrontStaysIncreasing(later);
    forall p: nat | p < |raw| ensures p in places <==> Large(raw[p]) {
      ShiftedPlace(later, p);
      if p > 0 {
        assert raw[1..][p - 1] == raw[p];
      } else {
        assert places[0] == 0;
      }
    }
    assert forall j | 1 <= j < |places| :: places[j] == later[j - 1] + 1;
  }

  lemma SmallFirst(raw: seq<Json>, later: seq<nat>)
    requires raw != [] && (forall i | 0 <= i < |raw| :: ClusterReadable(raw[i])) && !Large(raw[0])
    requires LargePlaces(raw[1..], later)
    ensures LargePlaces(raw, Shifted(later))
  {
    hide Large, ClusterReadable;
    forall p: nat | p < |raw| ensures p in Shifted(later) <==> Large(raw[p]) {
      ShiftedPlace(later, p);
      if p > 0 {
        assert raw[1..][p - 1] == raw[p];
      }
    }
  }

  lemma OneMoreKept(raw: seq<Json>, later: seq<nat>, cs: seq<Fields>, clusters: seq<Fields>, c: Fields)
    requires raw != [] && (forall i | 0 <= i < |raw| :: ClusterReadable(raw[i])) && Large(raw[0])
    requires LargePlaces(raw[1..], later) && Deduplicated(raw[0], c)
    requires |clusters + [c]| <= |cs| && cs[..|clusters + [c]|] == clusters + [c]
    requires AllDeduplicated(raw[1..], later, cs[|clusters + [c]|..])
    requires LargePlaces(raw, [0] + Shifted(later))
    ensures cs[..|clusters|] == clusters && AllDeduplicated(raw, [0] + Shifted(later), cs[|clusters|..])
  {
    hide Deduplicated, ClusterReadable, Large;
    var n, places: seq<nat> := |clusters|, [0] + Shifted(later);
    assert cs[..n] == cs[..n + 1][..n] && cs[n] == cs[..n + 1][n];
    assert cs[n..] == [c] + cs[n + 1..];
    forall j | 0 <= j < |places| ensures Deduplicated(raw[places[j]], cs[n..][j]) {
      if j > 0 {
        assert places[j] == later[j - 1] + 1 && raw[places[j]] == raw[1..][later[j - 1]];
        assert cs[n..][j] == cs[n + 1..][j - 1];
      }
    }
  }

  lemma NoMoreKept(raw: seq<Json>, later: seq<nat>, cs: seq<Fields>)
    requires raw != [] && (forall i | 0 <= i < |raw| :: ClusterReadable(raw[i]))
    requires LargePlaces(raw[1..], later) && AllDeduplicated(raw[1..], later, cs) && LargePlaces(raw, Shifted(later))
    ensures AllDeduplicated(raw, Shifted(later), cs)
  {
    hide Deduplicated, ClusterReadable, Large;
    forall j | 0 <= j < |later| ensures Deduplicated(raw[Shifted(later)[j]], cs[j]) {
      assert raw[Shifted(later)[j]] == raw[1..][later[j]];
      assert Deduplicated(raw[1..][later[j]], cs[j]);
    }
  }

  /**
   A normalised answer has the batch id of the raw one, its clusters of at least two different ids in order and without
   repetitions, and as singletons, each once and in order of appearance, the ids of its other clusters and then those
   it lists itself.
   */
  lemma NormalizedAnswerExactly(parsed: Json) returns (kept: seq<nat>, first: seq<nat>)
    requires NormalizeAnswer(parsed).Some?
    ensures AnswerReadable(parsed)
    ensures var a := NormalizeAnswer(parsed).value;
            var raw := Iterate(GetOrEmpty(parsed.fields, "clusters")).value;
            var listed := Iterate(GetOrEmpty(parsed.fields, "singletons")).value;
            && a.batchId == (if Has(parsed.fields, "batch_id") then Get(parsed.fields, "batch_id").value else Null)
            && LargePlaces(raw, kept) && AllDeduplicated(raw, kept, a.clusters)
            && FirstSeen([], SmallIds(raw) + listed, first)
            && a.singletons == Picks(SmallIds(raw) + listed, first)
  {
    hide AddNew, AllDeduplicated, LargePlaces, SplitClusters, Iterate, ClusterReadable, SmallIds, FirstSeen;
    NormalizedExactly(parsed);
    var raw := Iterate(GetOrEmpty(parsed.fields, "clusters")).value;
    var listed := Iterate(GetOrEmpty(parsed.fields, "singletons")).value;
    kept := SplitExactly(raw, [], []);
    assert NormalizeAnswer(parsed).value.clusters[0..] == NormalizeAnswer(parsed).value.clusters;
    AddNewAppend([], SmallIds(raw), listed);
    first := AddNewOrder([], SmallIds(raw) + listed);
  }
}

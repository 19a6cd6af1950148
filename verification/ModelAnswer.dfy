/**
 A model's clustering answer (scripts/run_title_clustering_opus.py): normalising its clusters and
 singletons, and joining it with the rows of the batch.
 */
module ModelAnswer {
  import opened Options
  import opened Lists
  import opened JsonValues
  import opened JsonText
  import opened JsonRoundTrip
  import ResponseText
  import FencedText
  import NewlineText

  /** A normalised answer; each cluster is its dictionary. */
  datatype Answer = Answer(batchId: Json, clusters: seq<Fields>, singletons: seq<Json>)

  const MEMBERS := "member_content_ids"

  // ----- iteration as Python does it -----

  function Keys(d: Fields): seq<Json> {
    match d
    case Empty => []
    case Entry(k, _, rest) => [Str(k)] + Keys(rest)
  }

  function Letters(s: string): seq<Json> {
    if s == "" then [] else [Str([s[0]])] + Letters(s[1..])
  }

  /** What iterating over the value gives: lists, but also strings and dictionaries; nothing else can be iterated. */
  function Iterate(v: Json): Option<seq<Json>> {
    match v
    case Arr(items) => Some(Elements(items))
    case Str(s) => Some(Letters(s))
    case Obj(d) => Some(Keys(d))
    case _ => None
  }

  predicate Hashable(v: Json) {
    !v.Arr? && !v.Obj?
  }

  function GetOrEmpty(d: Fields, k: string): Json {
    match Get(d, k)
    case None => Arr(Nil)
    case Some(v) => v
  }

  /** `done`, then each element of `xs` that is not there yet. */
  function AddNew<T(==)>(done: seq<T>, xs: seq<T>): seq<T>
    decreases |xs|
  {
    if xs == [] then done else AddNew(if xs[0] in done then done else done + [xs[0]], xs[1..])
  }

  /** The member list of one raw cluster, without repetitions; `None` when the program raises. */
  function MemberIds(cluster: Json): Option<seq<Json>> {
    if !cluster.Obj? then None
    else
      match Iterate(GetOrEmpty(cluster.fields, MEMBERS))
      case None => None
      case Some(ids) => if forall k | 0 <= k < |ids| :: Hashable(ids[k]) then Some(AddNew([], ids)) else None
  }

  function WithMembers(cluster: Fields, ids: seq<Json>): Fields {
    Put(cluster, MEMBERS, Arr(ToItems(ids)))
  }

  function ToItems(xs: seq<Json>): (r: Items)
    ensures Elements(r) == xs
  {
    if xs == [] then Nil else Cons(xs[0], ToItems(xs[1..]))
  }

  /** The clusters of at least two members, and the members of the others. */
  function SplitClusters(raw: seq<Json>, clusters: seq<Fields>, singles: seq<Json>): Option<(seq<Fields>, seq<Json>)>
    decreases |raw|
  {
    if raw == [] then Some((clusters, singles))
    else
      match MemberIds(raw[0])
      case None => None
      case Some(ids) =>
        if |ids| < 2 then SplitClusters(raw[1..], clusters, AddNew(singles, ids))
        else SplitClusters(raw[1..], clusters + [WithMembers(raw[0].fields, ids)], singles)
  }

  function NormalizeAnswer(parsed: Json): Option<Answer> {
    if !parsed.Obj? then None
    else
      match Iterate(GetOrEmpty(parsed.fields, "clusters"))
      case None => None
      case Some(rawClusters) =>
        match SplitClusters(rawClusters, [], [])
        case None => None
        case Some((clusters, singles)) =>
          match Iterate(GetOrEmpty(parsed.fields, "singletons"))
          case None => None
          case Some(listed) =>
            if forall k | 0 <= k < |listed| :: Hashable(listed[k])
            then Some(Answer(BatchId(parsed.fields), clusters, AddNew(singles, listed)))
            else None
  }

  function BatchId(d: Fields): Json {
    match Get(d, "batch_id")
    case None => Null
    case Some(v) => v
  }

  method NormalizeParsedResult(parsed: Json) returns (r: Option<Answer>)
    ensures r == NormalizeAnswer(parsed)
  {
    if !parsed.Obj? {
      return None;
    }
    var rawClusters := Iterate(GetOrEmpty(parsed.fields, "clusters"));
    var rawSingletons := Iterate(GetOrEmpty(parsed.fields, "singletons"));
    if rawClusters.None? {
      return None;
    }
    var singletonIds: seq<Json>, seen: set<Json>, normalized: seq<Fields> := [], {}, [];
    for i := 0 to |rawClusters.value|
      invariant forall x :: x in seen <==> x in singletonIds
      invariant SplitClusters(rawClusters.value, [], []) ==
                SplitClusters(rawClusters.value[i..], normalized, singletonIds)
    {
      var memberIds := MemberIds(rawClusters.value[i]);
      if memberIds.None? {
        return None;
      }
      if |memberIds.value| < 2 {
        singletonIds, seen := AppendUnseen(singletonIds, seen, memberIds.value);
        continue;
      }
      normalized := normalized + [WithMembers(rawClusters.value[i].fields, memberIds.value)];
    }
    if rawSingletons.None? || exists k | 0 <= k < |rawSingletons.value| :: !Hashable(rawSingletons.value[k]) {
      return None;
    }
    singletonIds, seen := AppendUnseen(singletonIds, seen, rawSingletons.value);
    return Some(Answer(BatchId(parsed.fields), normalized, singletonIds));
  }

  method AppendUnseen(ids: seq<Json>, seen: set<Json>, more: seq<Json>) returns (r: seq<Json>, seenAfter: set<Json>)
    requires forall x :: x in seen <==> x in ids
    ensures r == AddNew(ids, more) && forall x :: x in seenAfter <==> x in r
  {
    r, seenAfter := ids, seen;
    for i := 0 to |more|
      invariant forall x :: x in seenAfter <==> x in r
      invariant AddNew(ids, more) == AddNew(r, more[i..])
    {
      if more[i] !in seenAfter {
        seenAfter := seenAfter + {more[i]};
        r := r + [more[i]];
      }
    }
  }

  // ----- what a normalised answer looks like -----

  lemma {:induction false} AddNewDistinct<T>(done: seq<T>, xs: seq<T>)
    requires Distinct(done)
    ensures Distinct(AddNew(done, xs))
    decreases |xs|
  {
    if xs != [] {
      AddNewDistinct(if xs[0] in done then done else done + [xs[0]], xs[1..]);
    }
  }

  lemma {:induction false} AddNewContents<T>(done: seq<T>, xs: seq<T>)
    ensures forall x :: x in AddNew(done, xs) <==> x in done || x in xs
    decreases |xs|
  {
    if xs != [] {
      AddNewContents(if xs[0] in done then done else done + [xs[0]], xs[1..]);
      assert xs == [xs[0]] + xs[1..];
    }
  }

  lemma {:induction false} AddNewOfNew<T>(done: seq<T>, xs: seq<T>)
    requires Distinct(done + xs)
    ensures AddNew(done, xs) == done + xs
    decreases |xs|
  {
    if xs == [] {
      assert done + xs == done;
    } else {
      assert forall k | 0 <= k < |done| :: (done + xs)[k] == done[k];
      assert (done + xs)[|done|] == xs[0];
      assert (done + [xs[0]]) + xs[1..] == done + xs;
      AddNewOfNew(done + [xs[0]], xs[1..]);
    }
  }

  /** `places` are those of the elements of `xs` that are neither in `done` nor earlier in `xs`. */
  ghost predicate FirstSeen<T>(done: seq<T>, xs: seq<T>, places: seq<nat>) {
    && (forall j, l | 0 <= j < l < |places| :: places[j] < places[l])
    && (forall j | 0 <= j < |places| :: places[j] < |xs|)
    && (forall p: nat | p < |xs| :: p in places <==> xs[p] !in done && xs[p] !in xs[..p])
  }

  /** What is added are the first occurrences of the elements that were not there, in their order. */
  lemma {:induction false} AddNewOrder<T>(done: seq<T>, xs: seq<T>) returns (places: seq<nat>)
    ensures FirstSeen(done, xs, places) && AddNew(done, xs) == done + Picks(xs, places)
    decreases |xs|
  {
    hide FirstSeen;
    if xs == [] {
      places := [];
      NothingSeen(done);
    } else if xs[0] in done {
      var later := AddNewOrder(done, xs[1..]);
      SeenAgain(done, xs, later);
      places := Shifted(later);
    } else {
      var later := AddNewOrder(done + [xs[0]], xs[1..]);
      SeenFirst(done, xs, later);
      places := [0] + Shifted(later);
    }
  }

  lemma NothingSeen<T>(done: seq<T>)
    ensures FirstSeen(done, [], []) && AddNew(done, []) == done + Picks([], [])
  {
  }

  lemma SeenAgain<T>(done: seq<T>, xs: seq<T>, later: seq<nat>)
    requires xs != [] && xs[0] in done && FirstSeen(done, xs[1..], later)
    ensures FirstSeen(done, xs, Shifted(later)) && Picks(xs, Shifted(later)) == Picks(xs[1..], later)
  {
    var places := Shifted(later);
    forall p: nat | p < |xs| ensures p in places <==> xs[p] !in done && xs[p] !in xs[..p] {
      ShiftedPlace(later, p);
      if p > 0 {
        PrefixHead(xs, p);
        assert xs[1..][p - 1] == xs[p];
      }
    }
  }

  lemma SeenFirst<T>(done: seq<T>, xs: seq<T>, later: seq<nat>)
    requires xs != [] && xs[0] !in done && FirstSeen(done + [xs[0]], xs[1..], later)
    ensures var places := [0] + Shifted(later);
            FirstSeen(done, xs, places) && done + Picks(xs, places) == (done + [xs[0]]) + Picks(xs[1..], later)
  {
    var places: seq<nat> := [0] + Shifted(later);
    FrontStaysIncreasing(later);
    forall p: nat | p < |xs| ensures p in places <==> xs[p] !in done && xs[p] !in xs[..p] {
      SeenAt(done, xs, later, p);
    }
    assert forall j | 0 <= j < |places| :: places[j] < |xs|;
    assert Picks(xs, places) == [xs[0]] + Picks(xs[1..], later) by {
      assert forall j | 1 <= j < |places| :: places[j] == later[j - 1] + 1;
    }
  }

  lemma SeenAt<T>(done: seq<T>, xs: seq<T>, later: seq<nat>, p: nat)
    requires xs != [] && xs[0] !in done && FirstSeen(done + [xs[0]], xs[1..], later) && p < |xs|
    ensures p in [0] + Shifted(later) <==> xs[p] !in done && xs[p] !in xs[..p]
  {
    ShiftedPlace(later, p);
    if p > 0 {
      PrefixHead(xs, p);
      assert xs[1..][p - 1] == xs[p];
      assert p in [0] + Shifted(later) <==> p - 1 in later;
      assert xs[p] !in done + [xs[0]] <==> xs[p] !in done && xs[p] != xs[0];
    } else {
      assert ([0] + Shifted(later))[0] == 0;
    }
  }

  lemma PrefixHead<T>(xs: seq<T>, p: nat)
    requires 0 < p <= |xs|
    ensures forall x :: x in xs[..p] <==> x == xs[0] || x in xs[1..][..p - 1]
  {
    assert xs[..p] == [xs[0]] + xs[1..][..p - 1];
  }

  predicate AllHashable(xs: seq<Json>) {
    forall k | 0 <= k < |xs| :: Hashable(xs[k])
  }

  /** A list of ids without repetition, as the program's sets and dictionaries can hold it. */
  predicate IdList(ids: seq<Json>) {
    Distinct(ids) && AllHashable(ids)
  }

  lemma AddNewIdList(done: seq<Json>, xs: seq<Json>)
    requires IdList(done) && AllHashable(xs)
    ensures IdList(AddNew(done, xs))
    ensures SetOf(AddNew(done, xs)) == SetOf(done) + SetOf(xs)
  {
    AddNewDistinct(done, xs);
    AddNewContents(done, xs);
    forall k | 0 <= k < |AddNew(done, xs)| ensures Hashable(AddNew(done, xs)[k]) {
      assert AddNew(done, xs)[k] in done || AddNew(done, xs)[k] in xs;
    }
  }

  /** A cluster dictionary with a list of at least two distinct members. */
  predicate ProperCluster(c: Fields) {
    && Get(c, MEMBERS).Some? && Get(c, MEMBERS).value.Arr?
    && |Elements(Get(c, MEMBERS).value.items)| >= 2 && IdList(Elements(Get(c, MEMBERS).value.items))
  }

  predicate ProperAnswer(a: Answer) {
    (forall i | 0 <= i < |a.clusters| :: ProperCluster(a.clusters[i])) && IdList(a.singletons)
  }

  /** The ids a cluster lists, repeated or not. */
  function MemberSet(cluster: Json): set<Json> {
    if !cluster.Obj? then {}
    else match Iterate(GetOrEmpty(cluster.fields, MEMBERS))
      case None => {}
      case Some(ids) => SetOf(ids)
  }

  /** All ids in a list of clusters. */
  function ClusterIds(raw: seq<Json>): set<Json> {
    if raw == [] then {} else MemberSet(raw[0]) + ClusterIds(raw[1..])
  }

  function AsRaw(clusters: seq<Fields>): (r: seq<Json>)
    ensures |r| == |clusters| && forall i | 0 <= i < |r| :: r[i] == Obj(clusters[i])
  {
    seq(|clusters|, i requires 0 <= i < |clusters| => Obj(clusters[i]))
  }

  lemma ProperMembers(c: Fields)
    requires ProperCluster(c)
    ensures MemberIds(Obj(c)) == Some(Elements(Get(c, MEMBERS).value.items))
  {
    var ids := Elements(Get(c, MEMBERS).value.items);
    assert [] + ids == ids;
    AddNewOfNew([], ids);
  }

  lemma WithMembersProper(c: Fields, ids: seq<Json>)
    requires |ids| >= 2 && IdList(ids)
    ensures ProperCluster(WithMembers(c, ids)) && MemberSet(Obj(WithMembers(c, ids))) == SetOf(ids)
  {
    ProperMembers(WithMembers(c, ids));
  }

  lemma MemberIdsFacts(cluster: Json)
    requires MemberIds(cluster).Some?
    ensures IdList(MemberIds(cluster).value) && SetOf(MemberIds(cluster).value) == MemberSet(cluster) && cluster.Obj?
  {
    AddNewIdList([], Iterate(GetOrEmpty(cluster.fields, MEMBERS)).value);
  }

  /** Splitting keeps every id, invents none, and leaves only proper clusters and distinct singletons. */
  lemma {:induction false} SplitFacts(raw: seq<Json>, clusters: seq<Fields>, singles: seq<Json>)
    requires SplitClusters(raw, clusters, singles).Some?
    requires (forall i | 0 <= i < |clusters| :: ProperCluster(clusters[i])) && IdList(singles)
    ensures var (cs, ss) := SplitClusters(raw, clusters, singles).value;
            && (forall i | 0 <= i < |cs| :: ProperCluster(cs[i])) && IdList(ss)
            && ClusterIds(AsRaw(cs)) + SetOf(ss) == ClusterIds(AsRaw(clusters)) + SetOf(singles) + ClusterIds(raw)
    decreases |raw|
  {
    hide AddNew, IdList, ProperCluster, AsRaw, WithMembers, MemberIds, MemberSet;
    if raw != [] {
      var ids := MemberIds(raw[0]).value;
      MemberIdsFacts(raw[0]);
      if |ids| < 2 {
        AddNewIds(singles, ids);
        SplitFacts(raw[1..], clusters, AddNew(singles, ids));
      } else {
        var c := WithMembers(raw[0].fields, ids);
        WithMembersProper(raw[0].fields, ids);
        SplitFacts(raw[1..], clusters + [c], singles);
        assert AsRaw(clusters + [c]) == AsRaw(clusters) + [Obj(c)];
        ClusterIdsAppend(AsRaw(clusters), Obj(c));
      }
    }
  }

  lemma AddNewIds(singles: seq<Json>, ids: seq<Json>)
    requires IdList(singles) && IdList(ids)
    ensures IdList(AddNew(singles, ids)) && SetOf(AddNew(singles, ids)) == SetOf(singles) + SetOf(ids)
  {
    AddNewIdList(singles, ids);
  }

  lemma {:induction false} ClusterIdsAppend(raw: seq<Json>, c: Json)
    ensures ClusterIds(raw + [c]) == ClusterIds(raw) + MemberSet(c)
  {
    if raw == [] {
      assert raw + [c] == [c];
      assert ClusterIds([c][1..]) == {};
    } else {
      assert (raw + [c])[1..] == raw[1..] + [c];
      ClusterIdsAppend(raw[1..], c);
    }
  }

  /** The ids a raw answer mentions, in clusters or as singletons. */
  function MentionedIds(parsed: Json): set<Json>
    requires NormalizeAnswer(parsed).Some?
  {
    ClusterIds(Iterate(GetOrEmpty(parsed.fields, "clusters")).value) +
    SetOf(Iterate(GetOrEmpty(parsed.fields, "singletons")).value)
  }

  /** Normalising leaves proper clusters and a list of distinct singletons, loses no id and invents none. */
  lemma NormalizedIsProper(parsed: Json)
    requires NormalizeAnswer(parsed).Some?
    ensures ProperAnswer(NormalizeAnswer(parsed).value)
    ensures var a := NormalizeAnswer(parsed).value;
            ClusterIds(AsRaw(a.clusters)) + SetOf(a.singletons) == MentionedIds(parsed)
  {
    hide AddNew, IdList, ProperCluster, AsRaw, ClusterIds, Iterate, SplitClusters;
    var raw := Iterate(GetOrEmpty(parsed.fields, "clusters")).value;
    var listed := Iterate(GetOrEmpty(parsed.fields, "singletons")).value;
    EmptySplit();
    SplitFacts(raw, [], []);
    AddNewIdList(SplitClusters(raw, [], []).value.1, listed);
  }

  lemma EmptySplit()
    ensures IdList([]) && ClusterIds(AsRaw([])) == {}
  {
  }

  // ----- normalising again -----

  /** The normalised answer as the JSON value that is written to the parsed file. */
  function AnswerJson(a: Answer): Json {
    Obj(Entry("batch_id", a.batchId,
        Entry("clusters", Arr(ToItems(AsRaw(a.clusters))),
        Entry("singletons", Arr(ToItems(a.singletons)), Empty))))
  }

  lemma {:induction false} PutSame(d: Fields, k: string, v: Json)
    requires Get(d, k) == Some(v)
    ensures Put(d, k, v) == d
  {
    if d.key != k {
      PutSame(d.rest, k, v);
    }
  }

  lemma {:induction false} ToItemsElements(items: Items)
    ensures ToItems(Elements(items)) == items
  {
    match items
    case Nil =>
    case Cons(v, rest) =>
      assert Elements(items)[1..] == Elements(rest);
      ToItemsElements(rest);
  }

  lemma ProperStays(c: Fields)
    requires ProperCluster(c)
    ensures WithMembers(c, MemberIds(Obj(c)).value) == c
  {
    ProperMembers(c);
    ToItemsElements(Get(c, MEMBERS).value.items);
    PutSame(c, MEMBERS, Get(c, MEMBERS).value);
  }

  lemma {:induction false} SplitProper(clusters: seq<Fields>, done: seq<Fields>, singles: seq<Json>)
    requires forall i | 0 <= i < |clusters| :: ProperCluster(clusters[i])
    ensures SplitClusters(AsRaw(clusters), done, singles) == Some((done + clusters, singles))
    decreases |clusters|
  {
    if clusters == [] {
      assert done + clusters == done;
    } else {
      var c := clusters[0];
      ProperMembers(c);
      ProperStays(c);
      assert AsRaw(clusters)[1..] == AsRaw(clusters[1..]);
      assert done + [c] + clusters[1..] == done + clusters;
      SplitProper(clusters[1..], done + [c], singles);
    }
  }

  /** Reading a written answer back and normalising it again gives the same answer. */
  lemma NormalizeIdempotent(parsed: Json)
    requires NormalizeAnswer(parsed).Some?
    ensures NormalizeAnswer(AnswerJson(NormalizeAnswer(parsed).value)) == NormalizeAnswer(parsed)
  {
    hide ProperCluster, SplitClusters, AddNew, ToItems, MemberIds, Get, AsRaw, Hashable, MentionedIds, ClusterIds;
    NormalizedIsProper(parsed);
    var a := NormalizeAnswer(parsed).value;
    AnswerLookups(a);
    SplitProper(a.clusters, [], []);
    assert [] + a.clusters == a.clusters;
    assert [] + a.singletons == a.singletons;
    AddNewOfNew([], a.singletons);
  }

  lemma AnswerLookups(a: Answer)
    ensures var d := AnswerJson(a).fields;
            && Get(d, "batch_id") == Some(a.batchId)
            && Get(d, "clusters") == Some(Arr(ToItems(AsRaw(a.clusters))))
            && Get(d, "singletons") == Some(Arr(ToItems(a.singletons)))
  {
    hide ToItems, AsRaw;
    var tail := Entry("singletons", Arr(ToItems(a.singletons)), Empty);
    assert Get(tail, "singletons") == Some(Arr(ToItems(a.singletons)));
  }

  // ----- from text to answer -----

  /** What becomes of a response: the program catches unparseable text, but not an answer of the wrong shape. */
  datatype Outcome = Parsed(answer: Answer) | Unparseable | Malformed

  function ParseResponseText(fl: FloatReader, text: string): Outcome {
    match FencedText.ExtractJsonText(text)
    case None => Unparseable
    case Some(jsonText) =>
      match Loads(fl, jsonText)
      case None => Unparseable
      case Some(v) =>
        match NormalizeAnswer(v)
        case None => Malformed
        case Some(a) => Parsed(a)
  }

  /**
   A response is unparseable exactly when no object is found in it or the object does not load, and malformed exactly
   when the object loads but cannot be normalised.
   */
  lemma OutcomesExactly(fl: FloatReader, text: string)
    ensures var found := FencedText.ExtractJsonText(text);
            && (ParseResponseText(fl, text) == Unparseable <==> found.None? || Loads(fl, found.value).None?)
            && (ParseResponseText(fl, text) == Malformed <==>
                  found.Some? && Loads(fl, found.value).Some? && NormalizeAnswer(Loads(fl, found.value).value).None?)
            && (forall a :: ParseResponseText(fl, text) == Parsed(a) <==>
                  found.Some? && Loads(fl, found.value).Some? &&
                  NormalizeAnswer(Loads(fl, found.value).value) == Some(a))
  {
    hide FencedText.ExtractJsonText, Loads, NormalizeAnswer;
  }

  /** A response without an opening brace is unparseable. */
  lemma NoBraceIsUnparseable(fl: FloatReader, text: string)
    requires '{' !in text
    ensures ParseResponseText(fl, text) == Unparseable
  {
    hide FencedText.ExtractJsonText;
    FencedText.NoBraceNoObject(text);
  }

  /** So is prose around an object text that does not load. */
  lemma BrokenObjectIsUnparseable(fl: FloatReader, p: string, o: string, q: string)
    requires '{' !in p && ResponseText.ObjectText(o) && Loads(fl, o).None? && FencedText.LStrip(p) != ""
    requires !(FencedText.FENCE <= FencedText.LStrip(p))
    requires FencedText.FindText(p + o + q, FencedText.JSON_FENCE) == None
    ensures ParseResponseText(fl, p + o + q) == Unparseable
  {
    hide FencedText.ExtractJsonText, FencedText.FindText, Loads, FencedText.LStrip, ResponseText.ObjectText;
    FencedText.UnfencedExactly(p, o, q);
  }

  /** An object that the model sends bare is malformed exactly when it cannot be normalised. */
  lemma PrintedAnswerOutcome(fl: FloatReader, v: Json)
    requires v.Obj? && Readable(fl, v)
    ensures ParseResponseText(fl, Print(v)) ==
            match NormalizeAnswer(v) case None => Malformed case Some(a) => Parsed(a)
  {
    hide NormalizeAnswer, Print, FencedText.ExtractJsonText, Readable;
    ResponseText.PrintedIsObjectText(fl, v);
    FencedText.BareObject(Print(v));
    LoadsPrinted(fl, v);
  }

  /** For instance this one, whose clusters are a number. */
  lemma NumberOfClustersIsMalformed(fl: FloatReader)
    ensures ParseResponseText(fl, "{\"clusters\":5}") == Malformed
  {
    var d := Entry("clusters", Num(Integer(5)), Empty);
    ClustersText();
    PrintedAnswerOutcome(fl, Obj(d));
    hide ParseResponseText;
    assert GetOrEmpty(d, "clusters") == Num(Integer(5));
  }

  lemma ClustersText()
    ensures Print(Obj(Entry("clusters", Num(Integer(5)), Empty))) == "{\"clusters\":5}"
  {
    hide Escape, PrintNat;
    PlainStays("clusters");
    DigitFive();
  }

  lemma DigitFive()
    ensures PrintNat(5) == "5"
  {
  }

  lemma {:induction false} PlainStays(s: string)
    requires forall k | 0 <= k < |s| :: EscapeChar(s[k]) == [s[k]]
    ensures Escape(s) == s
  {
    hide EscapeChar;
    if s != "" {
      PlainStays(s[1..]);
      assert s == [s[0]] + s[1..];
    }
  }

  /** A response whose file ends in a newline is parsed as when it arrived. */
  lemma SavedResponseParsesTheSame(fl: FloatReader, text: string)
    ensures ParseResponseText(fl, text + "\n") == ParseResponseText(fl, text)
  {
    FencedText.TrailingNewlineIgnored(text);
  }

  /** Reading a file turns all line ends into newlines, and that does not change the outcome either. */
  lemma ReadBackParsesTheSame(fl: FloatReader, file: string)
    ensures ParseResponseText(fl, NewlineText.ReadText(file)) == ParseResponseText(fl, file)
  {
    hide FencedText.ExtractJsonText, NewlineText.ReadText, Loads, NormalizeAnswer;
    NewlineText.ExtractReads(file);
    if FencedText.ExtractJsonText(file).Some? {
      NewlineText.LoadsReads(fl, FencedText.ExtractJsonText(file).value);
    }
  }
}

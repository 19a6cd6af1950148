/**
 Greedy clustering of feed items around representatives (scripts/run_news_eval.py).
 */
module NewsClusters {
  import opened Options

  /**
   A feed item, with what other modules compute from it: its exact relation key, the text that is
   embedded, its title tokens, and its normalised domain and source ("" when it has none).
   */
  datatype Item = Item(
    id: Option<int>, ingestedAt: Option<nat>, exactKey: Option<string>, text: string,
    tokens: set<string>, domain: string, source: string)

  datatype Config = Config(
    primary: real, secondary: real, requireGuard: bool, minOverlap: int, allowShortcut: bool, blockConflicts: bool)

  /** The embedding model: whether it returns vectors at all, and their dot products. */
  datatype Encoder = Encoder(available: bool, similarity: (string, string) -> real)

  function GuardPasses(left: Item, right: Item, cfg: Config): bool {
    || |left.tokens * right.tokens| >= cfg.minOverlap
    || (cfg.allowShortcut && ((left.domain != "" && left.domain == right.domain) ||
                              (left.source != "" && left.source == right.source)))
  }

  predicate Blocked(item: Item, rep: Item, cfg: Config) {
    cfg.blockConflicts && item.exactKey.Some? && rep.exactKey.Some? && item.exactKey != rep.exactKey
  }

  /** May the item join this representative on its score? */
  predicate Eligible(item: Item, rep: Item, cfg: Config, enc: Encoder) {
    var score := enc.similarity(item.text, rep.text);
    && !Blocked(item, rep, cfg)
    && ((score >= cfg.primary && (cfg.requireGuard ==> GuardPasses(item, rep, cfg))) ||
        (score >= cfg.secondary && GuardPasses(item, rep, cfg)))
  }

  /** The first representative with the item's exact key. */
  function ExactMatch(item: Item, reps: seq<Item>): (r: Option<nat>)
    ensures r.Some? ==> r.value < |reps| && item.exactKey.Some? && reps[r.value].exactKey == item.exactKey
    ensures r.Some? ==> forall j | 0 <= j < r.value :: reps[j].exactKey != item.exactKey
    ensures r.None? && item.exactKey.Some? ==> forall j | 0 <= j < |reps| :: reps[j].exactKey != item.exactKey
  {
    if item.exactKey.None? || reps == [] then None
    else if reps[0].exactKey == item.exactKey then Some(0)
    else match ExactMatch(item, reps[1..])
      case None => None
      case Some(k) => Some(k + 1)
  }

  predicate Candidate(item: Item, reps: seq<Item>, cfg: Config, enc: Encoder, k: nat)
    requires k < |reps|
  {
    Eligible(item, reps[k], cfg, enc) && enc.similarity(item.text, reps[k].text) > -1.0
  }

  /** The first candidate of maximal score among the first `n` representatives. */
  ghost predicate IsBest(item: Item, reps: seq<Item>, n: nat, cfg: Config, enc: Encoder, r: Option<nat>)
    requires n <= |reps|
  {
    match r
    case None => forall j: nat | j < n :: !Candidate(item, reps, cfg, enc, j)
    case Some(k) =>
      && k < n && Candidate(item, reps, cfg, enc, k)
      && forall j: nat | j < n && Candidate(item, reps, cfg, enc, j) ::
           enc.similarity(item.text, reps[j].text) <= enc.similarity(item.text, reps[k].text)
           && (j < k ==> enc.similarity(item.text, reps[j].text) < enc.similarity(item.text, reps[k].text))
  }

  /** The representative the item is assigned to: an exact match, else the best candidate, if there are vectors. */
  ghost predicate IsRelated(item: Item, reps: seq<Item>, cfg: Config, enc: Encoder, r: Option<nat>) {
    if ExactMatch(item, reps).Some? then r == ExactMatch(item, reps)
    else if reps == [] || !enc.available then r == None
    else IsBest(item, reps, |reps|, cfg, enc, r)
  }

  /** That representative is unique, so the single pass with its early exits computes a function of its inputs. */
  lemma RelatedIsUnique(item: Item, reps: seq<Item>, cfg: Config, enc: Encoder, r: Option<nat>, q: Option<nat>)
    requires IsRelated(item, reps, cfg, enc, r) && IsRelated(item, reps, cfg, enc, q)
    ensures r == q
  {
    hide Candidate;
  }

  /** `_find_related_representative`, by the position of the representative it returns. */
  method FindRelatedRepresentative(item: Item, reps: seq<Item>, cfg: Config, enc: Encoder) returns (r: Option<nat>)
    ensures IsRelated(item, reps, cfg, enc, r)
  {
    if reps == [] {
      return None;
    }
    if item.exactKey.Some? {
      for index := 0 to |reps|
        invariant forall j | 0 <= j < index :: reps[j].exactKey != item.exactKey
      {
        if reps[index].exactKey == item.exactKey {
          return Some(index);
        }
      }
    }
    if !enc.available {
      return None;
    }
    var bestScore := -1.0;
    r := None;
    for index := 0 to |reps|
      invariant IsBest(item, reps, index, cfg, enc, r)
      invariant bestScore == if r.Some? then enc.similarity(item.text, reps[r.value].text) else -1.0
    {
      ghost var before := r;
      var rep := reps[index];
      var passesGuard := GuardPasses(item, rep, cfg);
      var score := enc.similarity(item.text, rep.text);
      if cfg.blockConflicts && item.exactKey.Some? && rep.exactKey.Some? && item.exactKey != rep.exactKey {
        BestExtends(item, reps, cfg, enc, before, r, index);
        continue;
      }
      if score >= cfg.primary && score > bestScore {
        if cfg.requireGuard && !passesGuard {
          BestExtends(item, reps, cfg, enc, before, r, index);
          continue;
        }
        r, bestScore := Some(index), score;
        BestExtends(item, reps, cfg, enc, before, r, index);
        continue;
      }
      if score >= cfg.secondary && score > bestScore && passesGuard {
        r, bestScore := Some(index), score;
      }
      BestExtends(item, reps, cfg, enc, before, r, index);
    }
  }

  /** One more representative is looked at: it wins exactly when it is a candidate with a higher score. */
  lemma BestExtends(item: Item, reps: seq<Item>, cfg: Config, enc: Encoder, r: Option<nat>, q: Option<nat>, index: nat)
    requires index < |reps| && IsBest(item, reps, index, cfg, enc, r)
    requires var score := enc.similarity(item.text, reps[index].text);
             var best := if r.Some? then enc.similarity(item.text, reps[r.value].text) else -1.0;
             q == if Eligible(item, reps[index], cfg, enc) && score > best then Some(index) else r
    ensures IsBest(item, reps, index + 1, cfg, enc, q)
  {
    hide Eligible;
  }

  /** With thresholds above -1, every eligible representative is a candidate. */
  lemma CandidatesAreEligible(item: Item, reps: seq<Item>, cfg: Config, enc: Encoder, k: nat)
    requires k < |reps| && cfg.primary > -1.0 && cfg.secondary > -1.0
    ensures Candidate(item, reps, cfg, enc, k) <==> Eligible(item, reps[k], cfg, enc)
  {
  }

  // ----- the order of the items -----

  function SortKey(item: Item): (nat, int) {
    (match item.ingestedAt case None => 0 case Some(t) => t, match item.id case None => 0 case Some(id) => id)
  }

  predicate Before(a: Item, b: Item) {
    SortKey(a).0 < SortKey(b).0 || (SortKey(a).0 == SortKey(b).0 && SortKey(a).1 <= SortKey(b).1)
  }

  predicate InOrder(items: seq<Item>) {
    forall i, j | 0 <= i < j < |items| :: Before(items[i], items[j])
  }

  function InsertItem(items: seq<Item>, item: Item): (r: seq<Item>)
    ensures multiset(r) == multiset(items) + multiset{item}
  {
    if items == [] then [item]
    else if Before(item, items[0]) then [item] + items
    else
      assert items == [items[0]] + items[1..];
      [items[0]] + InsertItem(items[1..], item)
  }

  lemma {:induction false} InsertKeepsOrder(items: seq<Item>, item: Item)
    requires InOrder(items)
    ensures InOrder(InsertItem(items, item))
  {
    if items != [] && !Before(item, items[0]) {
      var rest := InsertItem(items[1..], item);
      InsertKeepsOrder(items[1..], item);
      forall i | 0 <= i < |rest| ensures Before(items[0], rest[i]) {
        assert rest[i] in multiset(rest);
        if rest[i] != item {
          assert rest[i] in items[1..];
        }
      }
    }
  }

  /** The items by ingestion time and id; items with equal keys keep their order. */
  function Sorted(items: seq<Item>): (r: seq<Item>)
    ensures multiset(r) == multiset(items) && InOrder(r)
  {
    if items == [] then []
    else
      assert items == [items[0]] + items[1..];
      InsertKeepsOrder(Sorted(items[1..]), items[0]);
      InsertItem(Sorted(items[1..]), items[0])
  }

  predicate AtKey(item: Item, time: nat, id: int) {
    SameTime(item, time) && SameId(item, id)
  }

  /** The items ingested at one time that have one id, in their order. */
  function AtTime(items: seq<Item>, time: nat, id: int): seq<Item> {
    if items == [] then []
    else (if AtKey(items[0], time, id) then [items[0]] else []) + AtTime(items[1..], time, id)
  }

  /** An item without a time has the earliest one, 0. */
  predicate SameTime(item: Item, time: nat) {
    item.ingestedAt == Some(time) || (item.ingestedAt.None? && time == 0)
  }

  predicate SameId(item: Item, id: int) {
    item.id == Some(id) || (item.id.None? && id == 0)
  }

  /** Sorting is stable: items of the same time and id keep their order. */
  lemma {:induction false} SortedIsStable(items: seq<Item>, time: nat, id: int)
    ensures AtTime(Sorted(items), time, id) == AtTime(items, time, id)
  {
    if items != [] {
      SortedIsStable(items[1..], time, id);
      InsertIsStable(Sorted(items[1..]), items[0], time, id);
      AtTimeUnfolds(items[0], items[1..], time, id);
      assert items == [items[0]] + items[1..];
    }
  }

  lemma {:induction false} InsertIsStable(items: seq<Item>, item: Item, time: nat, id: int)
    ensures AtTime(InsertItem(items, item), time, id) ==
            (if AtKey(item, time, id) then [item] else []) + AtTime(items, time, id)
  {
    hide SortKey, SameTime, SameId, Before, AtTime, InsertItem;
    InsertUnfolds(items, item);
    if items == [] || Before(item, items[0]) {
      AtTimeUnfolds(item, items, time, id);
      assert [item] + items == InsertItem(items, item);
    } else {
      assert items == [items[0]] + items[1..];
      InsertIsStable(items[1..], item, time, id);
      AtTimeUnfolds(items[0], InsertItem(items[1..], item), time, id);
      AtTimeUnfolds(items[0], items[1..], time, id);
      NotBothAt(item, items[0], time, id);
    }
  }

  lemma InsertUnfolds(items: seq<Item>, item: Item)
    ensures InsertItem(items, item) ==
            if items == [] || Before(item, items[0]) then [item] + items
            else [items[0]] + InsertItem(items[1..], item)
  {
    hide Before;
  }

  lemma AtTimeUnfolds(item: Item, rest: seq<Item>, time: nat, id: int)
    ensures AtTime([item] + rest, time, id) ==
            (if AtKey(item, time, id) then [item] else []) + AtTime(rest, time, id)
  {
    hide SameTime, SameId;
    assert ([item] + rest)[1..] == rest;
  }

  lemma NotBothAt(item: Item, other: Item, time: nat, id: int)
    requires !Before(item, other)
    ensures !(AtKey(item, time, id) && AtKey(other, time, id))
  {
  }

  // ----- who may join -----

  /**
   Two items pass the guard exactly when they share enough title tokens, or the shortcut is allowed and they have the
   same domain or the same source.
   */
  lemma GuardExactly(left: Item, right: Item, cfg: Config)
    ensures GuardPasses(left, right, cfg) <==>
            || (exists shared: set<string> ::
                  shared <= left.tokens && shared <= right.tokens && |shared| >= cfg.minOverlap)
            || (cfg.allowShortcut && left.domain == right.domain != "")
            || (cfg.allowShortcut && left.source == right.source != "")
  {
    var common := left.tokens * right.tokens;
    assert common <= left.tokens && common <= right.tokens;
    forall shared: set<string> | shared <= left.tokens && shared <= right.tokens ensures |shared| <= |common| {
      SubsetSize(shared, common);
    }
  }

  lemma {:induction false} SubsetSize(a: set<string>, b: set<string>)
    requires a <= b
    ensures |a| <= |b|
  {
    if a != {} {
      var x :| x in a;
      SubsetSize(a - {x}, b - {x});
    }
  }

  /**
   With the guard, the lower threshold is enough; without it, the first one must be reached and the guard not be
   required; conflicting keys exclude both where they block.
   */
  lemma EligibleExactly(item: Item, rep: Item, cfg: Config, enc: Encoder)
    ensures var score := enc.similarity(item.text, rep.text);
            var conflict := item.exactKey.Some? && rep.exactKey.Some? && item.exactKey.value != rep.exactKey.value;
            && (cfg.blockConflicts && conflict ==> !Eligible(item, rep, cfg, enc))
            && (!(cfg.blockConflicts && conflict) && GuardPasses(item, rep, cfg) ==>
                  (Eligible(item, rep, cfg, enc) <==>
                     score >= if cfg.primary <= cfg.secondary then cfg.primary else cfg.secondary))
            && (!(cfg.blockConflicts && conflict) && !GuardPasses(item, rep, cfg) ==>
                  (Eligible(item, rep, cfg, enc) <==> score >= cfg.primary && !cfg.requireGuard))
  {
    hide GuardPasses;
  }

  // ----- clusters -----

  predicate Nonempty(groups: seq<seq<Item>>) {
    forall i | 0 <= i < |groups| :: groups[i] != []
  }

  function Representatives(groups: seq<seq<Item>>): (r: seq<Item>)
    requires Nonempty(groups)
    ensures |r| == |groups| && forall i | 0 <= i < |r| :: r[i] == groups[i][0]
  {
    seq(|groups|, i requires 0 <= i < |groups| => groups[i][0])
  }

  /** The groups after one more item: it joins the related representative or starts a group. */
  function Joined(groups: seq<seq<Item>>, item: Item, k: Option<nat>): seq<seq<Item>>
    requires k.Some? ==> k.value < |groups|
  {
    match k
    case None => groups + [[item]]
    case Some(i) => groups[i := groups[i] + [item]]
  }

  ghost predicate Step(
    groups: seq<seq<Item>>, item: Item, cfg: Config, enc: Encoder, k: Option<nat>, after: seq<seq<Item>>) {
    && Nonempty(groups) && (k.Some? ==> k.value < |groups|)
    && IsRelated(item, Representatives(groups), cfg, enc, k)
    && after == Joined(groups, item, k)
  }

  function Flatten(groups: seq<seq<Item>>): multiset<Item> {
    if groups == [] then multiset{} else multiset(groups[0]) + Flatten(groups[1..])
  }

  /** What the groups of the items seen so far always satisfy. */
  ghost predicate WellGrouped(seen: seq<Item>, groups: seq<seq<Item>>, cfg: Config, enc: Encoder) {
    && Nonempty(groups)
    && Flatten(groups) == multiset(seen)
    && (forall g | 0 <= g < |groups| :: InOrder(groups[g]))
    && (forall g, h | 0 <= g < h < |groups| && groups[g][0].exactKey.Some? ::
       groups[g][0].exactKey != groups[h][0].exactKey)
    && (forall g, m | 0 <= g < |groups| && 0 < m < |groups[g]| :: Linked(groups[g][m], groups[g][0], cfg, enc))
  }

  /** Why a member belongs to its representative: the same exact key, or an eligible score. */
  predicate Linked(item: Item, rep: Item, cfg: Config, enc: Encoder) {
    || (item.exactKey.Some? && item.exactKey == rep.exactKey)
    || (enc.available && Eligible(item, rep, cfg, enc))
  }

  lemma {:induction false} FlattenUpdate(groups: seq<seq<Item>>, k: nat, item: Item)
    requires k < |groups|
    ensures Flatten(groups[k := groups[k] + [item]]) == Flatten(groups) + multiset{item}
  {
    var after := groups[k := groups[k] + [item]];
    if k == 0 {
      assert after[1..] == groups[1..];
    } else {
      assert after[1..] == groups[1..][k - 1 := groups[1..][k - 1] + [item]];
      FlattenUpdate(groups[1..], k - 1, item);
    }
  }

  lemma {:induction false} FlattenAppend(groups: seq<seq<Item>>, group: seq<Item>)
    ensures Flatten(groups + [group]) == Flatten(groups) + multiset(group)
  {
    if groups == [] {
      assert (groups + [group])[1..] == [];
    } else {
      assert (groups + [group])[1..] == groups[1..] + [group];
      FlattenAppend(groups[1..], group);
    }
  }

  lemma {:induction false} InFlatten(groups: seq<seq<Item>>, g: nat, x: Item)
    requires g < |groups| && x in groups[g]
    ensures x in Flatten(groups)
  {
    if g > 0 {
      InFlatten(groups[1..], g - 1, x);
    }
  }

  /** Each item keeps the groups well formed when the items come in order. */
  lemma StepKeepsGroups(
    seen: seq<Item>, item: Item, groups: seq<seq<Item>>, k: Option<nat>, after: seq<seq<Item>>, cfg: Config,
    enc: Encoder)
    requires WellGrouped(seen, groups, cfg, enc) && InOrder(seen + [item])
    requires Step(groups, item, cfg, enc, k, after)
    ensures WellGrouped(seen + [item], after, cfg, enc)
  {
    hide Linked, InOrder, Flatten, IsRelated, Before;
    match k
    case None =>
      FlattenAppend(groups, [item]);
      KeyIsNew(item, Representatives(groups), cfg, enc);
      SingletonInOrder(item);
    case Some(i) =>
      FlattenUpdate(groups, i, item);
      MatchIsLinked(item, Representatives(groups), cfg, enc, i);
      GroupStaysInOrder(seen, groups, i, item);
      assert forall g | 0 <= g < |groups| :: after[g][0] == groups[g][0];
  }

  lemma SingletonInOrder(item: Item)
    ensures InOrder([item])
  {
  }

  lemma MatchIsLinked(item: Item, reps: seq<Item>, cfg: Config, enc: Encoder, k: nat)
    requires k < |reps| && IsRelated(item, reps, cfg, enc, Some(k))
    ensures Linked(item, reps[k], cfg, enc)
  {
    hide Eligible;
  }

  lemma GroupStaysInOrder(seen: seq<Item>, groups: seq<seq<Item>>, i: nat, item: Item)
    requires i < |groups| && Flatten(groups) == multiset(seen) && InOrder(groups[i]) && InOrder(seen + [item])
    ensures InOrder(groups[i] + [item])
  {
    hide Flatten, Before;
    forall m | 0 <= m < |groups[i]| ensures Before(groups[i][m], item) {
      InFlatten(groups, i, groups[i][m]);
      assert groups[i][m] in multiset(seen);
      var j :| 0 <= j < |seen| && seen[j] == groups[i][m];
      assert (seen + [item])[j] == seen[j] && (seen + [item])[|seen|] == item;
    }
  }

  lemma KeyIsNew(item: Item, reps: seq<Item>, cfg: Config, enc: Encoder)
    requires IsRelated(item, reps, cfg, enc, None)
    ensures item.exactKey.Some? ==> forall j | 0 <= j < |reps| :: reps[j].exactKey != item.exactKey
  {
  }

  /** With conflicting keys blocked, no member's key differs from its representative's. */
  lemma MemberKeysAgree(seen: seq<Item>, groups: seq<seq<Item>>, cfg: Config, enc: Encoder, g: nat, m: nat)
    requires WellGrouped(seen, groups, cfg, enc) && cfg.blockConflicts && g < |groups| && m < |groups[g]|
    ensures groups[g][m].exactKey.Some? && groups[g][0].exactKey.Some? ==>
            groups[g][m].exactKey == groups[g][0].exactKey
  {
    if m > 0 {
      assert Linked(groups[g][m], groups[g][0], cfg, enc);
    }
  }

  /**
   The first item was ingested earlier, or at the same time and its id is not larger. An item without a time comes
   before all others, but for those of the earliest time there is, which is 0; a missing id counts as 0.
   */
  predicate NotAfter(a: Item, b: Item) {
    var id, other := if a.id.Some? then a.id.value else 0, if b.id.Some? then b.id.value else 0;
    match (a.ingestedAt, b.ingestedAt)
    case (Some(t), Some(u)) => t < u || (t == u && id <= other)
    case (None, Some(u)) => u > 0 || id <= other
    case (Some(t), None) => t == 0 && id <= other
    case (None, None) => id <= other
  }

  /** The representative of a group is its earliest member. */
  lemma RepresentativeIsEarliest(seen: seq<Item>, groups: seq<seq<Item>>, cfg: Config, enc: Encoder, g: nat, m: nat)
    requires WellGrouped(seen, groups, cfg, enc) && g < |groups| && m < |groups[g]|
    ensures NotAfter(groups[g][0], groups[g][m])
  {
    if m > 0 {
      assert InOrder(groups[g]);
    }
  }

  /** In the grouping of a feed, in whatever order its items come, every group is led by its earliest item. */
  lemma LeaderIsEarliest(items: seq<Item>, groups: seq<seq<Item>>, cfg: Config, enc: Encoder, g: nat, m: nat)
    requires Grouped(Sorted(items), groups, cfg, enc) && g < |groups| && m < |groups[g]|
    ensures NotAfter(groups[g][0], groups[g][m])
  {
    hide Grouped, WellGrouped, NotAfter;
    GroupedIsWellGrouped(Sorted(items), groups, cfg, enc);
    RepresentativeIsEarliest(Sorted(items), groups, cfg, enc, g, m);
  }

  // ----- the grouping -----

  /** The grouping the items lead to, one by one: each joins the representative it is related to, or becomes one. */
  ghost predicate Grouped(seen: seq<Item>, groups: seq<seq<Item>>, cfg: Config, enc: Encoder)
    decreases |seen|
  {
    if seen == [] then groups == []
    else exists before, k :: Step(before, Last(seen), cfg, enc, k, groups) && Grouped(Front(seen), before, cfg, enc)
  }

  function Last(items: seq<Item>): Item
    requires items != []
  {
    items[|items| - 1]
  }

  function Front(items: seq<Item>): (r: seq<Item>)
    requires items != []
    ensures |r| == |items| - 1 && items == r + [Last(items)]
  {
    items[..|items| - 1]
  }

  /** There is one such grouping. */
  lemma {:induction false} GroupedIsUnique(
    seen: seq<Item>, groups: seq<seq<Item>>, other: seq<seq<Item>>, cfg: Config, enc: Encoder)
    requires Grouped(seen, groups, cfg, enc) && Grouped(seen, other, cfg, enc)
    ensures groups == other
    decreases |seen|
  {
    if seen != [] {
      var b, k :| Step(b, Last(seen), cfg, enc, k, groups) && Grouped(Front(seen), b, cfg, enc);
      var c, l :| Step(c, Last(seen), cfg, enc, l, other) && Grouped(Front(seen), c, cfg, enc);
      hide Grouped, IsRelated;
      GroupedIsUnique(Front(seen), b, c, cfg, enc);
      RelatedIsUnique(Last(seen), Representatives(b), cfg, enc, k, l);
    }
  }

  /** For items in order, it partitions them around earliest members, with distinct keys and linked members. */
  lemma {:induction false} GroupedIsWellGrouped(seen: seq<Item>, groups: seq<seq<Item>>, cfg: Config, enc: Encoder)
    requires Grouped(seen, groups, cfg, enc) && InOrder(seen)
    ensures WellGrouped(seen, groups, cfg, enc)
    decreases |seen|
  {
    if seen == [] {
      NoGroups(cfg, enc);
    } else {
      var before, k :| Step(before, Last(seen), cfg, enc, k, groups) && Grouped(Front(seen), before, cfg, enc);
      FrontInOrder(seen);
      hide Grouped, WellGrouped, Step, InOrder;
      GroupedIsWellGrouped(Front(seen), before, cfg, enc);
      StepKeepsGroups(Front(seen), Last(seen), before, k, groups, cfg, enc);
    }
  }

  lemma FrontInOrder(items: seq<Item>)
    requires items != [] && InOrder(items)
    ensures InOrder(Front(items))
  {
    hide Before;
    forall i, j | 0 <= i < j < |Front(items)| ensures Before(Front(items)[i], Front(items)[j]) {
      assert Before(items[i], items[j]);
    }
  }

  lemma NoGroups(cfg: Config, enc: Encoder)
    ensures WellGrouped([], [], cfg, enc)
  {
  }

  lemma NextGrouped(
    ordered: seq<Item>, i: nat, groups: seq<seq<Item>>, k: Option<nat>, after: seq<seq<Item>>, cfg: Config,
    enc: Encoder)
    requires i < |ordered| && Grouped(ordered[..i], groups, cfg, enc) && Step(groups, ordered[i], cfg, enc, k, after)
    ensures Grouped(ordered[..i + 1], after, cfg, enc)
  {
    hide Step, Front, Last;
    FrontOfPrefix(ordered, i);
  }

  lemma FrontOfPrefix(ordered: seq<Item>, i: nat)
    requires i < |ordered|
    ensures Front(ordered[..i + 1]) == ordered[..i] && Last(ordered[..i + 1]) == ordered[i]
  {
    assert ordered[..i + 1][..i] == ordered[..i];
  }

  // ----- the loop, with the program's dictionary -----

  /** No two groups have representatives with the same id. */
  predicate RepresentativesApart(groups: seq<seq<Item>>)
    requires Nonempty(groups)
  {
    forall g, h | 0 <= g < h < |groups| :: groups[g][0].id != groups[h][0].id
  }

  ghost predicate KeysApart(keys: seq<int>, table: map<int, seq<Item>>) {
    && (forall i, j | 0 <= i < j < |keys| :: keys[i] != keys[j])
    && (forall j | 0 <= j < |keys| :: keys[j] in table)
    && (forall id | id in table :: id in keys)
  }

  /** The dictionary's values, in the order of its keys. */
  function ValuesOf(keys: seq<int>, table: map<int, seq<Item>>): (r: seq<seq<Item>>)
    requires forall j | 0 <= j < |keys| :: keys[j] in table
    ensures |r| == |keys| && forall j | 0 <= j < |r| :: r[j] == table[keys[j]]
  {
    seq(|keys|, j requires 0 <= j < |keys| => table[keys[j]])
  }

  /**
   The dictionary after `n` items: it holds the groups if their representatives have distinct ids;
   otherwise a group has been overwritten, and items are missing.
   */
  ghost predicate TableAgrees(groups: seq<seq<Item>>, keys: seq<int>, table: map<int, seq<Item>>, n: nat) {
    && Nonempty(groups) && KeysApart(keys, table) && Nonempty(ValuesOf(keys, table))
    && (forall g | 0 <= g < |groups| :: groups[g][0].id.Some? && groups[g][0].id.value in table)
    && |Flatten(ValuesOf(keys, table))| <= n
    && if RepresentativesApart(groups)
       then ValuesOf(keys, table) == groups && forall j | 0 <= j < |keys| :: groups[j][0].id == Some(keys[j])
       else |Flatten(ValuesOf(keys, table))| < n
  }

  /** One more item in the dictionary: a leader sets the entry of its id, a member extends that of its leader's id. */
  ghost predicate Entered(
    before: seq<seq<Item>>, item: Item, k: Option<nat>, keys: seq<int>, table: map<int, seq<Item>>,
    keysAfter: seq<int>, after: map<int, seq<Item>>) {
    match k
    case None =>
      && item.id.Some? && after == table[item.id.value := [item]]
      && keysAfter == if item.id.value in table then keys else keys + [item.id.value]
    case Some(i) =>
      && i < |before| && before[i] != [] && before[i][0].id.Some? && before[i][0].id.value in table
      && after == table[before[i][0].id.value := table[before[i][0].id.value] + [item]] && keysAfter == keys
  }

  /** The dictionary, with its keys in order, that the items lead to beside their grouping. */
  ghost predicate Tabled(
    seen: seq<Item>, groups: seq<seq<Item>>, keys: seq<int>, table: map<int, seq<Item>>, cfg: Config, enc: Encoder)
    decreases |seen|
  {
    if seen == [] then groups == [] && keys == [] && table == map[]
    else exists before, k, keysBefore, tableBefore ::
      && Step(before, Last(seen), cfg, enc, k, groups)
      && Tabled(Front(seen), before, keysBefore, tableBefore, cfg, enc)
      && Entered(before, Last(seen), k, keysBefore, tableBefore, keys, table)
  }

  lemma NextTabled(
    ordered: seq<Item>, i: nat, before: seq<seq<Item>>, k: Option<nat>, after: seq<seq<Item>>, keys: seq<int>,
    table: map<int, seq<Item>>, keysAfter: seq<int>, tableAfter: map<int, seq<Item>>, cfg: Config, enc: Encoder)
    requires i < |ordered| && Step(before, ordered[i], cfg, enc, k, after)
    requires Tabled(ordered[..i], before, keys, table, cfg, enc)
    requires Entered(before, ordered[i], k, keys, table, keysAfter, tableAfter)
    ensures Tabled(ordered[..i + 1], after, keysAfter, tableAfter, cfg, enc)
  {
    hide Step, Front, Last, Entered;
    FrontOfPrefix(ordered, i);
  }

  lemma NothingTabled(ordered: seq<Item>, cfg: Config, enc: Encoder)
    ensures Tabled(ordered[..0], [], [], map[], cfg, enc)
  {
  }

  /** Items, settings and scores determine the dictionary. */
  lemma {:induction false} TabledIsUnique(
    seen: seq<Item>, groups: seq<seq<Item>>, keys: seq<int>, table: map<int, seq<Item>>, other: seq<seq<Item>>,
    otherKeys: seq<int>, otherTable: map<int, seq<Item>>, cfg: Config, enc: Encoder)
    requires Tabled(seen, groups, keys, table, cfg, enc) && Tabled(seen, other, otherKeys, otherTable, cfg, enc)
    ensures groups == other && keys == otherKeys && table == otherTable
    decreases |seen|
  {
    if seen != [] {
      var b, k, ks, t :| Step(b, Last(seen), cfg, enc, k, groups) && Tabled(Front(seen), b, ks, t, cfg, enc) &&
                         Entered(b, Last(seen), k, ks, t, keys, table);
      var b', k', ks', t' :| Step(b', Last(seen), cfg, enc, k', other) && Tabled(Front(seen), b', ks', t', cfg, enc) &&
                             Entered(b', Last(seen), k', ks', t', otherKeys, otherTable);
      hide Tabled, Front, Last, Step, Entered;
      TabledIsUnique(Front(seen), b, ks, t, b', ks', t', cfg, enc);
      StepIsUnique(b, Last(seen), cfg, enc, k, groups, k', other);
      EnteredIsUnique(b, Last(seen), k, ks, t, keys, table, otherKeys, otherTable);
    }
  }

  lemma StepIsUnique(
    before: seq<seq<Item>>, item: Item, cfg: Config, enc: Encoder, k: Option<nat>, after: seq<seq<Item>>,
    k': Option<nat>, after': seq<seq<Item>>)
    requires Step(before, item, cfg, enc, k, after) && Step(before, item, cfg, enc, k', after')
    ensures k == k' && after == after'
  {
    hide IsRelated;
    RelatedIsUnique(item, Representatives(before), cfg, enc, k, k');
  }

  lemma EnteredIsUnique(
    before: seq<seq<Item>>, item: Item, k: Option<nat>, keys: seq<int>, table: map<int, seq<Item>>,
    keys1: seq<int>, table1: map<int, seq<Item>>, keys2: seq<int>, table2: map<int, seq<Item>>)
    requires Entered(before, item, k, keys, table, keys1, table1)
    requires Entered(before, item, k, keys, table, keys2, table2)
    ensures keys1 == keys2 && table1 == table2
  {
  }

  lemma {:induction false} FlattenReplace(groups: seq<seq<Item>>, k: nat, group: seq<Item>)
    requires k < |groups|
    ensures |Flatten(groups[k := group])| + |groups[k]| == |Flatten(groups)| + |group|
  {
    var after := groups[k := group];
    assert |multiset(group)| == |group| && |multiset(groups[k])| == |groups[k]|;
    if k == 0 {
      assert after[1..] == groups[1..];
    } else {
      assert after[1..] == groups[1..][k - 1 := group];
      FlattenReplace(groups[1..], k - 1, group);
    }
  }

  lemma ValuesReplaced(keys: seq<int>, table: map<int, seq<Item>>, j: nat, group: seq<Item>)
    requires KeysApart(keys, table) && j < |keys|
    ensures KeysApart(keys, table[keys[j] := group])
    ensures ValuesOf(keys, table[keys[j] := group]) == ValuesOf(keys, table)[j := group]
  {
  }

  lemma ValuesExtended(keys: seq<int>, table: map<int, seq<Item>>, id: int, group: seq<Item>)
    requires KeysApart(keys, table) && id !in table
    ensures KeysApart(keys + [id], table[id := group])
    ensures ValuesOf(keys + [id], table[id := group]) == ValuesOf(keys, table) + [group]
  {
    forall j | 0 <= j < |keys| ensures keys[j] != id {
      assert keys[j] in keys;
    }
  }

  /** A new representative: it gets an entry, or overwrites that of an earlier one with its id. */
  lemma TableAdds(groups: seq<seq<Item>>, keys: seq<int>, table: map<int, seq<Item>>, n: nat, item: Item)
    requires TableAgrees(groups, keys, table, n) && item.id.Some?
    ensures var id := item.id.value;
            TableAgrees(groups + [[item]], if id in table then keys else keys + [id], table[id := [item]], n + 1)
  {
    hide TableAgrees;
    if item.id.value in table {
      TableOverwrites(groups, keys, table, n, item);
    } else {
      TableExtends(groups, keys, table, n, item);
    }
  }

  lemma TableOverwrites(groups: seq<seq<Item>>, keys: seq<int>, table: map<int, seq<Item>>, n: nat, item: Item)
    requires TableAgrees(groups, keys, table, n) && item.id.Some? && item.id.value in table
    ensures TableAgrees(groups + [[item]], keys, table[item.id.value := [item]], n + 1)
  {
    var id := item.id.value;
    var values, after := ValuesOf(keys, table), groups + [[item]];
    var j := KeyOf(keys, table, id);
    ValuesReplaced(keys, table, j, [item]);
    FlattenReplace(values, j, [item]);
    hide Flatten, KeysApart, ValuesOf;
    ApartBefore(groups, item);
    assert !RepresentativesApart(after);
  }

  lemma TableExtends(groups: seq<seq<Item>>, keys: seq<int>, table: map<int, seq<Item>>, n: nat, item: Item)
    requires TableAgrees(groups, keys, table, n) && item.id.Some? && item.id.value !in table
    ensures TableAgrees(groups + [[item]], keys + [item.id.value], table[item.id.value := [item]], n + 1)
  {
    var id := item.id.value;
    var values := ValuesOf(keys, table);
    ValuesExtended(keys, table, id, [item]);
    FlattenAppend(values, [item]);
    hide Flatten, KeysApart, ValuesOf, RepresentativesApart;
    ApartBefore(groups, item);
  }

  lemma KeyOf(keys: seq<int>, table: map<int, seq<Item>>, id: int) returns (j: nat)
    requires KeysApart(keys, table) && id in table
    ensures j < |keys| && keys[j] == id
  {
    j :| 0 <= j < |keys| && keys[j] == id;
  }

  lemma ApartBefore(groups: seq<seq<Item>>, item: Item)
    requires Nonempty(groups)
    ensures Nonempty(groups + [[item]])
    ensures RepresentativesApart(groups + [[item]]) <==>
            RepresentativesApart(groups) && forall g | 0 <= g < |groups| :: groups[g][0].id != item.id
  {
    var after := groups + [[item]];
    assert forall g | 0 <= g < |groups| :: after[g] == groups[g];
    assert after[|groups|] == [item];
    assert RepresentativesApart(after) ==> forall g | 0 <= g < |groups| :: after[g][0].id != after[|groups|][0].id;
  }

  /** A member: it is appended to the entry of its representative's id. */
  lemma TableJoins(groups: seq<seq<Item>>, keys: seq<int>, table: map<int, seq<Item>>, n: nat, k: nat, item: Item)
    requires TableAgrees(groups, keys, table, n) && k < |groups|
    ensures groups[k] != [] && groups[k][0].id.Some? && groups[k][0].id.value in table
    ensures var id := groups[k][0].id.value;
            TableAgrees(groups[k := groups[k] + [item]], keys, table[id := table[id] + [item]], n + 1)
  {
    hide Flatten;
    var id := groups[k][0].id.value;
    var values, after := ValuesOf(keys, table), groups[k := groups[k] + [item]];
    var j := KeyOf(keys, table, id);
    ValuesReplaced(keys, table, j, table[id] + [item]);
    FlattenReplace(values, j, table[id] + [item]);
    assert forall g | 0 <= g < |groups| :: after[g] != [] && after[g][0] == groups[g][0];
    assert RepresentativesApart(after) <==> RepresentativesApart(groups);
    assert RepresentativesApart(groups) ==> j == k;
  }

  /**
   `_cluster_feed_items`; `None` when an item has no id (the program raises).  The clusters are the
   values of the dictionary that groups by the representative's id: the grouping itself exactly when
   no two representatives share an id; when two do, items are lost.
   */
  method ClusterFeedItems(items: seq<Item>, cfg: Config, enc: Encoder)
    returns (clusters: Option<seq<seq<Item>>>, ghost groups: seq<seq<Item>>)
    ensures clusters.None? <==> exists x :: x in items && x.id.None?
    ensures clusters.Some? ==> Grouped(Sorted(items), groups, cfg, enc) && Nonempty(groups)
    ensures clusters.Some? ==>
              exists keys, table ::
                && Tabled(Sorted(items), groups, keys, table, cfg, enc)
                && (forall j | 0 <= j < |keys| :: keys[j] in table) && clusters.value == ValuesOf(keys, table)
    ensures clusters.Some? && RepresentativesApart(groups) ==> clusters.value == groups
    ensures clusters.Some? && !RepresentativesApart(groups) ==> |Flatten(clusters.value)| < |items|
  {
    hide Grouped, IsRelated, Sorted, Flatten, InOrder, RepresentativesApart, Tabled, SoFar;
    var ordered := Sorted(items);
    assert forall x :: x in items <==> x in multiset(items);
    assert forall x :: x in ordered <==> x in multiset(ordered);
    assert |multiset(ordered)| == |ordered| && |multiset(items)| == |items|;
    var reps: seq<Item>, keys: seq<int>, table: map<int, seq<Item>> := [], [], map[];
    groups := [];
    NothingYet(ordered, cfg, enc);
    for i := 0 to |ordered|
      invariant forall j | 0 <= j < i :: ordered[j].id.Some?
      invariant Nonempty(groups) && reps == Representatives(groups)
      invariant SoFar(ordered, i, groups, keys, table, cfg, enc)
    {
      var item := ordered[i];
      if item.id.None? {
        assert item in ordered;
        return None, groups;
      }
      var k := FindRelatedRepresentative(item, reps, cfg, enc);
      RelatedInRange(item, reps, cfg, enc, k);
      if k.None? {
        LeaderEntered(ordered, i, groups, keys, table, cfg, enc);
        groups := groups + [[item]];
        reps := reps + [item];
        if item.id.value !in table {
          keys := keys + [item.id.value];
        }
        table := table[item.id.value := [item]];
        continue;
      }
      MemberEntered(ordered, i, groups, k.value, keys, table, cfg, enc);
      var rep := reps[k.value];
      groups := groups[k.value := groups[k.value] + [item]];
      table := table[rep.id.value := table[rep.id.value] + [item]];
    }
    InTheEnd(ordered, groups, keys, table, cfg, enc);
    assert forall x :: x in items ==> x in ordered;
    return Some(ValuesOf(keys, table)), groups;
  }

  /** In the loop: what the first `i` items have led to. */
  ghost predicate SoFar(
    ordered: seq<Item>, i: nat, groups: seq<seq<Item>>, keys: seq<int>, table: map<int, seq<Item>>, cfg: Config,
    enc: Encoder) {
    && i <= |ordered| && Grouped(ordered[..i], groups, cfg, enc)
    && TableAgrees(groups, keys, table, i) && Tabled(ordered[..i], groups, keys, table, cfg, enc)
  }

  lemma NothingYet(ordered: seq<Item>, cfg: Config, enc: Encoder)
    ensures SoFar(ordered, 0, [], [], map[], cfg, enc)
  {
    NothingTabled(ordered, cfg, enc);
  }

  lemma LeaderEntered(
    ordered: seq<Item>, i: nat, groups: seq<seq<Item>>, keys: seq<int>, table: map<int, seq<Item>>, cfg: Config,
    enc: Encoder)
    requires i < |ordered| && SoFar(ordered, i, groups, keys, table, cfg, enc) && ordered[i].id.Some?
    requires Nonempty(groups) && IsRelated(ordered[i], Representatives(groups), cfg, enc, None)
    ensures var id := ordered[i].id.value;
            SoFar(ordered, i + 1, groups + [[ordered[i]]], if id in table then keys else keys + [id],
              table[id := [ordered[i]]], cfg, enc)
  {
    hide Grouped, IsRelated, TableAgrees, Tabled, Nonempty;
    var item := ordered[i];
    var after, id := groups + [[item]], item.id.value;
    NextGrouped(ordered, i, groups, None, after, cfg, enc);
    TableAdds(groups, keys, table, i, item);
    NextTabled(ordered, i, groups, None, after, keys, table, if id in table then keys else keys + [id],
      table[id := [item]], cfg, enc);
  }

  lemma MemberEntered(
    ordered: seq<Item>, i: nat, groups: seq<seq<Item>>, k: nat, keys: seq<int>, table: map<int, seq<Item>>,
    cfg: Config, enc: Encoder)
    requires i < |ordered| && SoFar(ordered, i, groups, keys, table, cfg, enc)
    requires Nonempty(groups) && k < |groups| && IsRelated(ordered[i], Representatives(groups), cfg, enc, Some(k))
    ensures groups[k] != [] && groups[k][0].id.Some? && groups[k][0].id.value in table
    ensures var id := groups[k][0].id.value;
            SoFar(ordered, i + 1, groups[k := groups[k] + [ordered[i]]], keys,
              table[id := table[id] + [ordered[i]]], cfg, enc)
  {
    hide Grouped, IsRelated, TableAgrees, Tabled, Nonempty;
    var item := ordered[i];
    TableJoins(groups, keys, table, i, k, item);
    var after, id := groups[k := groups[k] + [item]], groups[k][0].id.value;
    NextGrouped(ordered, i, groups, Some(k), after, cfg, enc);
    NextTabled(ordered, i, groups, Some(k), after, keys, table, keys, table[id := table[id] + [item]], cfg, enc);
  }

  lemma InTheEnd(
    ordered: seq<Item>, groups: seq<seq<Item>>, keys: seq<int>, table: map<int, seq<Item>>, cfg: Config, enc: Encoder)
    requires SoFar(ordered, |ordered|, groups, keys, table, cfg, enc)
    ensures Grouped(ordered, groups, cfg, enc) && Tabled(ordered, groups, keys, table, cfg, enc)
    ensures Nonempty(groups) && forall j | 0 <= j < |keys| :: keys[j] in table
    ensures if RepresentativesApart(groups) then ValuesOf(keys, table) == groups
            else |Flatten(ValuesOf(keys, table))| < |ordered|
  {
    hide Grouped, TableAgrees, Tabled;
    assert ordered[..|ordered|] == ordered;
    TableInTheEnd(groups, keys, table, |ordered|);
  }

  lemma TableInTheEnd(groups: seq<seq<Item>>, keys: seq<int>, table: map<int, seq<Item>>, n: nat)
    requires TableAgrees(groups, keys, table, n)
    ensures Nonempty(groups) && forall j | 0 <= j < |keys| :: keys[j] in table
    ensures if RepresentativesApart(groups) then ValuesOf(keys, table) == groups
            else |Flatten(ValuesOf(keys, table))| < n
  {
    hide Flatten;
  }

  lemma RelatedInRange(item: Item, reps: seq<Item>, cfg: Config, enc: Encoder, k: Option<nat>)
    requires IsRelated(item, reps, cfg, enc, k)
    ensures k.Some? ==> k.value < |reps|
  {
  }

  // ----- ids -----

  /** No item occurs twice, and no two items share an id. */
  ghost predicate DistinctIds(items: seq<Item>) {
    && (forall x | x in items :: multiset(items)[x] == 1)
    && (forall x, y | x in items && y in items && x.id == y.id :: x == y)
  }

  /** Without shared ids among the items there are none among the representatives, so nothing is lost. */
  lemma DistinctIdsLoseNothing(items: seq<Item>, groups: seq<seq<Item>>)
    requires DistinctIds(items) && Nonempty(groups) && Flatten(groups) == multiset(items)
    ensures RepresentativesApart(groups)
  {
    hide Flatten;
    forall g, h | 0 <= g < h < |groups| ensures groups[g][0].id != groups[h][0].id {
      var x, y := groups[g][0], groups[h][0];
      InFlatten(groups, g, x);
      InFlatten(groups, h, y);
      assert x in multiset(items) && y in multiset(items);
      TwoGroupsCount(groups, g, h, x);
      assert x in multiset(groups[g]) && y in multiset(groups[h]);
    }
  }

  lemma {:induction false} GroupCount(groups: seq<seq<Item>>, g: nat, x: Item)
    requires g < |groups|
    ensures Flatten(groups)[x] >= multiset(groups[g])[x]
  {
    if g > 0 {
      GroupCount(groups[1..], g - 1, x);
    }
  }

  lemma {:induction false} TwoGroupsCount(groups: seq<seq<Item>>, g: nat, h: nat, x: Item)
    requires g < h < |groups|
    ensures Flatten(groups)[x] >= multiset(groups[g])[x] + multiset(groups[h])[x]
  {
    if g == 0 {
      GroupCount(groups[1..], h - 1, x);
    } else {
      TwoGroupsCount(groups[1..], g - 1, h - 1, x);
    }
  }

  /** Two unrelated items with one id become two representatives, and the first is lost. */
  lemma SharedIdLosesItem(a: Item, b: Item, cfg: Config, enc: Encoder)
    requires enc.available && a.id == b.id && !Eligible(b, a, cfg, enc)
    requires a.exactKey.Some? ==> a.exactKey != b.exactKey
    ensures Grouped([a, b], [[a], [b]], cfg, enc) && !RepresentativesApart([[a], [b]])
  {
    hide IsRelated, Grouped, Eligible, RepresentativesApart;
    var items := [a, b];
    Unrelated(a, b, cfg, enc);
    NothingYet(items, cfg, enc);
    assert Representatives([]) == [] && Representatives([[a]]) == [a];
    StartsGroup(items, 0, [], cfg, enc);
    assert [] + [[a]] == [[a]];
    StartsGroup(items, 1, [[a]], cfg, enc);
    assert items[..2] == items && [[a]] + [[b]] == [[a], [b]];
    SharedIdNotApart(a, b);
  }

  lemma SharedIdNotApart(a: Item, b: Item)
    requires a.id == b.id
    ensures !RepresentativesApart([[a], [b]])
  {
    var groups: seq<seq<Item>> := [[a], [b]];
    assert groups[0][0].id == groups[1][0].id;
  }

  lemma StartsGroup(ordered: seq<Item>, i: nat, groups: seq<seq<Item>>, cfg: Config, enc: Encoder)
    requires i < |ordered| && Nonempty(groups) && Grouped(ordered[..i], groups, cfg, enc)
    requires IsRelated(ordered[i], Representatives(groups), cfg, enc, None)
    ensures Grouped(ordered[..i + 1], groups + [[ordered[i]]], cfg, enc)
  {
    hide IsRelated, Grouped;
    NextGrouped(ordered, i, groups, None, groups + [[ordered[i]]], cfg, enc);
  }

  lemma Unrelated(a: Item, b: Item, cfg: Config, enc: Encoder)
    requires !Eligible(b, a, cfg, enc) && (a.exactKey.Some? ==> a.exactKey != b.exactKey)
    ensures IsRelated(a, [], cfg, enc, None) && IsRelated(b, [a], cfg, enc, None)
  {
    hide Eligible;
    assert ExactMatch(b, [a]).None?;
  }

  // ----- when nothing is lost, whatever the texts and their scores -----

  /** The first item always leads; a later one can lead unless it has the first one's key. */
  predicate CanLead(items: seq<Item>, i: nat)
    requires i < |items|
  {
    i == 0 || items[i].exactKey.None? || items[i].exactKey != items[0].exactKey
  }

  predicate CanBothLead(items: seq<Item>, i: nat, j: nat)
    requires i < |items| && j < |items|
  {
    && CanLead(items, i) && CanLead(items, j)
    && (items[i].exactKey.Some? ==> items[i].exactKey != items[j].exactKey)
  }

  /** No two items with the same id can both be representatives: a condition on ids, keys and order alone. */
  predicate LeadersApart(items: seq<Item>) {
    forall i, j | 0 <= i < j < |items| && items[i].id == items[j].id :: !CanBothLead(items, i, j)
  }

  predicate SameButTexts(a: seq<Item>, b: seq<Item>) {
    |a| == |b| && forall i | 0 <= i < |a| :: a[i] == b[i].(text := a[i].text)
  }

  predicate DistinctTexts(items: seq<Item>) {
    forall i, j | 0 <= i < j < |items| :: items[i].text != items[j].text
  }

  ghost predicate NothingLost(items: seq<Item>, cfg: Config, enc: Encoder) {
    forall groups | Grouped(Sorted(items), groups, cfg, enc) :: Nonempty(groups) && RepresentativesApart(groups)
  }

  /** Where the representatives stand among the items. */
  ghost predicate LedFrom(seen: seq<Item>, groups: seq<seq<Item>>, places: seq<nat>) {
    && Nonempty(groups) && |places| == |groups|
    && (forall g | 0 <= g < |places| :: places[g] < |seen| && seen[places[g]] == groups[g][0])
    && (forall g, h | 0 <= g < h < |places| :: places[g] < places[h])
    && (places != [] ==> places[0] == 0)
    && (seen != [] ==> places != [])
  }

  lemma {:induction false} PlacesOfLeaders(seen: seq<Item>, groups: seq<seq<Item>>, cfg: Config, enc: Encoder)
    returns (places: seq<nat>)
    requires Grouped(seen, groups, cfg, enc)
    ensures LedFrom(seen, groups, places)
    decreases |seen|
  {
    if seen == [] {
      places := [];
    } else {
      var before, k :| Step(before, Last(seen), cfg, enc, k, groups) && Grouped(Front(seen), before, cfg, enc);
      hide Grouped, IsRelated;
      var earlier := PlacesOfLeaders(Front(seen), before, cfg, enc);
      JoinedLeaders(before, Last(seen), k);
      places := PlaceAdded(Front(seen), Last(seen), before, k, groups, earlier);
    }
  }

  lemma JoinedLeaders(groups: seq<seq<Item>>, item: Item, k: Option<nat>)
    requires Nonempty(groups) && (k.Some? ==> k.value < |groups|)
    ensures var after := Joined(groups, item, k);
            && Nonempty(after)
            && Representatives(after) == Representatives(groups) + if k.None? then [item] else []
  {
    var after := Joined(groups, item, k);
    assert forall g | 0 <= g < |groups| :: after[g] != [] && after[g][0] == groups[g][0];
  }

  lemma PlaceAdded(
    front: seq<Item>, item: Item, before: seq<seq<Item>>, k: Option<nat>, groups: seq<seq<Item>>, earlier: seq<nat>)
    returns (places: seq<nat>)
    requires LedFrom(front, before, earlier) && Nonempty(groups) && (k.Some? ==> k.value < |before|)
    requires Representatives(groups) == Representatives(before) + if k.None? then [item] else []
    ensures LedFrom(front + [item], groups, places)
  {
    places := if k.None? then earlier + [|front|] else earlier;
    var reps := Representatives(groups);
    assert |places| == |groups|;
    forall g | 0 <= g < |places|
      ensures places[g] <= |front| && (front + [item])[places[g]] == groups[g][0]
      ensures g < |before| ==> places[g] == earlier[g]
    {
      assert groups[g][0] == reps[g];
      assert g < |before| ==> reps[g] == before[g][0];
    }
  }

  /** Representatives have distinct keys, so any two of them can both lead. */
  lemma LeadersCanLead(
    seen: seq<Item>, groups: seq<seq<Item>>, cfg: Config, enc: Encoder, places: seq<nat>, g: nat, h: nat)
    requires WellGrouped(seen, groups, cfg, enc) && LedFrom(seen, groups, places) && g < h < |groups|
    ensures CanBothLead(seen, places[g], places[h])
  {
    hide Flatten, Linked, InOrder;
    assert groups[0][0] == seen[0];
  }

  lemma LeadersApartLoseNothing(items: seq<Item>, cfg: Config, enc: Encoder)
    requires LeadersApart(Sorted(items))
    ensures NothingLost(items, cfg, enc)
  {
    hide Grouped, WellGrouped, CanBothLead, Sorted;
    forall groups: seq<seq<Item>> | Grouped(Sorted(items), groups, cfg, enc)
      ensures Nonempty(groups) && RepresentativesApart(groups)
    {
      var places := PlacesOfLeaders(Sorted(items), groups, cfg, enc);
      GroupedIsWellGrouped(Sorted(items), groups, cfg, enc);
      forall g, h | 0 <= g < h < |groups| ensures groups[g][0].id != groups[h][0].id {
        LeadersCanLead(Sorted(items), groups, cfg, enc, places, g, h);
      }
    }
  }

  /** What scores of unit vectors always satisfy. */
  ghost predicate UnitScores(enc: Encoder) {
    && enc.available
    && (forall a, b :: enc.similarity(a, b) == enc.similarity(b, a) && -1.0 <= enc.similarity(a, b) <= 1.0)
    && (forall a :: enc.similarity(a, a) == 1.0)
  }

  /** Three orthogonal directions: one for `v`, one for `u` unless it is the first text, one for all other texts. */
  function Direction(text: string, first: string, u: string, v: string): nat {
    if text == v then 2 else if text == u && u != first then 1 else 0
  }

  function Separating(first: string, u: string, v: string): Encoder {
    Encoder(true, (text: string, other: string) =>
      if Direction(text, first, u, v) == Direction(other, first, u, v) then 1.0 else 0.0)
  }

  lemma SeparatingIsUnit(first: string, u: string, v: string)
    ensures UnitScores(Separating(first, u, v))
  {
  }

  const LENIENT := Config(0.5, 0.5, false, 0, false, false)

  lemma SeparatedItem(item: Item, reps: seq<Item>, first: string, u: string, v: string) returns (k: Option<nat>)
    requires reps != [] ==> Direction(reps[0].text, first, u, v) == 0
    requires Direction(item.text, first, u, v) != 0 ==>
               && ExactMatch(item, reps).None?
               && forall g | 0 <= g < |reps| ::
                  Direction(reps[g].text, first, u, v) != Direction(item.text, first, u, v)
    ensures IsRelated(item, reps, LENIENT, Separating(first, u, v), k)
    ensures k.None? <==> reps == [] || Direction(item.text, first, u, v) != 0
    ensures k.Some? ==> k.value < |reps|
  {
    hide Direction;
    k := ExactMatch(item, reps);
    if reps != [] && Direction(item.text, first, u, v) == 0 && k.None? {
      assert Candidate(item, reps, LENIENT, Separating(first, u, v), 0);
      k := Some(0);
    }
  }

  /** Under these scores the first item and the two with these texts lead, and no other item does. */
  function SeparatedLeaders(items: seq<Item>, i: nat, j: nat, n: nat): seq<Item>
    requires i < j < |items| && n <= |items|
  {
    (if 0 < n then [items[0]] else []) + (if 0 < i < n then [items[i]] else []) + (if j < n then [items[j]] else [])
  }

  lemma {:induction false} SeparatedGrouping(items: seq<Item>, i: nat, j: nat, n: nat) returns (groups: seq<seq<Item>>)
    requires i < j < |items| && n <= |items| && DistinctTexts(items) && CanBothLead(items, i, j)
    ensures Grouped(items[..n], groups, LENIENT, Separating(items[0].text, items[i].text, items[j].text))
    ensures Nonempty(groups) && Representatives(groups) == SeparatedLeaders(items, i, j, n)
  {
    hide Grouped, IsRelated, DistinctTexts, CanBothLead, SeparatedLeaders, Separating;
    var cfg, enc := LENIENT, Separating(items[0].text, items[i].text, items[j].text);
    if n == 0 {
      NoLeaders(items, i, j);
      NothingYet(items, cfg, enc);
      groups := [];
    } else {
      var before := SeparatedGrouping(items, i, j, n - 1);
      var k := SeparatedStep(items, i, j, n - 1, Representatives(before));
      groups := Joined(before, items[n - 1], k);
      NextGrouped(items, n - 1, before, k, groups, cfg, enc);
      JoinedLeaders(before, items[n - 1], k);
    }
  }

  lemma NoLeaders(items: seq<Item>, i: nat, j: nat)
    requires i < j < |items|
    ensures SeparatedLeaders(items, i, j, 0) == []
  {
  }

  lemma SeparatedStep(items: seq<Item>, i: nat, j: nat, n: nat, reps: seq<Item>) returns (k: Option<nat>)
    requires i < j < |items| && n < |items| && DistinctTexts(items) && CanBothLead(items, i, j)
    requires reps == SeparatedLeaders(items, i, j, n)
    ensures IsRelated(items[n], reps, LENIENT, Separating(items[0].text, items[i].text, items[j].text), k)
    ensures k.Some? ==> k.value < |reps|
    ensures SeparatedLeaders(items, i, j, n + 1) == reps + if k.None? then [items[n]] else []
  {
    hide IsRelated;
    assert n == i || n == j || items[n].text !in {items[i].text, items[j].text};
    k := SeparatedItem(items[n], reps, items[0].text, items[i].text, items[j].text);
  }

  lemma SeparatedLose(items: seq<Item>, i: nat, j: nat)
    requires InOrder(items) && DistinctTexts(items)
    requires i < j < |items| && items[i].id == items[j].id && CanBothLead(items, i, j)
    ensures !NothingLost(items, LENIENT, Separating(items[0].text, items[i].text, items[j].text))
  {
    hide Grouped, Sorted, DistinctTexts, CanBothLead;
    SortedStays(items);
    var groups := SeparatedGrouping(items, i, j, |items|);
    assert items[..|items|] == items;
    var reps := Representatives(groups);
    var g := if i == 0 then 0 else 1;
    assert reps[g] == items[i] && reps[g + 1] == items[j];
    assert groups[g][0].id == groups[g + 1][0].id;
    assert !RepresentativesApart(groups);
  }

  /** Sorting a feed that is in order changes nothing. */
  lemma {:induction false} SortedStays(items: seq<Item>)
    requires InOrder(items)
    ensures Sorted(items) == items
  {
    hide Before;
    if items != [] {
      assert InOrder(items[1..]);
      SortedStays(items[1..]);
      assert |items| > 1 ==> Before(items[0], items[1]);
      assert items == [items[0]] + items[1..];
    }
  }

  /**
   With distinct texts, no cluster is overwritten under any settings and scores of unit vectors exactly when the
   possible leaders have distinct ids.
   */
  lemma NothingLostWithTexts(items: seq<Item>)
    requires DistinctTexts(Sorted(items))
    ensures (forall cfg, enc | UnitScores(enc) :: NothingLost(items, cfg, enc)) <==> LeadersApart(Sorted(items))
  {
    hide UnitScores, NothingLost, CanBothLead, DistinctTexts, Sorted;
    var s := Sorted(items);
    if LeadersApart(s) {
      forall cfg, enc | UnitScores(enc) ensures NothingLost(items, cfg, enc) {
        LeadersApartLoseNothing(items, cfg, enc);
      }
    } else {
      var i, j :| 0 <= i < j < |s| && s[i].id == s[j].id && CanBothLead(s, i, j);
      SeparatedLose(s, i, j);
      SortedStays(s);
      SameLoss(items, s, LENIENT, Separating(s[0].text, s[i].text, s[j].text));
      SeparatingIsUnit(s[0].text, s[i].text, s[j].text);
    }
  }

  lemma SameLoss(items: seq<Item>, other: seq<Item>, cfg: Config, enc: Encoder)
    requires Sorted(items) == Sorted(other)
    ensures NothingLost(items, cfg, enc) <==> NothingLost(other, cfg, enc)
  {
  }

  /** The `n`-th of a family of distinct texts. */
  function NthText(n: nat): (r: string)
    ensures |r| == n
  {
    seq(n, _ => 'x')
  }

  function Retexted(items: seq<Item>): (r: seq<Item>)
    ensures SameButTexts(r, items) && DistinctTexts(r)
  {
    seq(|items|, i requires 0 <= i < |items| => items[i].(text := NthText(i)))
  }

  lemma TextsDoNotOrder(a: seq<Item>, b: seq<Item>)
    requires SameButTexts(a, b)
    ensures InOrder(a) <==> InOrder(b)
    ensures LeadersApart(a) <==> LeadersApart(b)
  {
    assert forall i | 0 <= i < |a| ::
           SortKey(a[i]) == SortKey(b[i]) && a[i].id == b[i].id && a[i].exactKey == b[i].exactKey;
    hide SortKey;
  }

  /**
   Whatever its texts, settings and scores are, a feed loses no cluster, if and only if no two of its items that can
   lead share an id.
   */
  lemma NothingLostExactly(items: seq<Item>)
    ensures (forall feed, cfg, enc | SameButTexts(feed, Sorted(items)) && UnitScores(enc) ::
            NothingLost(feed, cfg, enc)) <==>
            LeadersApart(Sorted(items))
  {
    hide UnitScores, NothingLost, CanBothLead, DistinctTexts, Sorted, LeadersApart, InOrder, SameButTexts;
    var s := Sorted(items);
    if LeadersApart(s) {
      forall feed, cfg, enc | SameButTexts(feed, s) && UnitScores(enc) ensures NothingLost(feed, cfg, enc) {
        TextsDoNotOrder(feed, s);
        SortedStays(feed);
        LeadersApartLoseNothing(feed, cfg, enc);
      }
    } else {
      var feed := Retexted(s);
      TextsDoNotOrder(feed, s);
      SortedStays(feed);
      NothingLostWithTexts(feed);
    }
  }

  /** The second item of a key can lead as well: the first may have joined an earlier representative on its score. */
  lemma SecondOfItsKeyCanLead(a: Item, b: Item, c: Item)
    requires InOrder([a, b, c]) && DistinctTexts([a, b, c])
    requires a.exactKey.None? && b.exactKey.Some? && c.exactKey == b.exactKey && a.id == c.id
    ensures UnitScores(Separating(a.text, a.text, c.text))
    ensures !NothingLost([a, b, c], LENIENT, Separating(a.text, a.text, c.text))
  {
    SeparatingIsUnit(a.text, a.text, c.text);
    assert CanBothLead([a, b, c], 0, 2);
    SeparatedLose([a, b, c], 0, 2);
  }
}

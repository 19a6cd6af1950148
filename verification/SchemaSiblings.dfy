/**
 What the OpenAPI rewrite does to a nullable union with asserting keywords beside it: the keywords of
 the parent replace those of the concrete arm, and another union beside it is dropped.
 */
module SchemaSiblings {
  import opened Options
  import opened JsonValues
  import opened OpenApiShapes
  import opened SchemaMeaning
  import opened SchemaRewrite
  import opened SchemaEquivalence
  import opened SchemaLimits

  // ----- the rewrite -----

  /** Annotations, a nullable union of an object, and entries under `others`, with which it still collapses. */
  ghost predicate UnionWith(fs: Fields, key: string, others: set<string>) {
    && DistinctKeys(fs) && key !in others && others !! {"exclusiveMinimum", "exclusiveMaximum"}
    && NullableUnion(Without(fs, others), key)
    && ConcreteArm(Get(fs, key)).Some? && ConcreteArm(Get(fs, key)).value.Obj?
    && (key == "oneOf" ==> ConcreteArm(Get(NormalizeFields(fs), "anyOf")) == None)
  }

  ghost function ArmOf(fs: Fields, key: string, others: set<string>): Fields
    requires UnionWith(fs, key, others)
  {
    ConcreteArm(Get(fs, key)).value.fields
  }

  /** Such a dictionary is merged over its arm: its own entries win, but the unions are dropped. */
  lemma UnionCollapses(voc: Vocabulary, fs: Fields, key: string, others: set<string>)
    requires UnionWith(fs, key, others) && Plain(voc, ArmOf(fs, key, others))
    ensures var arm := ArmOf(fs, key, others);
            && Rewritten(fs) == MergeArm(NormalizeFields(fs), Obj(Rewritten(arm)))
            && DistinctKeys(NormalizeFields(fs)) && DistinctKeys(Rewritten(arm))
  {
    hide Get, Put, NormalizeFields, Plain, MergeArm, Normalize, FlagBounds, NullableUnion, DistinctKeys, ConcreteArm;
    var core, n := Without(fs, others), NormalizeFields(fs);
    assert Get(core, key) == Get(fs, key);
    NullableKey(core, key);
    UnionNormalizes(voc, core, key);
    NotFlagged(fs, key, others);
    assert Get(n, key) == Get(NormalizeFields(core), key);
    NormalizedArm(ConcreteArm(Get(fs, key)).value);
    RewriteKeepsDistinct(voc, ArmOf(fs, key, others));
  }

  lemma NotFlagged(fs: Fields, key: string, others: set<string>)
    requires others !! {"exclusiveMinimum", "exclusiveMaximum"} && NullableUnion(Without(fs, others), key)
    ensures FlagBounds(NormalizeFields(fs)) == NormalizeFields(fs)
  {
    hide Get, Put, NormalizeFields, NullableUnion, FlagBounds;
    NoOtherKeyword(Without(fs, others), key, "exclusiveMinimum");
    NoOtherKeyword(Without(fs, others), key, "exclusiveMaximum");
    assert Get(fs, "exclusiveMinimum") == None && Get(fs, "exclusiveMaximum") == None;
    Unflagged(NormalizeFields(fs));
  }

  lemma NoOtherKeyword(core: Fields, key: string, k: string)
    requires NullableUnion(core, key) && k in INTERPRETED && k != "anyOf" && k != "oneOf"
    ensures Get(core, k) == None
  {
    hide Get, DistinctKeys;
    KeywordsAreNoAnnotations();
  }

  lemma KeywordsAreNoAnnotations()
    ensures INTERPRETED !! ANNOTATIONS
  {
  }

  /** Besides annotations, the dictionary has none of the keywords but these. */
  lemma NoneElse(fs: Fields, keys: set<string>, k: string)
    requires Only(fs, keys) && k in INTERPRETED && k !in keys
    ensures Get(fs, k) == None
  {
    hide Get, DistinctKeys;
    KeywordsAreNoAnnotations();
  }

  lemma MergedAt(d: Fields, arm: Fields, k: string)
    requires DistinctKeys(d) && DistinctKeys(arm)
    ensures Get(MergeArm(d, Obj(arm)), k) ==
            if k == "nullable" then Some(Bool(true))
            else if k !in {"anyOf", "oneOf"} && Has(d, k) then Get(d, k)
            else Get(arm, k)
  {
    hide Get, MergeArm, DistinctKeys;
    MergedLookups(d, Obj(arm));
  }

  lemma CollapsedAt(voc: Vocabulary, fs: Fields, key: string, others: set<string>, k: string)
    requires UnionWith(fs, key, others) && Plain(voc, ArmOf(fs, key, others))
    ensures Get(Rewritten(fs), k) ==
            if k == "nullable" then Some(Bool(true))
            else if k !in {"anyOf", "oneOf"} && Has(fs, k) then Some(Normalize(Get(fs, k).value))
            else Get(Rewritten(ArmOf(fs, key, others)), k)
  {
    hide Get, NormalizeFields, Plain, MergeArm, Normalize, NullableUnion, DistinctKeys, ConcreteArm, Rewritten;
    UnionCollapses(voc, fs, key, others);
    MergedAt(NormalizeFields(fs), Rewritten(ArmOf(fs, key, others)), k);
  }

  /** A dictionary like a rewritten arm, but nullable: null is let through by `type`. */
  lemma NullableArmMeans(voc: Vocabulary, r: Fields, arm: Fields, i: Json)
    requires AnnotationsAccept(voc) && Plain(voc, arm) && Get(r, "nullable") == Some(Bool(true))
    requires SamePast(r, Rewritten(arm), ANNOTATIONS + {"nullable"})
    ensures Valid(V30, voc, Obj(r), i) <==> (i == Null || TypeOk(V31, arm, i)) && RestOk(V31, voc, arm, i)
  {
    hide Get, RestOk, Plain, Rewritten, NormalizeFields, SamePast;
    PlainTypeKept(voc, arm);
    SameType(r, Rewritten(arm));
    PlainPreserved(voc, arm, i);
    RestDependsOnLookups(voc, r, Rewritten(arm), i);
  }

  lemma SameType(r: Fields, s: Fields)
    requires SamePast(r, s, ANNOTATIONS + {"nullable"})
    ensures Get(r, "type") == Get(s, "type")
  {
    hide Get;
  }

  /** The keys of such a dictionary. */
  lemma UnionWithKeys(fs: Fields, key: string, others: set<string>)
    requires UnionWith(fs, key, others)
    ensures (key == "anyOf" || key == "oneOf") && Only(fs, {key} + others)
    ensures Get(Without(fs, others), key) == Get(fs, key) && Only(Without(fs, others), {key})
  {
    hide Get, DistinctKeys, ConcreteArm;
    var core := Without(fs, others);
    assert forall k | Has(fs, k) :: k in others || Has(core, k);
  }

  // ----- any keywords beside it -----

  /** The concrete arm with the parent's entries, but not its unions, laid over it. */
  function Merged(fs: Fields, arm: Fields): Fields {
    Overlay(arm, Without(fs, {"anyOf", "oneOf"}))
  }

  /** A bound beside the union does not meet an exclusive one in the arm, which the rewrite would mix up with it. */
  predicate BoundsApart(fs: Fields, arm: Fields) {
    && (Has(fs, "minimum") ==> !Has(arm, "exclusiveMinimum"))
    && (Has(fs, "maximum") ==> !Has(arm, "exclusiveMaximum"))
  }

  lemma MergedKeys(fs: Fields, arm: Fields)
    requires DistinctKeys(fs)
    ensures forall k :: Get(Merged(fs, arm), k) ==
                        if k != "anyOf" && k != "oneOf" && Has(fs, k) then Get(fs, k) else Get(arm, k)
  {
    hide Get, DistinctKeys;
    var siblings := Without(fs, {"anyOf", "oneOf"});
    assert forall k :: Has(siblings, k) <==> k != "anyOf" && k != "oneOf" && Has(fs, k);
  }

  /** Merging before the rewrite and merging in the rewrite give the same entries. */
  lemma MergedAlike(voc: Vocabulary, fs: Fields, key: string, others: set<string>, k: string)
    requires UnionWith(fs, key, others) && Plain(voc, ArmOf(fs, key, others))
    requires Plain(voc, Merged(fs, ArmOf(fs, key, others))) && BoundsApart(fs, ArmOf(fs, key, others))
    ensures k != "nullable" ==> Get(Rewritten(fs), k) == Get(Rewritten(Merged(fs, ArmOf(fs, key, others))), k)
  {
    hide Get, DistinctKeys, UnionWith, Plain, Rewritten, NormalizeFields, Merged, Normalize;
    var arm := ArmOf(fs, key, others);
    var merged := Merged(fs, arm);
    WithIsDistinct(fs, key, others);
    MergedKeys(fs, arm);
    CollapsedAt(voc, fs, key, others, k);
    PlainIsUncollapsed(voc, arm);
    PlainIsUncollapsed(voc, merged);
    FlaggedAlike(fs, arm, merged, Rewritten(arm), Rewritten(merged), k);
  }

  lemma WithIsDistinct(fs: Fields, key: string, others: set<string>)
    requires UnionWith(fs, key, others)
    ensures DistinctKeys(fs) && !Has(fs, "exclusiveMinimum") && !Has(fs, "exclusiveMaximum")
  {
    hide Get, DistinctKeys, NullableUnion, ConcreteArm;
    NoOtherKeyword(Without(fs, others), key, "exclusiveMinimum");
    NoOtherKeyword(Without(fs, others), key, "exclusiveMaximum");
  }

  lemma FlaggedAlike(fs: Fields, arm: Fields, merged: Fields, r: Fields, s: Fields, k: string)
    requires FlaggedFrom(NormalizeFields(arm), r) && FlaggedFrom(NormalizeFields(merged), s) && BoundsApart(fs, arm)
    requires !Has(fs, "exclusiveMinimum") && !Has(fs, "exclusiveMaximum")
    requires forall j :: Get(merged, j) ==
                         if j != "anyOf" && j != "oneOf" && Has(fs, j) then Get(fs, j) else Get(arm, j)
    ensures Get(s, k) ==
            if k != "anyOf" && k != "oneOf" && Has(fs, k) then Some(Normalize(Get(fs, k).value)) else Get(r, k)
  {
    hide Get, NormalizeFields, Normalize, FlaggedFrom;
    if k in BOUNDS {
      BoundsAlike(fs, arm, merged, r, s, k);
    } else {
      NotABound(NormalizeFields(arm), r, k);
      NotABound(NormalizeFields(merged), s, k);
    }
  }

  lemma NotABound(n: Fields, r: Fields, k: string)
    requires FlaggedFrom(n, r) && k !in BOUNDS
    ensures Get(r, k) == Get(n, k)
  {
    hide Get;
  }

  lemma BoundsAlike(fs: Fields, arm: Fields, merged: Fields, r: Fields, s: Fields, k: string)
    requires FlaggedFrom(NormalizeFields(arm), r) && FlaggedFrom(NormalizeFields(merged), s) && BoundsApart(fs, arm)
    requires !Has(fs, "exclusiveMinimum") && !Has(fs, "exclusiveMaximum") && k in BOUNDS
    requires forall j :: Get(merged, j) ==
                         if j != "anyOf" && j != "oneOf" && Has(fs, j) then Get(fs, j) else Get(arm, j)
    ensures Get(s, k) == Over(fs, r, k)
  {
    hide Get, NormalizeFields, FlaggedFrom, Over;
    MergedAlikeAt(fs, arm, merged, "minimum");
    MergedAlikeAt(fs, arm, merged, "exclusiveMinimum");
    MergedAlikeAt(fs, arm, merged, "maximum");
    MergedAlikeAt(fs, arm, merged, "exclusiveMaximum");
    LowerAlike(fs, NormalizeFields(arm), NormalizeFields(merged), r, s);
    UpperAlike(fs, NormalizeFields(arm), NormalizeFields(merged), r, s);
  }

  /** A parent's entry, rewritten, or else that of the other dictionary. */
  function Over(fs: Fields, n: Fields, k: string): Option<Json> {
    if Has(fs, k) then Some(Normalize(Get(fs, k).value)) else Get(n, k)
  }

  lemma LowerAlike(fs: Fields, n: Fields, m: Fields, r: Fields, s: Fields)
    requires FlaggedFrom(n, r) && FlaggedFrom(m, s)
    requires !Has(fs, "exclusiveMinimum") && (Has(fs, "minimum") ==> !Has(n, "exclusiveMinimum"))
    requires Get(m, "minimum") == Over(fs, n, "minimum") &&
             Get(m, "exclusiveMinimum") == Over(fs, n, "exclusiveMinimum")
    ensures Get(s, "minimum") == Over(fs, r, "minimum") && Get(s, "exclusiveMinimum") == Over(fs, r, "exclusiveMinimum")
  {
    hide Get, Normalize, FlaggedFrom;
    LowerFlag(n, r);
    LowerFlag(m, s);
  }

  lemma UpperAlike(fs: Fields, n: Fields, m: Fields, r: Fields, s: Fields)
    requires FlaggedFrom(n, r) && FlaggedFrom(m, s)
    requires !Has(fs, "exclusiveMaximum") && (Has(fs, "maximum") ==> !Has(n, "exclusiveMaximum"))
    requires Get(m, "maximum") == Over(fs, n, "maximum") &&
             Get(m, "exclusiveMaximum") == Over(fs, n, "exclusiveMaximum")
    ensures Get(s, "maximum") == Over(fs, r, "maximum") && Get(s, "exclusiveMaximum") == Over(fs, r, "exclusiveMaximum")
  {
    hide Get, Normalize, FlaggedFrom;
    UpperFlag(n, r);
    UpperFlag(m, s);
  }

  lemma MergedAlikeAt(fs: Fields, arm: Fields, merged: Fields, k: string)
    requires k != "anyOf" && k != "oneOf"
    requires forall j :: Get(merged, j) ==
                         if j != "anyOf" && j != "oneOf" && Has(fs, j) then Get(fs, j) else Get(arm, j)
    ensures Get(NormalizeFields(merged), k) ==
            Over(fs, NormalizeFields(arm), k)
    ensures Has(NormalizeFields(arm), k) <==> Has(arm, k)
  {
    hide Get, NormalizeFields, Normalize;
  }

  lemma LowerFlag(n: Fields, r: Fields)
    requires FlaggedFrom(n, r)
    ensures var open := Get(n, "exclusiveMinimum");
            && Get(r, "minimum") == (if open.Some? then open else Get(n, "minimum"))
            && Get(r, "exclusiveMinimum") == if open.Some? then Some(Bool(true)) else None
  {
    hide Get, SamePast;
  }

  lemma UpperFlag(n: Fields, r: Fields)
    requires FlaggedFrom(n, r)
    ensures var open := Get(n, "exclusiveMaximum");
            && Get(r, "maximum") == (if open.Some? then open else Get(n, "maximum"))
            && Get(r, "exclusiveMaximum") == if open.Some? then Some(Bool(true)) else None
  {
    hide Get, SamePast;
  }

  /**
   Whatever stands beside it, a nullable union means afterwards what the merged dictionary means before, except that
   null is let through by `type`.
   */
  lemma SiblingsMerge(voc: Vocabulary, fs: Fields, key: string, others: set<string>, i: Json)
    requires AnnotationsAccept(voc) && UnionWith(fs, key, others) && Plain(voc, ArmOf(fs, key, others))
    requires Plain(voc, Merged(fs, ArmOf(fs, key, others))) && BoundsApart(fs, ArmOf(fs, key, others))
    ensures var merged := Merged(fs, ArmOf(fs, key, others));
            Valid(V30, voc, Normalize(Obj(fs)), i) <==>
            (i == Null || TypeOk(V31, merged, i)) && RestOk(V31, voc, merged, i)
  {
    hide Get, DistinctKeys, UnionWith, Plain, Rewritten, Normalize, RestOk, TypeOk, Valid, AnnotationsAccept, Merged;
    forall k ensures k != "nullable" ==>
      Get(Rewritten(fs), k) == Get(Rewritten(Merged(fs, ArmOf(fs, key, others))), k) {
      MergedAlike(voc, fs, key, others, k);
    }
    CollapsedAt(voc, fs, key, others, "nullable");
    NullableArmMeans(voc, Rewritten(fs), Merged(fs, ArmOf(fs, key, others)), i);
    NormalizedObject(fs);
  }

  /** Before, it means the union and everything beside it. */
  lemma SiblingsBefore(voc: Vocabulary, fs: Fields, key: string, others: set<string>, i: Json)
    requires AnnotationsAccept(voc) && UnionWith(fs, key, others)
    ensures var armOk := Valid(V31, voc, Obj(ArmOf(fs, key, others)), i);
            Valid(V31, voc, Obj(fs), i) <==>
            && Valid(V31, voc, Obj(Without(fs, {key})), i)
            && if key == "anyOf" then i == Null || armOk else (i == Null) != armOk
  {
    hide Get, DistinctKeys, UnionWith, Valid, AnnotationsAccept, ConcreteArm, NullableUnion, CountValid;
    UnionWithKeys(fs, key, others);
    var core := Without(fs, others);
    WithCore(fs, key, others);
    CoreIsArr(core, key);
    UnionBefore(voc, core, key, i);
    UnionOfArms(V31, voc, core, key, ArmsOf(fs, key), i);
    UnionApart(voc, fs, key, ArmsOf(fs, key), i);
  }

  lemma WithCore(fs: Fields, key: string, others: set<string>)
    requires UnionWith(fs, key, others)
    ensures NullableUnion(Without(fs, others), key) && (key == "anyOf" || key == "oneOf")
    ensures ConcreteArm(Get(fs, key)) == Some(Obj(ArmOf(fs, key, others)))
  {
    hide Get, DistinctKeys;
  }

  lemma UnionApart(voc: Vocabulary, fs: Fields, key: string, arms: Items, i: Json)
    requires (key == "anyOf" || key == "oneOf") && Get(fs, key) == Some(Arr(arms))
    ensures Valid(V31, voc, Obj(fs), i) <==>
            Valid(V31, voc, Obj(Without(fs, {key})), i) && Meets(key, CountValid(V31, voc, arms, i))
  {
    hide Get, RestOk;
    var rest := Without(fs, {key});
    assert Get(rest, "type") == Get(fs, "type");
    RestWithoutUnion(voc, fs, key, arms, i);
  }

  lemma RestWithoutUnion(voc: Vocabulary, fs: Fields, key: string, arms: Items, i: Json)
    requires (key == "anyOf" || key == "oneOf") && Get(fs, key) == Some(Arr(arms))
    ensures RestOk(V31, voc, fs, i) <==>
            RestOk(V31, voc, Without(fs, {key}), i) && Meets(key, CountValid(V31, voc, arms, i))
  {
    hide Get, BoundsOk, UnionsOk, InnerOk, ListedOk, UnlistedOk, OthersOk, CountValid, Meets;
    var rest := Without(fs, {key});
    OtherKeywordsStay(voc, fs, rest, key, i);
    UnionsWithout(voc, fs, rest, key, arms, i);
  }

  lemma UnionsWithout(voc: Vocabulary, fs: Fields, rest: Fields, key: string, arms: Items, i: Json)
    requires (key == "anyOf" || key == "oneOf") && Get(fs, key) == Some(Arr(arms)) && rest == Without(fs, {key})
    ensures UnionsOk(V31, voc, fs, i) <==> UnionsOk(V31, voc, rest, i) && Meets(key, CountValid(V31, voc, arms, i))
  {
    hide Get, CountValid, Elements;
    assert Get(rest, key) == None && Get(rest, "allOf") == Get(fs, "allOf");
  }

  lemma OtherKeywordsStay(voc: Vocabulary, fs: Fields, rest: Fields, key: string, i: Json)
    requires (key == "anyOf" || key == "oneOf") && rest == Without(fs, {key})
    ensures BoundsOk(V31, fs, i) <==> BoundsOk(V31, rest, i)
    ensures InnerOk(V31, voc, fs, i) <==> InnerOk(V31, voc, rest, i)
    ensures ListedOk(V31, voc, fs, i) <==> ListedOk(V31, voc, rest, i)
    ensures UnlistedOk(V31, voc, fs, i) <==> UnlistedOk(V31, voc, rest, i)
    ensures OthersOk(voc, fs, i) <==> OthersOk(voc, rest, i)
  {
    hide Get, Valid, Elements;
    assert Get(fs, "minimum") == Get(rest, "minimum") && Get(fs, "exclusiveMinimum") == Get(rest, "exclusiveMinimum");
    assert Get(fs, "maximum") == Get(rest, "maximum") && Get(fs, "exclusiveMaximum") == Get(rest, "exclusiveMaximum");
    assert Get(fs, "not") == Get(rest, "not") && Get(fs, "items") == Get(rest, "items");
    assert Get(fs, "properties") == Get(rest, "properties");
    assert Get(fs, "additionalProperties") == Get(rest, "additionalProperties");
    assert key in INTERPRETED;
  }

  /**
   So a nullable union beside any keywords keeps its meaning if and only if those keywords and the union say of every
   instance what the merged dictionary says, null being let through by its `type`.
   */
  lemma SiblingsExact(voc: Vocabulary, fs: Fields, key: string, others: set<string>)
    requires AnnotationsAccept(voc) && UnionWith(fs, key, others) && Plain(voc, ArmOf(fs, key, others))
    requires Plain(voc, Merged(fs, ArmOf(fs, key, others))) && BoundsApart(fs, ArmOf(fs, key, others))
    ensures (forall i :: SameVerdict(voc, fs, i)) <==> forall i :: MergeFits(voc, fs, key, others, i)
  {
    hide UnionWith, Plain, SameVerdict, MergeFits, AnnotationsAccept, BoundsApart, Merged;
    forall i ensures SameVerdict(voc, fs, i) <==> MergeFits(voc, fs, key, others, i) {
      MergeFitsAt(voc, fs, key, others, i);
    }
  }

  /** The instance is judged alike by the keywords and the union apart, and by the merged dictionary. */
  ghost predicate MergeFits(voc: Vocabulary, fs: Fields, key: string, others: set<string>, i: Json)
    requires UnionWith(fs, key, others)
  {
    var arm := ArmOf(fs, key, others);
    var merged := Merged(fs, arm);
    var armOk := Valid(V31, voc, Obj(arm), i);
    && Valid(V31, voc, Obj(Without(fs, {key})), i)
    && (if key == "anyOf" then i == Null || armOk else (i == Null) != armOk)
    <==>
    (i == Null || TypeOk(V31, merged, i)) && RestOk(V31, voc, merged, i)
  }

  lemma MergeFitsAt(voc: Vocabulary, fs: Fields, key: string, others: set<string>, i: Json)
    requires AnnotationsAccept(voc) && UnionWith(fs, key, others) && Plain(voc, ArmOf(fs, key, others))
    requires Plain(voc, Merged(fs, ArmOf(fs, key, others))) && BoundsApart(fs, ArmOf(fs, key, others))
    ensures SameVerdict(voc, fs, i) <==> MergeFits(voc, fs, key, others, i)
  {
    hide UnionWith, Plain, Valid, AnnotationsAccept, BoundsApart, Merged, RestOk, TypeOk, Normalize;
    SiblingsBefore(voc, fs, key, others, i);
    SiblingsMerge(voc, fs, key, others, i);
  }

  // ----- another union beside it -----

  /** The arms of a nullable union. */
  function ArmsOf(fs: Fields, key: string): Items {
    match Get(fs, key)
    case Some(Arr(items)) => items
    case _ => Nil
  }

  /** Before the rewrite, both unions count. */
  lemma BothUnionsBefore(voc: Vocabulary, fs: Fields, key: string, other: string, i: Json)
    requires AnnotationsAccept(voc) && UnionWith(fs, key, {other}) && {key, other} == {"anyOf", "oneOf"}
    requires Get(fs, other).Some? && Get(fs, other).value.Arr?
    ensures Valid(V31, voc, Obj(fs), i) <==>
            && Valid(V31, voc, Obj(Without(fs, {other})), i)
            && Meets(other, CountValid(V31, voc, ArmsOf(fs, other), i))
  {
    hide Get, DistinctKeys, AnnotationsAccept, NullableUnion, ConcreteArm, CountValid, RestOk, BoundsOk;
    var core := Without(fs, {other});
    UnionWithKeys(fs, key, {other});
    CoreIsArr(core, key);
    UnionOfArms(V31, voc, core, key, ArmsOf(fs, key), i);
    TwoUnions(V31, voc, fs, i);
  }

  lemma CoreIsArr(core: Fields, key: string)
    requires NullableUnion(core, key)
    ensures Get(core, key).Some? && Get(core, key).value.Arr?
  {
    hide Get, DistinctKeys;
  }

  lemma TwoUnions(d: Dialect, voc: Vocabulary, fs: Fields, i: Json)
    requires AnnotationsAccept(voc) && Only(fs, {"anyOf", "oneOf"})
    requires Get(fs, "anyOf").Some? && Get(fs, "anyOf").value.Arr? && Get(fs, "oneOf").Some? &&
             Get(fs, "oneOf").value.Arr?
    ensures Valid(d, voc, Obj(fs), i) <==>
            && Meets("anyOf", CountValid(d, voc, ArmsOf(fs, "anyOf"), i))
            && Meets("oneOf", CountValid(d, voc, ArmsOf(fs, "oneOf"), i))
  {
    hide Get, RestOk, CountValid, AnnotationsAccept, DistinctKeys;
    OnlyBoundsAndUnionsMatter(d, voc, fs, i);
    NoneElse(fs, {"anyOf", "oneOf"}, "minimum");
    NoneElse(fs, {"anyOf", "oneOf"}, "maximum");
    NoneElse(fs, {"anyOf", "oneOf"}, "exclusiveMinimum");
    NoneElse(fs, {"anyOf", "oneOf"}, "exclusiveMaximum");
    NoneElse(fs, {"anyOf", "oneOf"}, "type");
    NoneElse(fs, {"anyOf", "oneOf"}, "allOf");
    assert BoundsOk(d, fs, i) && TypeOk(d, fs, i);
  }

  /** Afterwards, the other union is gone. */
  lemma OtherUnionAfter(voc: Vocabulary, fs: Fields, key: string, other: string, i: Json)
    requires AnnotationsAccept(voc) && UnionWith(fs, key, {other}) && {key, other} == {"anyOf", "oneOf"}
    requires Plain(voc, ArmOf(fs, key, {other}))
    ensures var arm := ArmOf(fs, key, {other});
            Valid(V30, voc, Normalize(Obj(fs)), i) <==> (i == Null || TypeOk(V31, arm, i)) && RestOk(V31, voc, arm, i)
  {
    hide Get, DistinctKeys, AnnotationsAccept, RestOk, Rewritten, Plain, UnionWith, Normalize, TypeOk, Valid;
    var arm := ArmOf(fs, key, {other});
    UnionWithKeys(fs, key, {other});
    forall k ensures k !in ANNOTATIONS + {"nullable"} ==> Get(Rewritten(fs), k) == Get(Rewritten(arm), k) {
      CollapsedAt(voc, fs, key, {other}, k);
    }
    CollapsedAt(voc, fs, key, {other}, "nullable");
    NullableArmMeans(voc, Rewritten(fs), arm, i);
    NormalizedObject(fs);
  }

  /** The instance is judged the same before and after. */
  ghost predicate SameVerdict(voc: Vocabulary, fs: Fields, i: Json) {
    Valid(V31, voc, Obj(fs), i) <==> Valid(V30, voc, Normalize(Obj(fs)), i)
  }

  /** Every instance but null that the arm accepts meets the other union. */
  ghost predicate ArmMeets(voc: Vocabulary, arm: Fields, other: string, dropped: Items) {
    forall i | i != Null && Valid(V31, voc, Obj(arm), i) :: Meets(other, CountValid(V31, voc, dropped, i))
  }

  /** Null passes the rest of the arm exactly when it meets the other union, and the nullable one as `oneOf`. */
  ghost predicate NullMeets(voc: Vocabulary, arm: Fields, key: string, other: string, dropped: Items) {
    RestOk(V31, voc, arm, Null) <==>
    && Meets(other, CountValid(V31, voc, dropped, Null))
    && (key == "oneOf" ==> !Valid(V31, voc, Obj(arm), Null))
  }

  /** Nothing is lost at this instance by dropping the other union. */
  ghost predicate DropFits(voc: Vocabulary, arm: Fields, key: string, other: string, dropped: Items, i: Json) {
    if i == Null then NullMeets(voc, arm, key, other, dropped)
    else Valid(V31, voc, Obj(arm), i) ==> Meets(other, CountValid(V31, voc, dropped, i))
  }

  lemma DropFitsEverywhere(voc: Vocabulary, arm: Fields, key: string, other: string, dropped: Items)
    ensures (forall i :: DropFits(voc, arm, key, other, dropped, i)) <==>
            ArmMeets(voc, arm, other, dropped) && NullMeets(voc, arm, key, other, dropped)
  {
    hide NullMeets, Meets;
    if forall i :: DropFits(voc, arm, key, other, dropped, i) {
      forall i | i != Null && Valid(V31, voc, Obj(arm), i) ensures Meets(other, CountValid(V31, voc, dropped, i)) {
        assert DropFits(voc, arm, key, other, dropped, i);
      }
      assert DropFits(voc, arm, key, other, dropped, Null);
    }
  }

  /**
   A union that is dropped beside a nullable one does no harm if and only if every instance but null that the arm
   accepts meets it, and null passes the rest of the arm exactly when it meets both unions.
   */
  lemma OtherUnionExact(voc: Vocabulary, fs: Fields, key: string, other: string)
    requires AnnotationsAccept(voc) && UnionWith(fs, key, {other}) && {key, other} == {"anyOf", "oneOf"}
    requires Get(fs, other).Some? && Get(fs, other).value.Arr? && Plain(voc, ArmOf(fs, key, {other}))
    ensures var arm, dropped := ArmOf(fs, key, {other}), ArmsOf(fs, other);
            (forall i :: SameVerdict(voc, fs, i)) <==>
            ArmMeets(voc, arm, other, dropped) && NullMeets(voc, arm, key, other, dropped)
  {
    hide UnionWith, Plain, SameVerdict, DropFits, ArmMeets, NullMeets, AnnotationsAccept;
    var arm, dropped := ArmOf(fs, key, {other}), ArmsOf(fs, other);
    forall i ensures SameVerdict(voc, fs, i) <==> DropFits(voc, arm, key, other, dropped, i) {
      OtherUnionAt(voc, fs, key, other, i);
    }
    DropFitsEverywhere(voc, arm, key, other, dropped);
  }

  lemma OtherUnionAt(voc: Vocabulary, fs: Fields, key: string, other: string, i: Json)
    requires AnnotationsAccept(voc) && UnionWith(fs, key, {other}) && {key, other} == {"anyOf", "oneOf"}
    requires Get(fs, other).Some? && Get(fs, other).value.Arr? && Plain(voc, ArmOf(fs, key, {other}))
    ensures SameVerdict(voc, fs, i) <==> DropFits(voc, ArmOf(fs, key, {other}), key, other, ArmsOf(fs, other), i)
  {
    hide Get, DistinctKeys, AnnotationsAccept, RestOk, Rewritten, Plain, NullableUnion, Normalize, TypeOk, CountValid,
      ConcreteArm, Meets;
    UnionWithKeys(fs, key, {other});
    BothUnionsBefore(voc, fs, key, other, i);
    UnionBefore(voc, Without(fs, {other}), key, i);
    OtherUnionAfter(voc, fs, key, other, i);
  }

  // ----- keywords that the semantics leaves open -----

  /** The keywords beside the union that assert something. */
  ghost function Siblings(fs: Fields, key: string): set<string> {
    set k | k in Keys(fs) && k != key && k !in ANNOTATIONS
  }

  function Keys(fs: Fields): (r: set<string>)
    ensures forall k :: k in r <==> Has(fs, k)
  {
    match fs
    case Empty => {}
    case Entry(k, _, rest) => {k} + Keys(rest)
  }

  /** A nullable union beside keywords that the semantics leaves open and that the rewrite does not change. */
  ghost predicate UnionBeside(fs: Fields, key: string, siblings: set<string>) {
    && siblings == Siblings(fs, key) && siblings !! INTERPRETED
    && (forall k | k in siblings :: NormalForm(Get(fs, k).value))
    && DistinctKeys(fs) && NullableUnion(Without(fs, siblings), key)
    && ConcreteArm(Get(fs, key)).Some? && ConcreteArm(Get(fs, key)).value.Obj?
  }

  lemma BesideIsWith(fs: Fields, key: string, siblings: set<string>)
    requires UnionBeside(fs, key, siblings)
    ensures UnionWith(fs, key, siblings)
  {
    hide Get, DistinctKeys, NullableUnion, NormalForm, ConcreteArm, NormalizeFields, Siblings;
    NullableKey(Without(fs, siblings), key);
    UnionsAmong(fs, key, siblings);
    NoArmOfNone();
    assert "exclusiveMinimum" in INTERPRETED && "exclusiveMaximum" in INTERPRETED;
  }

  lemma UnionsAmong(fs: Fields, key: string, siblings: set<string>)
    requires siblings == Siblings(fs, key) && siblings !! INTERPRETED
    ensures key !in siblings && (key == "oneOf" ==> Get(fs, "anyOf") == None)
    ensures forall k | k in siblings :: Has(fs, k)
    ensures forall k | Has(fs, k) :: k in siblings || k == key || k in ANNOTATIONS
  {
    hide Get;
    assert "anyOf" in INTERPRETED && "anyOf" !in ANNOTATIONS;
    assert forall k | Has(fs, k) :: k in Keys(fs);
  }

  ghost predicate SiblingsOk(voc: Vocabulary, fs: Fields, siblings: set<string>, i: Json) {
    forall k | k in siblings :: Has(fs, k) ==> voc(k, Get(fs, k).value, i)
  }

  /** What uninterpreted keywords add to a dictionary is what they assert. */
  lemma SiblingsAdd(d: Dialect, voc: Vocabulary, fs: Fields, core: Fields, siblings: set<string>, i: Json)
    requires SamePast(fs, core, siblings) && siblings !! INTERPRETED && forall k | k in siblings :: !Has(core, k)
    ensures Valid(d, voc, Obj(fs), i) <==> Valid(d, voc, Obj(core), i) && SiblingsOk(voc, fs, siblings, i)
  {
    hide Get, RestOk, SiblingsOk;
    SameTypes(d, fs, core, siblings, i);
    RestSplits(d, voc, fs, core, siblings, i);
  }

  lemma SameTypes(d: Dialect, fs: Fields, core: Fields, siblings: set<string>, i: Json)
    requires SamePast(fs, core, siblings) && siblings !! INTERPRETED
    ensures TypeOk(d, fs, i) <==> TypeOk(d, core, i)
  {
    hide Get, HasType;
    assert "type" in INTERPRETED && "nullable" in INTERPRETED;
    assert Get(fs, "type") == Get(core, "type") && Get(fs, "nullable") == Get(core, "nullable");
  }

  lemma RestSplits(d: Dialect, voc: Vocabulary, fs: Fields, core: Fields, siblings: set<string>, i: Json)
    requires SamePast(fs, core, siblings) && siblings !! INTERPRETED && forall k | k in siblings :: !Has(core, k)
    ensures RestOk(d, voc, fs, i) <==> RestOk(d, voc, core, i) && SiblingsOk(voc, fs, siblings, i)
  {
    hide Get, BoundsOk, UnionsOk, InnerOk, ListedOk, UnlistedOk, OthersOk, SiblingsOk;
    assert SameKeywords(fs, core);
    SameBoundsAndUnions(d, voc, fs, core, i);
    SameSubschemas(d, voc, fs, core, i);
    OthersSplit(voc, fs, core, siblings, i);
  }

  lemma OthersSplit(voc: Vocabulary, fs: Fields, core: Fields, siblings: set<string>, i: Json)
    requires SamePast(fs, core, siblings) && siblings !! INTERPRETED && forall k | k in siblings :: !Has(core, k)
    ensures OthersOk(voc, fs, i) <==> OthersOk(voc, core, i) && SiblingsOk(voc, fs, siblings, i)
  {
    hide Get;
    forall k
      ensures (Has(fs, k) ==> voc(k, Get(fs, k).value, i)) <==>
              (Has(core, k) ==> voc(k, Get(core, k).value, i)) &&
                (k in siblings ==> (Has(fs, k) ==> voc(k, Get(fs, k).value, i)))
    {
      assert k !in siblings ==> Get(fs, k) == Get(core, k);
    }
  }

  /** The arm without the keywords that the parent replaces, which is as plain as the arm. */
  lemma BareArmIsPlain(voc: Vocabulary, arm: Fields, siblings: set<string>)
    requires Plain(voc, arm) && siblings !! INTERPRETED
    ensures Plain(voc, Without(arm, siblings))
  {
    hide Get, Convertible, ConvertibleArms, ConvertibleValues, NormalForm, DistinctKeys, LowerBoundsAgree,
      UpperBoundsAgree;
    var bare := Without(arm, siblings);
    assert forall k | k in INTERPRETED :: Get(bare, k) == Get(arm, k);
    assert PlainKeywords(bare);
    assert PlainSubschemas(voc, bare);
  }

  lemma RewrittenBare(voc: Vocabulary, arm: Fields, siblings: set<string>)
    requires Plain(voc, arm) && siblings !! INTERPRETED
    ensures var r := Rewritten(Without(arm, siblings));
            SamePast(Rewritten(arm), r, siblings) && forall k | k in siblings :: !Has(r, k)
  {
    hide Get, Plain, Rewritten, NormalizeFields, Normalize;
    var bare := Without(arm, siblings);
    BareArmIsPlain(voc, arm, siblings);
    PlainIsUncollapsed(voc, arm);
    PlainIsUncollapsed(voc, bare);
    FlaggedApart(NormalizeFields(arm), NormalizeFields(bare), Rewritten(arm), Rewritten(bare), siblings);
  }

  /** Flagging the bounds of dictionaries that agree but for other keys gives dictionaries that agree but for those. */
  lemma FlaggedApart(n: Fields, m: Fields, r: Fields, s: Fields, siblings: set<string>)
    requires FlaggedFrom(n, r) && FlaggedFrom(m, s) && SamePast(n, m, siblings)
    requires siblings !! INTERPRETED && forall k | k in siblings :: !Has(m, k)
    ensures SamePast(r, s, siblings) && forall k | k in siblings :: !Has(s, k)
  {
    hide Get;
    assert BOUNDS <= INTERPRETED;
    assert Get(n, "minimum") == Get(m, "minimum") && Get(n, "exclusiveMinimum") == Get(m, "exclusiveMinimum");
    assert Get(n, "maximum") == Get(m, "maximum") && Get(n, "exclusiveMaximum") == Get(m, "exclusiveMaximum");
    forall k | k !in BOUNDS ensures Get(r, k) == Get(n, k) && Get(s, k) == Get(m, k) {
    }
  }

  /** Before, the siblings, null or the arm, and what the arm says under the siblings' keywords. */
  lemma BesideBefore(voc: Vocabulary, fs: Fields, key: string, siblings: set<string>, i: Json)
    requires AnnotationsAccept(voc) && UnionBeside(fs, key, siblings)
    ensures var arm := ConcreteArm(Get(fs, key)).value.fields;
            var armOk := Valid(V31, voc, Obj(Without(arm, siblings)), i) && SiblingsOk(voc, arm, siblings, i);
            Valid(V31, voc, Obj(fs), i) <==>
            && SiblingsOk(voc, fs, siblings, i)
            && if key == "anyOf" then i == Null || armOk else (i == Null) != armOk
  {
    hide Get, DistinctKeys, NullableUnion, NormalForm, ConcreteArm, Siblings, Valid, SiblingsOk, AnnotationsAccept;
    var core := Without(fs, siblings);
    var arm := ConcreteArm(Get(fs, key)).value.fields;
    UnionsAmong(fs, key, siblings);
    assert Get(core, key) == Get(fs, key);
    SiblingsAdd(V31, voc, fs, core, siblings, i);
    SiblingsAdd(V31, voc, arm, Without(arm, siblings), siblings, i);
    UnionBefore(voc, core, key, i);
  }

  /** Afterwards, the siblings and the rest of the arm, nullable. */
  lemma BesideAfter(voc: Vocabulary, fs: Fields, key: string, siblings: set<string>, i: Json)
    requires AnnotationsAccept(voc) && UnionBeside(fs, key, siblings)
    requires Plain(voc, ConcreteArm(Get(fs, key)).value.fields)
    ensures var bare := Without(ConcreteArm(Get(fs, key)).value.fields, siblings);
            Valid(V30, voc, Normalize(Obj(fs)), i) <==>
            && SiblingsOk(voc, fs, siblings, i)
            && (i == Null || TypeOk(V31, bare, i)) && RestOk(V31, voc, bare, i)
  {
    hide Get, DistinctKeys, NullableUnion, NormalForm, ConcreteArm, Siblings, Valid, AnnotationsAccept, Rewritten,
      RestOk,
      Plain, TypeOk, Normalize, UnionWith;
    var arm, r := ConcreteArm(Get(fs, key)).value.fields, Rewritten(fs);
    BesideIsWith(fs, key, siblings);
    UnionsAmong(fs, key, siblings);
    RewrittenBare(voc, arm, siblings);
    BareArmIsPlain(voc, arm, siblings);
    var rest := Without(r, siblings);
    forall k
      ensures k !in ANNOTATIONS + {"nullable"} ==> Get(rest, k) == Get(Rewritten(Without(arm, siblings)), k)
      ensures k in siblings ==> Get(r, k) == Get(fs, k)
    {
      BesideAt(voc, fs, key, siblings, k);
    }
    NullableKept(voc, fs, key, siblings);
    NullableArmMeans(voc, rest, Without(arm, siblings), i);
    SiblingsAdd(V30, voc, r, rest, siblings, i);
    NormalizedObject(fs);
  }

  lemma NullableKept(voc: Vocabulary, fs: Fields, key: string, siblings: set<string>)
    requires UnionBeside(fs, key, siblings) && Plain(voc, ConcreteArm(Get(fs, key)).value.fields)
    ensures Get(Without(Rewritten(fs), siblings), "nullable") == Some(Bool(true))
  {
    hide Get, DistinctKeys, NullableUnion, NormalForm, ConcreteArm, Siblings, Rewritten, Plain, UnionWith;
    BesideIsWith(fs, key, siblings);
    CollapsedAt(voc, fs, key, siblings, "nullable");
    assert "nullable" in INTERPRETED;
  }

  lemma BesideAt(voc: Vocabulary, fs: Fields, key: string, siblings: set<string>, k: string)
    requires UnionBeside(fs, key, siblings) && Plain(voc, ConcreteArm(Get(fs, key)).value.fields)
    ensures var bare := Rewritten(Without(ConcreteArm(Get(fs, key)).value.fields, siblings));
            k !in ANNOTATIONS + {"nullable"} ==> Get(Without(Rewritten(fs), siblings), k) == Get(bare, k)
    ensures k in siblings ==> Get(Rewritten(fs), k) == Get(fs, k)
  {
    hide Get, DistinctKeys, NullableUnion, NormalForm, ConcreteArm, Siblings, Rewritten, Plain, Normalize, UnionWith;
    var arm := ConcreteArm(Get(fs, key)).value.fields;
    BesideIsWith(fs, key, siblings);
    UnionsAmong(fs, key, siblings);
    NullableKey(Without(fs, siblings), key);
    RewrittenBare(voc, arm, siblings);
    CollapsedAt(voc, fs, key, siblings, k);
    assert {"nullable", "anyOf", "oneOf"} <= INTERPRETED;
    if k in siblings {
      NormalFormIsFixed(Get(fs, k).value);
    }
  }

  /** Nothing is lost at this instance by laying the siblings over the arm. */
  ghost predicate BesideFits(voc: Vocabulary, fs: Fields, arm: Fields, key: string, siblings: set<string>, i: Json) {
    var bare := Without(arm, siblings);
    if i == Null then
      SiblingsOk(voc, fs, siblings, Null) ==>
        RestOk(V31, voc, bare, Null) && (key == "oneOf" ==> Has(arm, "type") || !SiblingsOk(voc, arm, siblings, Null))
    else
      SiblingsOk(voc, fs, siblings, i) && Valid(V31, voc, Obj(bare), i) ==> SiblingsOk(voc, arm, siblings, i)
  }

  lemma BesideFitsAt(voc: Vocabulary, fs: Fields, key: string, siblings: set<string>, i: Json)
    requires AnnotationsAccept(voc) && UnionBeside(fs, key, siblings)
    requires Plain(voc, ConcreteArm(Get(fs, key)).value.fields)
    ensures SameVerdict(voc, fs, i) <==> BesideFits(voc, fs, ConcreteArm(Get(fs, key)).value.fields, key, siblings, i)
  {
    hide Get, DistinctKeys, NullableUnion, NormalForm, ConcreteArm, Siblings, AnnotationsAccept, RestOk, Plain,
      Normalize,
      SiblingsOk;
    var arm := ConcreteArm(Get(fs, key)).value.fields;
    BesideBefore(voc, fs, key, siblings, i);
    BesideAfter(voc, fs, key, siblings, i);
    NullableKey(Without(fs, siblings), key);
    NullType(voc, arm, siblings);
  }

  lemma NullType(voc: Vocabulary, arm: Fields, siblings: set<string>)
    requires Plain(voc, arm) && siblings !! INTERPRETED
    ensures TypeOk(V31, Without(arm, siblings), Null) <==> !Has(arm, "type")
  {
    hide Get, DistinctKeys, NormalForm, PlainSubschemas;
    assert "type" in INTERPRETED;
  }

  /**
   A nullable union beside such keywords keeps its meaning if and only if every instance but null that passes the
   siblings and the rest of the arm passes what the arm says under the same keywords, and null, where the siblings
   accept it, passes the rest of the arm (and `oneOf` refuses it in the arm).
   */
  lemma UnionBesideExact(voc: Vocabulary, fs: Fields, key: string, siblings: set<string>)
    requires AnnotationsAccept(voc) && UnionBeside(fs, key, siblings)
    requires Plain(voc, ConcreteArm(Get(fs, key)).value.fields)
    ensures var arm := ConcreteArm(Get(fs, key)).value.fields; var bare := Without(arm, siblings);
            (forall i :: SameVerdict(voc, fs, i)) <==>
            && (forall i | i != Null && SiblingsOk(voc, fs, siblings, i) && Valid(V31, voc, Obj(bare), i) ::
                  SiblingsOk(voc, arm, siblings, i))
            && (SiblingsOk(voc, fs, siblings, Null) ==>
                  && RestOk(V31, voc, bare, Null)
                  && (key == "oneOf" ==> Has(arm, "type") || !SiblingsOk(voc, arm, siblings, Null)))
  {
    var arm := ConcreteArm(Get(fs, key)).value.fields;
    hide UnionBeside, Plain, SameVerdict, Valid, RestOk, AnnotationsAccept, SiblingsOk, ConcreteArm, Get;
    forall i ensures SameVerdict(voc, fs, i) <==> BesideFits(voc, fs, arm, key, siblings, i) {
      BesideFitsAt(voc, fs, key, siblings, i);
    }
    assert SameVerdict(voc, fs, Null) <==> BesideFits(voc, fs, arm, key, siblings, Null);
    if forall i :: SameVerdict(voc, fs, i) {
      forall i | i != Null && SiblingsOk(voc, fs, siblings, i) && Valid(V31, voc, Obj(Without(arm, siblings)), i)
        ensures SiblingsOk(voc, arm, siblings, i)
      {
        assert SameVerdict(voc, fs, i);
      }
    }
  }

  /** When the arm has none of those keywords, it is null alone that decides. */
  lemma UnionBesideApart(voc: Vocabulary, fs: Fields, key: string, siblings: set<string>)
    requires AnnotationsAccept(voc) && UnionBeside(fs, key, siblings)
    requires Plain(voc, ConcreteArm(Get(fs, key)).value.fields)
    requires forall k | k in siblings :: !Has(ConcreteArm(Get(fs, key)).value.fields, k)
    ensures (forall i :: SameVerdict(voc, fs, i)) <==>
            (SiblingsOk(voc, fs, siblings, Null) ==> NullFits(voc, key, ConcreteArm(Get(fs, key)).value.fields))
  {
    hide Plain, SameVerdict, Valid, RestOk, AnnotationsAccept, ConcreteArm, Get, NullableUnion, Siblings;
    var arm := ConcreteArm(Get(fs, key)).value.fields;
    UnionBesideExact(voc, fs, key, siblings);
    RestSplits(V31, voc, arm, Without(arm, siblings), siblings, Null);
  }

  // ----- a bound beside the union and in the arm -----

  predicate Within(bound: string, m: Number, i: Json) {
    i.Num? ==> if bound == "minimum" then Magnitude(m) <= Magnitude(i.num) else Magnitude(i.num) <= Magnitude(m)
  }

  /** The extreme instance of the type that the bound lets through. */
  function Extreme(bound: string, t: string, n: real): real {
    if t == "number" then n
    else if bound == "minimum" then -((-n).Floor as real)
    else n.Floor as real
  }

  /** Numbers or integers with one bound, and that same bound beside the union. */
  ghost predicate BoundBeside(fs: Fields, key: string, bound: string, t: string, m: Number, n: Number) {
    && (bound == "minimum" || bound == "maximum") && (t == "number" || t == "integer")
    && UnionWith(fs, key, {bound}) && Get(fs, bound) == Some(Num(n))
    && var arm := ConcreteArm(Get(fs, key)).value.fields;
       Only(arm, {"type", bound}) && Get(arm, "type") == Some(Str(t)) && Get(arm, bound) == Some(Num(m))
  }

  /** A dictionary of a type and one bound, and annotations, asserts these two. */
  lemma TypedBound(d: Dialect, voc: Vocabulary, r: Fields, bound: string, t: string, m: Number, i: Json)
    requires AnnotationsAccept(voc) && (bound == "minimum" || bound == "maximum") &&
             Only(r, {"type", bound, "nullable"})
    requires Get(r, "type") == Some(Str(t)) && Get(r, bound) == Some(Num(m)) && (t == "number" || t == "integer")
    ensures Valid(d, voc, Obj(r), i) <==>
            && Within(bound, m, i)
            && (HasType(t, i) || (i == Null && d == V30 && Get(r, "nullable") == Some(Bool(true))))
  {
    hide Get, RestOk, AnnotationsAccept, DistinctKeys;
    OnlyBoundsAndUnionsMatter(d, voc, r, i);
    OtherBoundsAbsent(r, bound);
    assert UnionsOk(d, voc, r, i);
    assert BoundsOk(d, r, i) <==> Within(bound, m, i);
  }

  lemma OtherBoundsAbsent(r: Fields, bound: string)
    requires (bound == "minimum" || bound == "maximum") && Only(r, {"type", bound, "nullable"})
    ensures Get(r, "exclusiveMinimum") == None && Get(r, "exclusiveMaximum") == None
    ensures Get(r, if bound == "minimum" then "maximum" else "minimum") == None
    ensures Get(r, "anyOf") == None && Get(r, "oneOf") == None && Get(r, "allOf") == None
  {
    hide Get, DistinctKeys;
    assert BOUNDS + {"anyOf", "oneOf", "allOf"} !! ANNOTATIONS;
  }

  lemma BoundArmIsPlain(voc: Vocabulary, arm: Fields, bound: string, t: string, m: Number)
    requires (bound == "minimum" || bound == "maximum") && Only(arm, {"type", bound}) && t != "null"
    requires Get(arm, "type") == Some(Str(t)) && Get(arm, bound) == Some(Num(m))
    ensures Plain(voc, arm)
  {
    hide Get, DistinctKeys, Convertible, ConvertibleArms, ConvertibleValues, NormalForm;
    OtherBoundsAbsent(arm, bound);
    forall k | k in INTERPRETED && k != "type" && k != bound ensures !Has(arm, k) {
      NoneElse(arm, {"type", bound}, k);
    }
    NoneElse(arm, {"type", bound}, "nullable");
    assert PlainKeywords(arm);
    assert PlainSubschemas(voc, arm);
  }

  /** The rewritten dictionary has the arm's type and the parent's bound. */
  lemma BoundRewritten(voc: Vocabulary, fs: Fields, key: string, bound: string, t: string, m: Number, n: Number)
    requires BoundBeside(fs, key, bound, t, m, n)
    ensures var r := Rewritten(fs);
            && Only(r, {"type", bound, "nullable"}) && Get(r, "nullable") == Some(Bool(true))
            && Get(r, "type") == Some(Str(t)) && Get(r, bound) == Some(Num(n))
  {
    hide Get, DistinctKeys, UnionWith, ConcreteArm, Rewritten, Plain, Normalize, FlaggedFrom;
    var arm, r := ArmOf(fs, key, {bound}), Rewritten(fs);
    BoundArmIsPlain(voc, arm, bound, t, m);
    UnionWithKeys(fs, key, {bound});
    RewrittenDistinct(voc, fs, key, {bound});
    BoundArmRewritten(voc, arm, bound, t, m);
    forall k
      ensures Has(r, k) ==> k in {"type", bound, "nullable"} || k in ANNOTATIONS
      ensures k == "nullable" ==> Get(r, k) == Some(Bool(true))
      ensures k == "type" ==> Get(r, k) == Some(Str(t))
      ensures k == bound ==> Get(r, k) == Some(Normalize(Num(n)))
    {
      CollapsedAt(voc, fs, key, {bound}, k);
      assert "type" !in ANNOTATIONS;
    }
    NumberStays(n);
  }

  lemma NumberStays(n: Number)
    ensures Normalize(Num(n)) == Num(n)
  {
  }

  lemma RewrittenDistinct(voc: Vocabulary, fs: Fields, key: string, others: set<string>)
    requires UnionWith(fs, key, others) && Plain(voc, ArmOf(fs, key, others))
    ensures DistinctKeys(Rewritten(fs))
  {
    hide Get, DistinctKeys, UnionWith, Plain, MergeArm, Rewritten, NormalizeFields;
    UnionCollapses(voc, fs, key, others);
    MergedLookups(NormalizeFields(fs), Obj(Rewritten(ArmOf(fs, key, others))));
  }

  lemma BoundArmRewritten(voc: Vocabulary, arm: Fields, bound: string, t: string, m: Number)
    requires Plain(voc, arm) && (bound == "minimum" || bound == "maximum") && Only(arm, {"type", bound})
    requires Get(arm, "type") == Some(Str(t))
    ensures Get(Rewritten(arm), "type") == Some(Str(t))
    ensures forall k | Has(Rewritten(arm), k) :: k in {"type", bound} || k in ANNOTATIONS
  {
    hide Get, DistinctKeys, Plain, Rewritten, NormalizeFields;
    OtherBoundsAbsent(arm, bound);
    PlainIsUncollapsed(voc, arm);
    PlainTypeKept(voc, arm);
  }

  /** Before the rewrite, both bounds hold of the instances of the type; afterwards, the parent's. */
  lemma BoundBesideMeans(
    voc: Vocabulary, fs: Fields, key: string, bound: string, t: string, m: Number, n: Number, i: Json)
    requires AnnotationsAccept(voc) && BoundBeside(fs, key, bound, t, m, n)
    ensures Valid(V31, voc, Obj(fs), i) <==>
            Within(bound, n, i) && (i == Null || (HasType(t, i) && Within(bound, m, i)))
    ensures Valid(V30, voc, Normalize(Obj(fs)), i) <==> Within(bound, n, i) && (i == Null || HasType(t, i))
  {
    hide Get, DistinctKeys, UnionWith, ConcreteArm, Rewritten, Valid, AnnotationsAccept, Within, Normalize;
    var arm := ArmOf(fs, key, {bound});
    BoundRewritten(voc, fs, key, bound, t, m, n);
    TypedBound(V30, voc, Rewritten(fs), bound, t, n, i);
    NormalizedObject(fs);
    TypedBound(V31, voc, arm, bound, t, m, i);
    BoundSplits(voc, fs, key, bound, n, i);
    ArmIsObject(fs, key, {bound});
    assert HasType(t, Null) == false;
  }

  lemma ArmIsObject(fs: Fields, key: string, others: set<string>)
    requires UnionWith(fs, key, others)
    ensures ConcreteArm(Get(fs, key)) == Some(Obj(ArmOf(fs, key, others))) && (key == "anyOf" || key == "oneOf")
  {
    hide Get, DistinctKeys;
  }

  lemma BoundSplits(voc: Vocabulary, fs: Fields, key: string, bound: string, n: Number, i: Json)
    requires AnnotationsAccept(voc) && (bound == "minimum" || bound == "maximum")
    requires UnionWith(fs, key, {bound}) && Get(fs, bound) == Some(Num(n))
    ensures var armOk := Valid(V31, voc, ConcreteArm(Get(fs, key)).value, i);
            Valid(V31, voc, Obj(fs), i) <==>
            Within(bound, n, i) && if key == "anyOf" then i == Null || armOk else (i == Null) != armOk
  {
    hide Get, DistinctKeys, ConcreteArm, AnnotationsAccept, NullableUnion, CountValid, RestOk;
    var core := Without(fs, {bound});
    UnionWithKeys(fs, key, {bound});
    CoreIsArr(core, key);
    UnionBefore(voc, core, key, i);
    UnionOfArms(V31, voc, core, key, ArmsOf(fs, key), i);
    UnionAndBound(voc, fs, key, bound, n, ArmsOf(fs, key), i);
  }

  lemma OnlyOneBound(fs: Fields, key: string, bound: string)
    requires (bound == "minimum" || bound == "maximum") && (key == "anyOf" || key == "oneOf") && Only(fs, {key, bound})
    ensures Get(fs, "exclusiveMinimum") == None && Get(fs, "exclusiveMaximum") == None
    ensures Get(fs, if bound == "minimum" then "maximum" else "minimum") == None
    ensures Get(fs, if key == "anyOf" then "oneOf" else "anyOf") == None
    ensures Get(fs, "allOf") == None && Get(fs, "type") == None
  {
    hide Get, Only;
    NoneElse(fs, {key, bound}, "exclusiveMinimum");
    NoneElse(fs, {key, bound}, "exclusiveMaximum");
    NoneElse(fs, {key, bound}, if bound == "minimum" then "maximum" else "minimum");
    NoneElse(fs, {key, bound}, if key == "anyOf" then "oneOf" else "anyOf");
    NoneElse(fs, {key, bound}, "allOf");
    NoneElse(fs, {key, bound}, "type");
  }

  lemma UnionAndBound(voc: Vocabulary, fs: Fields, key: string, bound: string, n: Number, arms: Items, i: Json)
    requires AnnotationsAccept(voc) && (bound == "minimum" || bound == "maximum") && (key == "anyOf" || key == "oneOf")
    requires Only(fs, {key, bound}) && Get(fs, bound) == Some(Num(n)) && Get(fs, key) == Some(Arr(arms))
    ensures Valid(V31, voc, Obj(fs), i) <==> Within(bound, n, i) && Meets(key, CountValid(V31, voc, arms, i))
  {
    hide Get, DistinctKeys, AnnotationsAccept, CountValid, RestOk;
    OnlyBoundsAndUnionsMatter(V31, voc, fs, i);
    OnlyOneBound(fs, key, bound);
    assert BoundsOk(V31, fs, i) <==> Within(bound, n, i);
    assert UnionsOk(V31, voc, fs, i) <==> Meets(key, CountValid(V31, voc, arms, i));
    assert TypeOk(V31, fs, i);
  }

  /**
   A bound in the arm that the same bound beside the union replaces does no harm if and only if the replacement is as
   strict, for the numbers or the integers that the arm is about.
   */
  lemma OverwrittenBoundExact(voc: Vocabulary, fs: Fields, key: string, bound: string, t: string, m: Number, n: Number)
    requires AnnotationsAccept(voc) && BoundBeside(fs, key, bound, t, m, n)
    ensures var kept := Extreme(bound, t, Magnitude(n));
            (forall i :: SameVerdict(voc, fs, i)) <==>
            if bound == "minimum" then Magnitude(m) <= kept else kept <= Magnitude(m)
  {
    hide BoundBeside, AnnotationsAccept, SameVerdict;
    forall i ensures SameVerdict(voc, fs, i) <==> (HasType(t, i) && Within(bound, n, i) ==> Within(bound, m, i)) {
      BoundSame(voc, fs, key, bound, t, m, n, i);
    }
    BoundIsType(fs, key, bound, t, m, n);
    ExtremeDecides(bound, t, m, n);
  }

  lemma BoundSame(voc: Vocabulary, fs: Fields, key: string, bound: string, t: string, m: Number, n: Number, i: Json)
    requires AnnotationsAccept(voc) && BoundBeside(fs, key, bound, t, m, n)
    ensures SameVerdict(voc, fs, i) <==> (HasType(t, i) && Within(bound, n, i) ==> Within(bound, m, i))
  {
    hide BoundBeside, AnnotationsAccept, Valid, Normalize;
    BoundIsType(fs, key, bound, t, m, n);
    BoundBesideMeans(voc, fs, key, bound, t, m, n, i);
  }

  lemma BoundIsType(fs: Fields, key: string, bound: string, t: string, m: Number, n: Number)
    requires BoundBeside(fs, key, bound, t, m, n)
    ensures (bound == "minimum" || bound == "maximum") && (t == "number" || t == "integer")
  {
  }

  lemma ExtremeDecides(bound: string, t: string, m: Number, n: Number)
    requires (bound == "minimum" || bound == "maximum") && (t == "number" || t == "integer")
    ensures var kept := Extreme(bound, t, Magnitude(n));
            (forall i :: HasType(t, i) && Within(bound, n, i) ==> Within(bound, m, i)) <==>
            if bound == "minimum" then Magnitude(m) <= kept else kept <= Magnitude(m)
  {
    var kept := Num(Float("", Extreme(bound, t, Magnitude(n))));
    ExtremeIsInstance(bound, t, n);
    forall i | HasType(t, i) && Within(bound, n, i)
      ensures if bound == "minimum" then Extreme(bound, t, Magnitude(n)) <= Magnitude(i.num)
              else Magnitude(i.num) <= Extreme(bound, t, Magnitude(n))
    {
      ExtremeIsExtreme(bound, t, n, i);
    }
    assert HasType(t, kept) && Within(bound, n, kept);
  }

  lemma ExtremeIsInstance(bound: string, t: string, n: Number)
    requires (bound == "minimum" || bound == "maximum") && (t == "number" || t == "integer")
    ensures var kept := Num(Float("", Extreme(bound, t, Magnitude(n)))); HasType(t, kept) && Within(bound, n, kept)
  {
    var x := Magnitude(n);
    hide Magnitude;
    RoundedUp(x, Extreme(bound, t, x));
    RoundedDown(x, Extreme(bound, t, x));
    assert Magnitude(Float("", Extreme(bound, t, x))) == Extreme(bound, t, x) by {
      FloatMagnitude(Extreme(bound, t, x));
    }
  }

  lemma FloatMagnitude(x: real)
    ensures Magnitude(Float("", x)) == x
  {
  }

  /** Rounding up gives the least integer above. */
  lemma RoundedUp(x: real, y: real)
    ensures var up := -((-x).Floor as real);
            x <= up && up == up.Floor as real && (y == y.Floor as real && x <= y ==> up <= y)
  {
    var k := (-x).Floor;
    IntegerFloor(-k);
    assert -(k as real) == (-k) as real;
    if y == y.Floor as real && x <= y {
      LeastAbove(x, k, y.Floor);
    }
  }

  lemma LeastAbove(x: real, k: int, j: int)
    requires k == (-x).Floor && x <= j as real
    ensures -k <= j
  {
    assert -x < k as real + 1.0;
  }

  lemma IntegerFloor(k: int)
    ensures (k as real).Floor == k
  {
  }

  lemma RoundedDown(x: real, y: real)
    ensures var down := x.Floor as real;
            down <= x && down == down.Floor as real && (y == y.Floor as real && y <= x ==> y <= down)
  {
  }

  lemma ExtremeIsExtreme(bound: string, t: string, n: Number, i: Json)
    requires (bound == "minimum" || bound == "maximum") && (t == "number" || t == "integer")
    requires HasType(t, i) && Within(bound, n, i)
    ensures i.Num?
    ensures if bound == "minimum" then Extreme(bound, t, Magnitude(n)) <= Magnitude(i.num)
            else Magnitude(i.num) <= Extreme(bound, t, Magnitude(n))
  {
    assert i.Num?;
    var x, y := Magnitude(n), Magnitude(i.num);
    hide Magnitude;
    RoundedUp(x, y);
    RoundedDown(x, y);
  }

  // ----- instances -----

  const NULL_SCHEMA := Obj(Entry("type", Str("null"), Empty))

  /** A dictionary of `anyOf` with null and one more key. */
  function NullableBeside(arm: Fields, k: string, v: Json): Fields {
    Entry("anyOf", Arr(Cons(Obj(arm), Cons(NULL_SCHEMA, Nil))), Entry(k, v, Empty))
  }

  lemma NullableBesideIsWith(arm: Fields, k: string, v: Json)
    requires !NullArm(Obj(arm)) && k !in {"anyOf", "exclusiveMinimum", "exclusiveMaximum"}
    ensures var fs := NullableBeside(arm, k, v);
            UnionWith(fs, "anyOf", {k}) && ArmOf(fs, "anyOf", {k}) == arm && Get(fs, k) == Some(v)
  {
    hide Get, NullArm, DistinctKeys, NormalizeFields;
    PairLookups("anyOf", Arr(Cons(Obj(arm), Cons(NULL_SCHEMA, Nil))), k, v);
    NullSchemaIsJustNull();
  }

  lemma NullSchemaIsJustNull()
    ensures JustNull(NULL_SCHEMA)
  {
  }

  /** The parent's `minimum` replaces the arm's: 3 is refused before and accepted afterwards. */
  lemma OverwrittenMinimumIsLost(voc: Vocabulary)
    requires AnnotationsAccept(voc)
    ensures var arm := Entry("type", Str("integer"), Entry("minimum", Num(Integer(5)), Empty));
            var s := Obj(NullableBeside(arm, "minimum", Num(Integer(1))));
            !Valid(V31, voc, s, Num(Integer(3))) && Valid(V30, voc, Normalize(s), Num(Integer(3)))
  {
    hide Get, DistinctKeys, UnionWith, AnnotationsAccept, Valid, Normalize, NullableBeside, NullArm;
    var arm := Entry("type", Str("integer"), Entry("minimum", Num(Integer(5)), Empty));
    PairLookups("type", Str("integer"), "minimum", Num(Integer(5)));
    TypedIsNoNullArm(arm, "integer");
    NullableBesideIsWith(arm, "minimum", Num(Integer(1)));
    var fs := NullableBeside(arm, "minimum", Num(Integer(1)));
    assert BoundBeside(fs, "anyOf", "minimum", "integer", Integer(5), Integer(1));
    BoundBesideMeans(voc, fs, "anyOf", "minimum", "integer", Integer(5), Integer(1), Num(Integer(3)));
    assert 3.0 == (3.0).Floor as real;
  }

  lemma TypedIsNoNullArm(arm: Fields, t: string)
    requires Get(arm, "type") == Some(Str(t)) && t != "null"
    ensures !NullArm(Obj(arm))
  {
  }

  /** The other union is dropped: a string is refused before and accepted afterwards. */
  lemma OtherUnionIsDropped(voc: Vocabulary)
    requires AnnotationsAccept(voc)
    ensures var s := Obj(NullableBeside(Entry("type", Str("string"), Empty), "oneOf", Arr(Cons(Bool(false), Nil))));
            !Valid(V31, voc, s, Str("")) && Valid(V30, voc, Normalize(s), Str(""))
  {
    hide Get, DistinctKeys, UnionWith, AnnotationsAccept, Normalize, NullableBeside, NullArm, Plain, RestOk, TypeOk;
    var arm, never := Entry("type", Str("string"), Empty), Arr(Cons(Bool(false), Nil));
    StringArm(voc);
    TypedIsNoNullArm(arm, "string");
    NullableBesideIsWith(arm, "oneOf", never);
    var fs := NullableBeside(arm, "oneOf", never);
    BothUnionsBefore(voc, fs, "anyOf", "oneOf", Str(""));
    assert CountValid(V31, voc, Nil, Str("")) == 0;
    assert CountValid(V31, voc, ArmsOf(fs, "oneOf"), Str("")) == 0;
    OtherUnionAfter(voc, fs, "anyOf", "oneOf", Str(""));
  }

  lemma StringArm(voc: Vocabulary)
    requires AnnotationsAccept(voc)
    ensures var arm := Entry("type", Str("string"), Empty);
            && Get(arm, "type") == Some(Str("string")) && Plain(voc, arm)
            && TypeOk(V31, arm, Str("")) && RestOk(V31, voc, arm, Str(""))
  {
    hide Convertible, ConvertibleArms, ConvertibleValues, NormalForm;
    var arm := Entry("type", Str("string"), Empty);
    assert forall k :: Get(arm, k) == if k == "type" then Some(Str("string")) else None;
    hide Get;
    OnlyBoundsAndUnionsMatter(V31, voc, arm, Str(""));
    OnlyTypeIsLoose(V31, voc, arm, Str(""));
  }
}

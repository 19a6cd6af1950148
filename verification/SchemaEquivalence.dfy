/**
 A convertible 3.1 schema and its 3.0 rewrite accept the same instances.  Each step of the rewrite
 that can go wrong is characterised exactly: flagging a bound, and making a union nullable.
 */
module SchemaEquivalence {
  import opened Options
  import opened JsonValues
  import opened OpenApiShapes
  import opened SchemaMeaning
  import opened SchemaRewrite

  /** The main result: same instances before (3.1 rules) and after (3.0 rules), at every depth. */
  lemma {:induction false} MeaningPreserved(voc: Vocabulary, s: Json, i: Json)
    requires AnnotationsAccept(voc) && Convertible(voc, s)
    ensures Valid(V31, voc, s, i) <==> Valid(V30, voc, Normalize(s), i)
    decreases s, 2
  {
    hide Plain, RestOk, Get, NormalizeFields, Reshape, NullableUnion, TypeOk;
    match s
    case Bool(_) =>
    case Obj(fs) =>
      if Plain(voc, fs) {
        PlainPreserved(voc, fs, i);
      } else if NullableAt(voc, fs, "anyOf") {
        NullablePreserved(voc, fs, "anyOf", i);
      } else if AnythingOrNull(fs) {
        UnionBefore(voc, fs, "anyOf", i);
        BareArmAcceptsAll(voc, fs, "anyOf", i);
      } else {
        NullablePreserved(voc, fs, "oneOf", i);
      }
  }

  lemma {:induction false} PlainPreserved(voc: Vocabulary, fs: Fields, i: Json)
    requires AnnotationsAccept(voc) && Plain(voc, fs)
    ensures TypeOk(V31, fs, i) <==> TypeOk(V30, Rewritten(fs), i)
    ensures RestOk(V31, voc, fs, i) <==> RestOk(V30, voc, Rewritten(fs), i)
    decreases fs, 5
  {
    PlainTypesPreserved(voc, fs, i);
    PlainRestPreserved(voc, fs, i);
  }

  lemma PlainTypesPreserved(voc: Vocabulary, fs: Fields, i: Json)
    requires Plain(voc, fs)
    ensures TypeOk(V31, fs, i) <==> TypeOk(V30, Rewritten(fs), i)
  {
    hide Plain, Get, Rewritten;
    PlainTypeKept(voc, fs);
  }

  lemma {:induction false} PlainRestPreserved(voc: Vocabulary, fs: Fields, i: Json)
    requires AnnotationsAccept(voc) && Plain(voc, fs)
    ensures RestOk(V31, voc, fs, i) <==> RestOk(V30, voc, Rewritten(fs), i)
    decreases fs, 4
  {
    hide Plain, Get, Rewritten, BoundsOk, UnionsOk, InnerOk, ListedOk, UnlistedOk, OthersOk, AnnotationsAccept;
    BoundsPreserved(voc, fs, i);
    UnionsPreserved(voc, fs, i);
    InnerPreserved(voc, fs, i);
    ListedPreserved(voc, fs, i);
    UnlistedPreserved(voc, fs, i);
    OthersPreserved(voc, fs, i);
  }

  lemma BoundsPreserved(voc: Vocabulary, fs: Fields, i: Json)
    requires Plain(voc, fs)
    ensures BoundsOk(V31, fs, i) <==> BoundsOk(V30, Rewritten(fs), i)
  {
    hide Get, Rewritten, NormalizeFields, PlainSubschemas, SamePast;
    PlainIsUncollapsed(voc, fs);
  }

  lemma UncollapsedLookup(fs: Fields, k: string)
    requires Uncollapsed(fs) && k !in BOUNDS
    ensures Get(Rewritten(fs), k) == if Has(fs, k) then Some(Normalize(Get(fs, k).value)) else None
  {
    hide Get, Rewritten, NormalizeFields, Normalize;
  }

  lemma {:induction false} CountPreserved(voc: Vocabulary, arms: Items, i: Json)
    requires AnnotationsAccept(voc) && ConvertibleArms(voc, arms)
    ensures CountValid(V31, voc, arms, i) == CountValid(V30, voc, NormalizeItems(arms), i)
    ensures |Elements(NormalizeItems(arms))| == |Elements(arms)|
    decreases arms, 0
  {
    hide Valid, Normalize, Convertible;
    match arms
    case Nil =>
    case Cons(a, rest) =>
      MeaningPreserved(voc, a, i);
      CountPreserved(voc, rest, i);
  }

  lemma {:induction false} UnionsPreserved(voc: Vocabulary, fs: Fields, i: Json)
    requires AnnotationsAccept(voc) && Plain(voc, fs)
    ensures UnionsOk(V31, voc, fs, i) <==> UnionsOk(V30, voc, Rewritten(fs), i)
    decreases fs, 0
  {
    hide Get, Rewritten, NormalizeItems, CountValid, Elements, Plain, AnnotationsAccept;
    UnionPreserved(voc, fs, "anyOf", i);
    UnionPreserved(voc, fs, "oneOf", i);
    UnionPreserved(voc, fs, "allOf", i);
  }

  lemma {:induction false} UnionPreserved(voc: Vocabulary, fs: Fields, k: string, i: Json)
    requires AnnotationsAccept(voc) && Plain(voc, fs) && k in {"anyOf", "oneOf", "allOf"}
    ensures Has(fs, k) ==> var arms := Get(fs, k).value;
              && arms.Arr? && Get(Rewritten(fs), k) == Some(Arr(NormalizeItems(arms.items)))
              && CountValid(V31, voc, arms.items, i) == CountValid(V30, voc, NormalizeItems(arms.items), i)
              && |Elements(NormalizeItems(arms.items))| == |Elements(arms.items)|
    ensures !Has(fs, k) ==> Get(Rewritten(fs), k) == None
    decreases fs, 0, 0
  {
    hide Get, Rewritten, NormalizeItems, CountValid, ConvertibleArms, ConvertibleValues, Convertible, Elements,
      PlainKeywords, Uncollapsed, LowerBoundsAgree, UpperBoundsAgree;
    PlainIsUncollapsed(voc, fs);
    UncollapsedLookup(fs, k);
    if Has(fs, k) {
      CountPreserved(voc, Get(fs, k).value.items, i);
    }
  }

  lemma {:induction false} InnerPreserved(voc: Vocabulary, fs: Fields, i: Json)
    requires AnnotationsAccept(voc) && Plain(voc, fs)
    ensures InnerOk(V31, voc, fs, i) <==> InnerOk(V30, voc, Rewritten(fs), i)
    decreases fs, 0
  {
    hide Get, Rewritten, Normalize, Valid, Convertible, ConvertibleArms, ConvertibleValues, PlainKeywords, Uncollapsed,
      Elements;
    PlainIsUncollapsed(voc, fs);
    UncollapsedLookup(fs, "not");
    UncollapsedLookup(fs, "items");
    if Has(fs, "not") {
      MeaningPreserved(voc, Get(fs, "not").value, i);
    }
    if Has(fs, "items") && i.Arr? {
      forall x | x in Elements(i.items)
        ensures Valid(V31, voc, Get(fs, "items").value, x) <==> Valid(V30, voc, Normalize(Get(fs, "items").value), x)
      {
        MeaningPreserved(voc, Get(fs, "items").value, x);
      }
    }
  }

  lemma {:induction false} ValuesConvertible(voc: Vocabulary, fs: Fields, k: string)
    requires ConvertibleValues(voc, fs) && Has(fs, k)
    ensures Convertible(voc, Get(fs, k).value)
  {
    hide Convertible;
    if fs.key != k {
      ValuesConvertible(voc, fs.rest, k);
    }
  }

  /** A `properties` dictionary is walked like a schema but never looks like one. */
  lemma PropertiesKeepShape(voc: Vocabulary, props: Fields)
    requires ConvertibleValues(voc, props)
    ensures Rewritten(props) == NormalizeFields(props)
  {
    hide Get, Put, NormalizeFields, Normalize, Convertible, ConvertibleValues, FlagBounds, CollapseUnion;
    var n := NormalizeFields(props);
    forall k | Has(n, k) ensures Get(n, k).value.Bool? || Get(n, k).value.Obj? {
      ValuesConvertible(voc, props, k);
      ConvertibleIsNoNullArm(voc, Get(props, k).value);
    }
    NothingToFlag(n);
    NothingToCollapse(n);
  }

  lemma NothingToCollapse(n: Fields)
    requires forall k | Has(n, k) :: Get(n, k).value.Bool? || Get(n, k).value.Obj?
    ensures CollapseUnion(n) == n
  {
    hide Get, MergeArm;
  }

  lemma NothingToFlag(n: Fields)
    requires !Numeric(Get(n, "exclusiveMinimum")) && !Numeric(Get(n, "exclusiveMaximum"))
    ensures FlagBounds(n) == n
  {
    hide Get, Put;
  }

  lemma {:induction false} ListedPreserved(voc: Vocabulary, fs: Fields, i: Json)
    requires AnnotationsAccept(voc) && Plain(voc, fs)
    ensures ListedOk(V31, voc, fs, i) <==> ListedOk(V30, voc, Rewritten(fs), i)
    decreases fs, 0
  {
    hide Get, Rewritten, Valid, Convertible, ConvertibleArms, ConvertibleValues, PlainKeywords, Uncollapsed,
      NormalizeFields;
    PlainIsUncollapsed(voc, fs);
    UncollapsedLookup(fs, "properties");
    if Has(fs, "properties") && i.Obj? {
      var props := Get(fs, "properties").value.fields;
      PropertiesKeepShape(voc, props);
      NormalizedObject(props);
      forall k | Has(props, k) && Has(i.fields, k)
        ensures Valid(V31, voc, Get(props, k).value, Get(i.fields, k).value) <==>
                Valid(V30, voc, Get(NormalizeFields(props), k).value, Get(i.fields, k).value)
      {
        ValuesConvertible(voc, props, k);
        MeaningPreserved(voc, Get(props, k).value, Get(i.fields, k).value);
      }
    }
  }

  lemma NormalizedObject(fs: Fields)
    ensures Normalize(Obj(fs)) == Obj(Rewritten(fs))
  {
  }

  lemma ListedNames(voc: Vocabulary, fs: Fields, k: string)
    requires Plain(voc, fs)
    ensures Has(Listed(Rewritten(fs)), k) == Has(Listed(fs), k)
  {
    hide Get, Rewritten, Convertible, ConvertibleArms, ConvertibleValues, PlainKeywords, Uncollapsed, NormalizeFields;
    PlainIsUncollapsed(voc, fs);
    UncollapsedLookup(fs, "properties");
    if Has(fs, "properties") {
      var props := Get(fs, "properties").value.fields;
      PropertiesKeepShape(voc, props);
      NormalizedObject(props);
    }
  }

  lemma {:induction false} UnlistedPreserved(voc: Vocabulary, fs: Fields, i: Json)
    requires AnnotationsAccept(voc) && Plain(voc, fs)
    ensures UnlistedOk(V31, voc, fs, i) <==> UnlistedOk(V30, voc, Rewritten(fs), i)
    decreases fs, 0
  {
    hide Get, Rewritten, Valid, Normalize, Convertible, ConvertibleArms, ConvertibleValues, PlainKeywords, Uncollapsed,
      NormalizeFields, Listed;
    PlainIsUncollapsed(voc, fs);
    UncollapsedLookup(fs, "additionalProperties");
    if Has(fs, "additionalProperties") && i.Obj? {
      var unlisted := Get(fs, "additionalProperties").value;
      forall k | Has(i.fields, k)
        ensures Valid(V31, voc, unlisted, Get(i.fields, k).value) <==>
                Valid(V30, voc, Normalize(unlisted), Get(i.fields, k).value)
        ensures Has(Listed(Rewritten(fs)), k) == Has(Listed(fs), k)
      {
        MeaningPreserved(voc, unlisted, Get(i.fields, k).value);
        ListedNames(voc, fs, k);
      }
    }
  }

  lemma OthersPreserved(voc: Vocabulary, fs: Fields, i: Json)
    requires AnnotationsAccept(voc) && Plain(voc, fs)
    ensures OthersOk(voc, fs, i) <==> OthersOk(voc, Rewritten(fs), i)
  {
    hide Get, Rewritten, Normalize, NormalForm, PlainSubschemas, Uncollapsed;
    PlainIsUncollapsed(voc, fs);
    assert BOUNDS <= INTERPRETED;
    forall k | k !in INTERPRETED
      ensures Has(Rewritten(fs), k) == Has(fs, k)
      ensures Has(fs, k) ==> (voc(k, Get(fs, k).value, i) <==> voc(k, Get(Rewritten(fs), k).value, i))
    {
      UncollapsedLookup(fs, k);
      if Has(fs, k) && k !in ANNOTATIONS {
        NormalFormIsFixed(Get(fs, k).value);
      }
    }
  }

  // ----- unions with null -----

  /** A dictionary with annotations and the keys in `keys` only. */
  ghost predicate Only(fs: Fields, keys: set<string>) {
    DistinctKeys(fs) && forall k | Has(fs, k) :: k in keys || k in ANNOTATIONS
  }

  lemma OnlyBoundsAndUnionsMatter(d: Dialect, voc: Vocabulary, fs: Fields, i: Json)
    requires AnnotationsAccept(voc) && Only(fs, BOUNDS + {"type", "nullable", "anyOf", "oneOf"})
    ensures RestOk(d, voc, fs, i) <==> BoundsOk(d, fs, i) && UnionsOk(d, voc, fs, i)
  {
    hide Get, BoundsOk, UnionsOk, OthersOk, Valid, DistinctKeys;
    NoSubschemas(fs);
    OnlyAnnotationsElse(voc, fs, i);
  }

  lemma NoSubschemas(fs: Fields)
    requires Only(fs, BOUNDS + {"type", "nullable", "anyOf", "oneOf"})
    ensures !Has(fs, "not") && !Has(fs, "items") && !Has(fs, "properties") && !Has(fs, "additionalProperties")
  {
    hide Get, DistinctKeys;
    assert {"not", "items", "properties", "additionalProperties"} !! BOUNDS + {"type", "nullable", "anyOf", "oneOf"} +
           ANNOTATIONS;
  }

  lemma OnlyAnnotationsElse(voc: Vocabulary, fs: Fields, i: Json)
    requires AnnotationsAccept(voc) && Only(fs, BOUNDS + {"type", "nullable", "anyOf", "oneOf"})
    ensures OthersOk(voc, fs, i)
  {
    hide Get, DistinctKeys;
    assert BOUNDS + {"type", "nullable", "anyOf", "oneOf"} <= INTERPRETED;
  }

  lemma JustNullAcceptsNull(voc: Vocabulary, s: Json, i: Json)
    requires AnnotationsAccept(voc) && JustNull(s)
    ensures Valid(V31, voc, s, i) <==> i == Null
  {
    hide Get, RestOk, BoundsOk, UnionsOk, AnnotationsAccept;
    assert Only(s.fields, BOUNDS + {"type", "nullable", "anyOf", "oneOf"});
    OnlyBoundsAndUnionsMatter(V31, voc, s.fields, i);
    OnlyTypeIsLoose(V31, voc, s.fields, i);
  }

  lemma OnlyTypeIsLoose(d: Dialect, voc: Vocabulary, fs: Fields, i: Json)
    requires Only(fs, {"type", "nullable"})
    ensures BoundsOk(d, fs, i) && UnionsOk(d, voc, fs, i)
  {
    hide Get, DistinctKeys, CountValid;
    assert BOUNDS + {"anyOf", "oneOf", "allOf"} !! ANNOTATIONS + {"type", "nullable"};
    assert forall k :: k in BOUNDS + {"anyOf", "oneOf", "allOf"} ==> !Has(fs, k);
  }

  /** What a union with null means before the rewrite. */
  lemma UnionBefore(voc: Vocabulary, fs: Fields, key: string, i: Json)
    requires AnnotationsAccept(voc) && NullableUnion(fs, key) && ConcreteArm(Get(fs, key)).Some?
    ensures var arm := Valid(V31, voc, ConcreteArm(Get(fs, key)).value, i);
            Valid(V31, voc, Obj(fs), i) <==> if key == "anyOf" then i == Null || arm else (i == Null) != arm
  {
    var a, b := Get(fs, key).value.items.head, Get(fs, key).value.items.tail.head;
    assert JustNull(a) ==> NullArm(a);
    hide Get, RestOk, JustNull, NullArm, Valid, AnnotationsAccept;
    UnionAlone(voc, fs, key, a, b, i);
    if JustNull(a) {
      JustNullAcceptsNull(voc, a, i);
    } else {
      JustNullAcceptsNull(voc, b, i);
    }
  }

  /** A dictionary with one union of two arms asserts that union alone. */
  lemma UnionAlone(voc: Vocabulary, fs: Fields, key: string, a: Json, b: Json, i: Json)
    requires AnnotationsAccept(voc) && key in {"anyOf", "oneOf"} && Only(fs, {key})
    requires Get(fs, key) == Some(Arr(Cons(a, Cons(b, Nil))))
    ensures Valid(V31, voc, Obj(fs), i) <==>
            if key == "anyOf" then Valid(V31, voc, a, i) || Valid(V31, voc, b, i)
            else Valid(V31, voc, a, i) != Valid(V31, voc, b, i)
  {
    hide Get, RestOk, CountValid, AnnotationsAccept;
    OnlyBoundsAndUnionsMatter(V31, voc, fs, i);
    CountsPair(V31, voc, a, b, i);
    OtherKeysAbsent(fs, key);
    assert BoundsOk(V31, fs, i);
    assert TypeOk(V31, fs, i);
  }

  lemma OtherKeysAbsent(fs: Fields, key: string)
    requires key in {"anyOf", "oneOf"} && Only(fs, {key})
    ensures forall k | k in BOUNDS + {"type", "allOf", "anyOf", "oneOf"} && k != key :: Get(fs, k) == None
    ensures Get(fs, "minimum") == None && Get(fs, "exclusiveMinimum") == None
    ensures Get(fs, "maximum") == None && Get(fs, "exclusiveMaximum") == None
    ensures Get(fs, "type") == None && Get(fs, "allOf") == None
  {
    hide Get;
    assert BOUNDS + {"type", "allOf", "anyOf", "oneOf"} !! ANNOTATIONS;
  }

  lemma CountsPair(d: Dialect, voc: Vocabulary, a: Json, b: Json, i: Json)
    ensures CountValid(d, voc, Cons(a, Cons(b, Nil)), i) ==
            (if Valid(d, voc, a, i) then 1 else 0) + (if Valid(d, voc, b, i) then 1 else 0)
  {
    hide Valid;
    assert CountValid(d, voc, Cons(b, Nil), i) == if Valid(d, voc, b, i) then 1 else 0;
  }

  /** What it means afterwards: null is let through by `type`, and must still pass the rest of the arm. */
  lemma {:induction false} UnionAfter(voc: Vocabulary, fs: Fields, key: string, i: Json)
    requires AnnotationsAccept(voc) && NullableUnion(fs, key) && ConcreteArm(Get(fs, key)).Some?
    requires ConcreteArm(Get(fs, key)).value.Obj? && Plain(voc, ConcreteArm(Get(fs, key)).value.fields)
    ensures var arm := ConcreteArm(Get(fs, key)).value.fields;
            Valid(V30, voc, Normalize(Obj(fs)), i) <==>
            (i == Null || TypeOk(V31, arm, i)) && RestOk(V31, voc, arm, i)
    decreases fs, 0
  {
    hide Get, RestOk, NullableUnion, Plain, ConcreteArm, Rewritten, NormalizeFields, Reshape, SamePast;
    var arm := ConcreteArm(Get(fs, key)).value.fields;
    NullableLookups(voc, fs, key);
    PlainTypeKept(voc, arm);
    TypeKept(fs, arm);
    PlainPreserved(voc, arm, i);
    RestDependsOnLookups(voc, Rewritten(fs), Rewritten(arm), i);
    NormalizedObject(fs);
  }

  /** Equal values under every keyword the semantics interprets, besides `type` and `nullable`. */
  ghost predicate SameKeywords(fs: Fields, gs: Fields) {
    forall k | k in INTERPRETED && k !in {"type", "nullable"} :: Get(fs, k) == Get(gs, k)
  }

  lemma SameBoundsAndUnions(d: Dialect, voc: Vocabulary, fs: Fields, gs: Fields, i: Json)
    requires SameKeywords(fs, gs)
    ensures BoundsOk(d, fs, i) <==> BoundsOk(d, gs, i)
    ensures UnionsOk(d, voc, fs, i) <==> UnionsOk(d, voc, gs, i)
  {
    hide Get, CountValid, Elements;
    assert Get(fs, "minimum") == Get(gs, "minimum") && Get(fs, "exclusiveMinimum") == Get(gs, "exclusiveMinimum");
    assert Get(fs, "maximum") == Get(gs, "maximum") && Get(fs, "exclusiveMaximum") == Get(gs, "exclusiveMaximum");
    assert Get(fs, "anyOf") == Get(gs, "anyOf") && Get(fs, "oneOf") == Get(gs, "oneOf");
    assert Get(fs, "allOf") == Get(gs, "allOf");
  }

  lemma SameSubschemas(d: Dialect, voc: Vocabulary, fs: Fields, gs: Fields, i: Json)
    requires SameKeywords(fs, gs)
    ensures InnerOk(d, voc, fs, i) <==> InnerOk(d, voc, gs, i)
    ensures ListedOk(d, voc, fs, i) <==> ListedOk(d, voc, gs, i)
    ensures UnlistedOk(d, voc, fs, i) <==> UnlistedOk(d, voc, gs, i)
  {
    hide Get, Valid, Elements;
    assert Get(fs, "not") == Get(gs, "not") && Get(fs, "items") == Get(gs, "items");
    assert Get(fs, "properties") == Get(gs, "properties");
    assert Get(fs, "additionalProperties") == Get(gs, "additionalProperties");
  }

  lemma RestDependsOnLookups(voc: Vocabulary, fs: Fields, gs: Fields, i: Json)
    requires AnnotationsAccept(voc) && SamePast(fs, gs, ANNOTATIONS + {"nullable"})
    ensures RestOk(V30, voc, fs, i) <==> RestOk(V30, voc, gs, i)
  {
    hide Get, BoundsOk, UnionsOk, InnerOk, ListedOk, UnlistedOk, OthersOk, AnnotationsAccept;
    assert INTERPRETED !! ANNOTATIONS;
    assert SameKeywords(fs, gs);
    SameBoundsAndUnions(V30, voc, fs, gs, i);
    SameSubschemas(V30, voc, fs, gs, i);
    OthersDependOnLookups(voc, fs, gs, i);
  }

  lemma OthersDependOnLookups(voc: Vocabulary, fs: Fields, gs: Fields, i: Json)
    requires AnnotationsAccept(voc) && SamePast(fs, gs, ANNOTATIONS + {"nullable"})
    ensures OthersOk(voc, fs, i) <==> OthersOk(voc, gs, i)
  {
    hide Get;
    assert "nullable" in INTERPRETED;
    forall k | k !in INTERPRETED
      ensures (Has(fs, k) ==> voc(k, Get(fs, k).value, i)) <==> (Has(gs, k) ==> voc(k, Get(gs, k).value, i))
    {
      assert k !in ANNOTATIONS ==> Get(fs, k) == Get(gs, k);
    }
  }

  /**
   Making a union nullable keeps its meaning exactly when null passes the rest of the concrete arm; if that is no
   object, exactly when it is `true` under `anyOf`.
   */
  lemma NullableUnionExact(voc: Vocabulary, fs: Fields, key: string)
    requires AnnotationsAccept(voc) && NullableUnion(fs, key) && ConcreteArm(Get(fs, key)).Some?
    requires ConcreteArm(Get(fs, key)).value.Obj? ==> Plain(voc, ConcreteArm(Get(fs, key)).value.fields)
    ensures (forall i :: Valid(V31, voc, Obj(fs), i) <==> Valid(V30, voc, Normalize(Obj(fs)), i)) <==>
            ArmFits(voc, key, ConcreteArm(Get(fs, key)).value)
  {
    if ConcreteArm(Get(fs, key)).value.Obj? {
      ObjectArmExact(voc, fs, key);
    } else {
      BareArmExact(voc, fs, key);
    }
    hide *;
  }

  lemma ObjectArmExact(voc: Vocabulary, fs: Fields, key: string)
    requires AnnotationsAccept(voc) && NullableUnion(fs, key) && ConcreteArm(Get(fs, key)).Some?
    requires ConcreteArm(Get(fs, key)).value.Obj? && Plain(voc, ConcreteArm(Get(fs, key)).value.fields)
    ensures (forall i :: Valid(V31, voc, Obj(fs), i) <==> Valid(V30, voc, Normalize(Obj(fs)), i)) <==>
            NullFits(voc, key, ConcreteArm(Get(fs, key)).value.fields)
  {
    var arm := ConcreteArm(Get(fs, key)).value.fields;
    forall i
      ensures (Valid(V31, voc, Obj(fs), i) <==> Valid(V30, voc, Normalize(Obj(fs)), i)) <==>
              (i == Null ==> NullFits(voc, key, arm))
    {
      NullableUnionAt(voc, fs, key, i);
    }
    assert NullFits(voc, key, arm) <==> (Valid(V31, voc, Obj(fs), Null) <==> Valid(V30, voc, Normalize(Obj(fs)), Null));
    hide *;
  }

  lemma {:induction false} NullableUnionAt(voc: Vocabulary, fs: Fields, key: string, i: Json)
    requires AnnotationsAccept(voc) && NullableUnion(fs, key) && ConcreteArm(Get(fs, key)).Some?
    requires ConcreteArm(Get(fs, key)).value.Obj? && Plain(voc, ConcreteArm(Get(fs, key)).value.fields)
    ensures (Valid(V31, voc, Obj(fs), i) <==> Valid(V30, voc, Normalize(Obj(fs)), i)) <==>
            (i == Null ==> NullFits(voc, key, ConcreteArm(Get(fs, key)).value.fields))
    decreases fs, 1
  {
    hide Get, RestOk, NullableUnion, Plain, ConcreteArm, Normalize;
    var arm := ConcreteArm(Get(fs, key)).value.fields;
    UnionBefore(voc, fs, key, i);
    UnionAfter(voc, fs, key, i);
    PlainTypeKept(voc, arm);
    NullableKey(fs, key);
  }

  /** With an arm that is no object, the rewrite leaves nothing but `nullable`, which accepts everything. */
  lemma BareArmAcceptsAll(voc: Vocabulary, fs: Fields, key: string, i: Json)
    requires AnnotationsAccept(voc) && NullableUnion(fs, key)
    requires ConcreteArm(Get(fs, key)).Some? && !ConcreteArm(Get(fs, key)).value.Obj?
    ensures Valid(V30, voc, Normalize(Obj(fs)), i)
  {
    hide Get, RestOk, BoundsOk, UnionsOk, AnnotationsAccept, NullableUnion, ConcreteArm, Rewritten, NormalizeFields,
      Reshape;
    var r := Rewritten(fs);
    NormalizedObject(fs);
    BareCollapses(voc, fs, key);
    assert Only(r, BOUNDS + {"type", "nullable", "anyOf", "oneOf"}) && Only(r, {"type", "nullable"});
    OnlyBoundsAndUnionsMatter(V30, voc, r, i);
    OnlyTypeIsLoose(V30, voc, r, i);
    assert "type" !in ANNOTATIONS + {"nullable"};
    assert Get(r, "type") == None;
  }

  /** So null and such an arm keep their meaning only as `anyOf` with the schema that accepts everything. */
  lemma BareArmExact(voc: Vocabulary, fs: Fields, key: string)
    requires AnnotationsAccept(voc) && NullableUnion(fs, key)
    requires ConcreteArm(Get(fs, key)).Some? && !ConcreteArm(Get(fs, key)).value.Obj?
    ensures (forall i :: Valid(V31, voc, Obj(fs), i) <==> Valid(V30, voc, Normalize(Obj(fs)), i)) <==>
            key == "anyOf" && ConcreteArm(Get(fs, key)) == Some(Bool(true))
  {
    hide *;
    var arm := ConcreteArm(Get(fs, key)).value;
    forall i
      ensures Valid(V31, voc, Obj(fs), i) <==>
              if key == "anyOf" then i == Null || arm == Bool(true) else (i == Null) != (arm == Bool(true))
      ensures Valid(V30, voc, Normalize(Obj(fs)), i)
    {
      BareArmBefore(voc, fs, key, i);
      BareArmAcceptsAll(voc, fs, key, i);
    }
    if key != "anyOf" || arm != Bool(true) {
      var refused := if arm == Bool(true) then Null else Bool(true);
      DisagreeOn(voc, Obj(fs), Normalize(Obj(fs)), refused);
    }
  }

  lemma DisagreeOn(voc: Vocabulary, before: Json, after: Json, i: Json)
    requires !Valid(V31, voc, before, i) && Valid(V30, voc, after, i)
    ensures !forall j :: Valid(V31, voc, before, j) <==> Valid(V30, voc, after, j)
  {
  }

  lemma BareArmBefore(voc: Vocabulary, fs: Fields, key: string, i: Json)
    requires AnnotationsAccept(voc) && NullableUnion(fs, key)
    requires ConcreteArm(Get(fs, key)).Some? && !ConcreteArm(Get(fs, key)).value.Obj?
    ensures var accepts := ConcreteArm(Get(fs, key)) == Some(Bool(true));
            Valid(V31, voc, Obj(fs), i) <==> if key == "anyOf" then i == Null || accepts else (i == Null) != accepts
  {
    hide Get, RestOk, NullableUnion, ConcreteArm;
    UnionBefore(voc, fs, key, i);
  }

  lemma {:induction false} NullablePreserved(voc: Vocabulary, fs: Fields, key: string, i: Json)
    requires AnnotationsAccept(voc) && NullableAt(voc, fs, key)
    ensures Valid(V31, voc, Obj(fs), i) <==> Valid(V30, voc, Normalize(Obj(fs)), i)
    decreases fs, 2
  {
    hide Get, Valid, Normalize, RestOk, NullableUnion, Plain, ConcreteArm;
    NullableUnionAt(voc, fs, key, i);
  }

  // ----- bounds -----

  /** With bounds and annotations only, validity is the bounds, before and after. */
  lemma BoundsBeforeAndAfter(voc: Vocabulary, fs: Fields, i: Json)
    requires AnnotationsAccept(voc) && Only(fs, BOUNDS)
    requires AbsentOrNumeric(Get(fs, "minimum")) && AbsentOrNumeric(Get(fs, "exclusiveMinimum"))
    requires AbsentOrNumeric(Get(fs, "maximum")) && AbsentOrNumeric(Get(fs, "exclusiveMaximum"))
    ensures Valid(V31, voc, Obj(fs), i) <==> BoundsOk(V31, fs, i)
    ensures Valid(V30, voc, Normalize(Obj(fs)), i) <==> BoundsOk(V30, Rewritten(fs), i)
    ensures FlaggedFrom(NormalizeFields(fs), Rewritten(fs))
  {
    hide Get, NormalizeFields, Rewritten, FlagBounds, BoundsOk, FlaggedFrom, Only, Normalize, RestOk, AnnotationsAccept;
    var n, r := NormalizeFields(fs), Rewritten(fs);
    BoundsDoNotCollapse(fs);
    FlaggedHasSameKeys(fs, r);
    NormalizedObject(fs);
    ValidIsBounds(V31, voc, fs, i);
    ValidIsBounds(V30, voc, r, i);
  }

  lemma BoundsDoNotCollapse(fs: Fields)
    requires Only(fs, BOUNDS)
    requires AbsentOrNumeric(Get(fs, "minimum")) && AbsentOrNumeric(Get(fs, "exclusiveMinimum"))
    requires AbsentOrNumeric(Get(fs, "maximum")) && AbsentOrNumeric(Get(fs, "exclusiveMaximum"))
    ensures Rewritten(fs) == FlagBounds(NormalizeFields(fs)) && FlaggedFrom(NormalizeFields(fs), Rewritten(fs))
  {
    hide Get, NormalizeFields, FlagBounds;
    assert !Has(fs, "anyOf") && !Has(fs, "oneOf");
    FlagLookups(NormalizeFields(fs));
    UnionKeysUnflagged(NormalizeFields(fs));
  }

  lemma ValidIsBounds(d: Dialect, voc: Vocabulary, fs: Fields, i: Json)
    requires AnnotationsAccept(voc) && Only(fs, BOUNDS)
    ensures Valid(d, voc, Obj(fs), i) <==> BoundsOk(d, fs, i)
  {
    hide Get, RestOk, BoundsOk, AnnotationsAccept;
    assert !Has(fs, "anyOf") && !Has(fs, "oneOf") && !Has(fs, "allOf") && !Has(fs, "type");
    OnlyBoundsAndUnionsMatter(d, voc, fs, i);
  }

  lemma FlaggedHasSameKeys(fs: Fields, r: Fields)
    requires Only(fs, BOUNDS) && r == FlagBounds(NormalizeFields(fs)) && FlaggedFrom(NormalizeFields(fs), r)
    ensures Only(r, BOUNDS)
  {
    hide Get, NormalizeFields;
  }

  /** A schema of one inclusive and one exclusive bound keeps its meaning exactly when they agree. */
  lemma LowerBoundExact(voc: Vocabulary, fs: Fields)
    requires AnnotationsAccept(voc) && Only(fs, {"minimum", "exclusiveMinimum"})
    requires Numeric(Get(fs, "minimum")) && Numeric(Get(fs, "exclusiveMinimum"))
    ensures (forall i :: Valid(V31, voc, Obj(fs), i) <==> Valid(V30, voc, Normalize(Obj(fs)), i)) <==>
            LowerBoundsAgree(Get(fs, "minimum"), Get(fs, "exclusiveMinimum"))
  {
    hide Get, Valid, Normalize, Only, AnnotationsAccept;
    var low, open := Magnitude(Get(fs, "minimum").value.num), Magnitude(Get(fs, "exclusiveMinimum").value.num);
    forall i
      ensures Valid(V31, voc, Obj(fs), i) <==> (i.Num? ==> low <= Magnitude(i.num) && open < Magnitude(i.num))
      ensures Valid(V30, voc, Normalize(Obj(fs)), i) <==> (i.Num? ==> open < Magnitude(i.num))
    {
      LowerBoundMeaning(voc, fs, i);
    }
    var between := Num(Float("", (low + open) / 2.0));
    assert open < low ==> Valid(V31, voc, Obj(fs), between) != Valid(V30, voc, Normalize(Obj(fs)), between);
  }

  lemma LowerBoundMeaning(voc: Vocabulary, fs: Fields, i: Json)
    requires AnnotationsAccept(voc) && Only(fs, {"minimum", "exclusiveMinimum"})
    requires Numeric(Get(fs, "minimum")) && Numeric(Get(fs, "exclusiveMinimum"))
    ensures var low, open := Magnitude(Get(fs, "minimum").value.num), Magnitude(Get(fs, "exclusiveMinimum").value.num);
            && (Valid(V31, voc, Obj(fs), i) <==> (i.Num? ==> low <= Magnitude(i.num) && open < Magnitude(i.num)))
            && (Valid(V30, voc, Normalize(Obj(fs)), i) <==> (i.Num? ==> open < Magnitude(i.num)))
  {
    hide Get, Valid, Rewritten, NormalizeFields, SamePast, AnnotationsAccept;
    assert !Has(fs, "maximum") && !Has(fs, "exclusiveMaximum");
    BoundsBeforeAndAfter(voc, fs, i);
  }

  lemma UpperBoundExact(voc: Vocabulary, fs: Fields)
    requires AnnotationsAccept(voc) && Only(fs, {"maximum", "exclusiveMaximum"})
    requires Numeric(Get(fs, "maximum")) && Numeric(Get(fs, "exclusiveMaximum"))
    ensures (forall i :: Valid(V31, voc, Obj(fs), i) <==> Valid(V30, voc, Normalize(Obj(fs)), i)) <==>
            UpperBoundsAgree(Get(fs, "maximum"), Get(fs, "exclusiveMaximum"))
  {
    hide Get, Valid, Normalize, Only, AnnotationsAccept;
    var high, open := Magnitude(Get(fs, "maximum").value.num), Magnitude(Get(fs, "exclusiveMaximum").value.num);
    forall i
      ensures Valid(V31, voc, Obj(fs), i) <==> (i.Num? ==> Magnitude(i.num) <= high && Magnitude(i.num) < open)
      ensures Valid(V30, voc, Normalize(Obj(fs)), i) <==> (i.Num? ==> Magnitude(i.num) < open)
    {
      UpperBoundMeaning(voc, fs, i);
    }
    var between := Num(Float("", (high + open) / 2.0));
    assert high < open ==> Valid(V31, voc, Obj(fs), between) != Valid(V30, voc, Normalize(Obj(fs)), between);
  }

  lemma UpperBoundMeaning(voc: Vocabulary, fs: Fields, i: Json)
    requires AnnotationsAccept(voc) && Only(fs, {"maximum", "exclusiveMaximum"})
    requires Numeric(Get(fs, "maximum")) && Numeric(Get(fs, "exclusiveMaximum"))
    ensures var high, open := Magnitude(Get(fs, "maximum").value.num), Magnitude(Get(fs, "exclusiveMaximum").value.num);
            && (Valid(V31, voc, Obj(fs), i) <==> (i.Num? ==> Magnitude(i.num) <= high && Magnitude(i.num) < open))
            && (Valid(V30, voc, Normalize(Obj(fs)), i) <==> (i.Num? ==> Magnitude(i.num) < open))
  {
    hide Get, Valid, Rewritten, NormalizeFields, SamePast, AnnotationsAccept;
    assert !Has(fs, "minimum") && !Has(fs, "exclusiveMinimum");
    BoundsBeforeAndAfter(voc, fs, i);
  }

  // ----- two schemas whose meaning is lost -----

  lemma PairLookups(k1: string, v1: Json, k2: string, v2: Json)
    ensures var fs := Entry(k1, v1, Entry(k2, v2, Empty));
            && (k1 != k2 ==> DistinctKeys(fs))
            && forall k :: Get(fs, k) == if k == k1 then Some(v1) else if k == k2 then Some(v2) else None
  {
    assert forall k :: Get(Entry(k2, v2, Empty), k) == if k == k2 then Some(v2) else None;
  }

  /** `{"minimum": 5, "exclusiveMinimum": 3}` refuses 4; rewritten, it accepts 4. */
  lemma StricterMinimumIsLost(voc: Vocabulary)
    requires AnnotationsAccept(voc)
    ensures var s := Obj(Entry("minimum", Num(Integer(5)), Entry("exclusiveMinimum", Num(Integer(3)), Empty)));
            !Valid(V31, voc, s, Num(Integer(4))) && Valid(V30, voc, Normalize(s), Num(Integer(4)))
  {
    hide Valid, Rewritten, NormalizeFields, SamePast, Get, DistinctKeys, AnnotationsAccept;
    var fs := Entry("minimum", Num(Integer(5)), Entry("exclusiveMinimum", Num(Integer(3)), Empty));
    PairLookups("minimum", Num(Integer(5)), "exclusiveMinimum", Num(Integer(3)));
    BoundsBeforeAndAfter(voc, fs, Num(Integer(4)));
  }

  /** A nullable enumeration accepts null; rewritten, it does not, because `enum` does not list null. */
  lemma NullableEnumLosesNull(voc: Vocabulary, members: Json)
    requires AnnotationsAccept(voc) && NormalForm(members) && !voc("enum", members, Null)
    ensures var arm := Entry("type", Str("string"), Entry("enum", members, Empty));
            var s := Obj(Entry("anyOf", Arr(Cons(Obj(arm), Cons(Obj(Entry("type", Str("null"), Empty)), Nil))), Empty));
            Valid(V31, voc, s, Null) && !Valid(V30, voc, Normalize(s), Null)
  {
    hide Valid, Normalize, NormalForm, AnnotationsAccept, RestOk, Plain;
    var arm := Entry("type", Str("string"), Entry("enum", members, Empty));
    var nullArm := Obj(Entry("type", Str("null"), Empty));
    var fs := Entry("anyOf", Arr(Cons(Obj(arm), Cons(nullArm, Nil))), Empty);
    EnumArmIsPlain(voc, members);
    assert JustNull(nullArm) && !NullArm(Obj(arm));
    assert NullableUnion(fs, "anyOf") && ConcreteArm(Get(fs, "anyOf")) == Some(Obj(arm));
    UnionBefore(voc, fs, "anyOf", Null);
    UnionAfter(voc, fs, "anyOf", Null);
  }

  lemma EnumArmIsPlain(voc: Vocabulary, members: Json)
    requires NormalForm(members)
    ensures var arm := Entry("type", Str("string"), Entry("enum", members, Empty));
            && Plain(voc, arm)
            && (!voc("enum", members, Null) ==> !RestOk(V31, voc, arm, Null))
  {
    hide NormalForm, Get, DistinctKeys;
    var arm := Entry("type", Str("string"), Entry("enum", members, Empty));
    PairLookups("type", Str("string"), "enum", members);
    assert "enum" !in INTERPRETED;
    assert forall k :: k in INTERPRETED && k != "type" ==> !Has(arm, k);
  }
}

/**
 What the OpenAPI rewrite does to unions of more or fewer than two arms of which one is the null
 schema: they stay as they are.
 */
module SchemaLimits {
  import opened Options
  import opened JsonValues
  import opened OpenApiShapes
  import opened SchemaMeaning
  import opened SchemaRewrite
  import opened SchemaEquivalence

  // ----- a null schema among several arms -----

  /** One arm is the null schema, and the others are convertible. */
  ghost predicate NullAmong(voc: Vocabulary, arms: Items) {
    match arms
    case Nil => false
    case Cons(a, rest) => (JustNull(a) && ConvertibleArms(voc, rest)) || (Convertible(voc, a) && NullAmong(voc, rest))
  }

  predicate Meets(key: string, n: nat) {
    if key == "anyOf" then n >= 1 else n == 1
  }

  /** 3.0 has no type `null`, so the null schema accepts nothing once rewritten. */
  lemma JustNullAcceptsNothing(voc: Vocabulary, s: Json, i: Json)
    requires JustNull(s)
    ensures !Valid(V30, voc, Normalize(s), i)
  {
    hide Get, NormalizeFields, Reshape, RestOk, Rewritten;
    var fs := s.fields;
    assert "type" !in BOUNDS + {"anyOf", "oneOf"} && "nullable" !in ANNOTATIONS + {"type"};
    assert ANNOTATIONS !! BOUNDS + {"anyOf", "oneOf"};
    ShapelessKeepsShape(fs);
    NormalizedObject(fs);
    assert Get(NormalizeFields(fs), "type") == Some(Normalize(Str("null")));
    assert Get(NormalizeFields(fs), "nullable") == None;
  }

  lemma {:induction false} NullAmongCounts(voc: Vocabulary, arms: Items, i: Json)
    requires AnnotationsAccept(voc) && NullAmong(voc, arms)
    ensures CountValid(V31, voc, arms, i) == CountValid(V30, voc, NormalizeItems(arms), i) + if i == Null then 1 else 0
  {
    hide Valid, Normalize, Convertible, JustNull, ConvertibleArms, AnnotationsAccept;
    var Cons(a, rest) := arms;
    if JustNull(a) && ConvertibleArms(voc, rest) {
      JustNullAcceptsNull(voc, a, i);
      JustNullAcceptsNothing(voc, a, i);
      CountPreserved(voc, rest, i);
    } else {
      MeaningPreserved(voc, a, i);
      NullAmongCounts(voc, rest, i);
    }
  }

  /** With one union and annotations only, validity is the count of that union's arms. */
  lemma UnionOfArms(d: Dialect, voc: Vocabulary, fs: Fields, key: string, arms: Items, i: Json)
    requires AnnotationsAccept(voc) && key in {"anyOf", "oneOf"} && Only(fs, {key}) && Get(fs, key) == Some(Arr(arms))
    ensures Valid(d, voc, Obj(fs), i) <==> Meets(key, CountValid(d, voc, arms, i))
  {
    hide Get, RestOk, CountValid, AnnotationsAccept;
    OnlyBoundsAndUnionsMatter(d, voc, fs, i);
    OtherKeysAbsent(fs, key);
    assert BoundsOk(d, fs, i) && TypeOk(d, fs, i);
  }

  lemma NotTwoArms(arms: Items)
    requires |Elements(arms)| != 2
    ensures ConcreteArm(Some(Arr(NormalizeItems(arms)))) == None
  {
    hide Normalize, NullArm;
    match arms
    case Nil =>
    case Cons(a, Nil) =>
    case Cons(a, Cons(b, Nil)) =>
      TwoItems(a, b);
    case Cons(a, Cons(b, Cons(c, more))) =>
      assert NormalizeItems(Cons(b, Cons(c, more))) == Cons(Normalize(b), NormalizeItems(Cons(c, more)));
      assert NormalizeItems(Cons(c, more)) == Cons(Normalize(c), NormalizeItems(more));
  }

  lemma TwoItems(a: Json, b: Json)
    ensures |Elements(Cons(a, Cons(b, Nil)))| == 2
  {
    assert Elements(Cons(b, Nil)) == [b] + Elements(Nil);
  }

  /** Such a union is kept, with its arms rewritten. */
  lemma UnionStays(fs: Fields, key: string, arms: Items)
    requires key in {"anyOf", "oneOf"} && Only(fs, {key}) && Get(fs, key) == Some(Arr(arms)) && |Elements(arms)| != 2
    ensures Rewritten(fs) == NormalizeFields(fs)
    ensures Only(Rewritten(fs), {key}) && Get(Rewritten(fs), key) == Some(Arr(NormalizeItems(arms)))
  {
    hide Get, Put, NormalizeFields, NormalizeItems, DistinctKeys, Elements, ConcreteArm, FlagBounds;
    var n := NormalizeFields(fs);
    NotTwoArms(arms);
    OnlyUnionKey(fs, key);
    Unflagged(n);
    NoArmOfNone();
    assert Get(n, key) == Some(Arr(NormalizeItems(arms)));
  }

  lemma Unflagged(fs: Fields)
    requires Get(fs, "exclusiveMinimum") == None && Get(fs, "exclusiveMaximum") == None
    ensures FlagBounds(fs) == fs
  {
    hide Get, Put;
  }

  lemma OnlyUnionKey(fs: Fields, key: string)
    requires key in {"anyOf", "oneOf"} && Only(fs, {key})
    ensures Get(fs, "exclusiveMinimum") == None && Get(fs, "exclusiveMaximum") == None
    ensures Get(fs, if key == "anyOf" then "oneOf" else "anyOf") == None
  {
    hide Get, DistinctKeys;
    assert {"anyOf", "oneOf", "exclusiveMinimum", "exclusiveMaximum"} !! ANNOTATIONS;
  }

  /**
   A union of other than two arms, one of them null, keeps its meaning if and only if null is accepted without that arm
   as well: by one more arm of `anyOf`, or by two more of `oneOf`, so that it is refused before and after.
   */
  lemma ManyArmsExact(voc: Vocabulary, fs: Fields, key: string, arms: Items)
    requires AnnotationsAccept(voc) && key in {"anyOf", "oneOf"} && Only(fs, {key})
    requires Get(fs, key) == Some(Arr(arms)) && |Elements(arms)| != 2 && NullAmong(voc, arms)
    ensures (forall i :: Valid(V31, voc, Obj(fs), i) <==> Valid(V30, voc, Normalize(Obj(fs)), i)) <==>
            CountValid(V31, voc, arms, Null) >= if key == "anyOf" then 2 else 3
  {
    forall i
      ensures (Valid(V31, voc, Obj(fs), i) <==> Valid(V30, voc, Normalize(Obj(fs)), i)) <==>
              (i == Null ==> CountValid(V31, voc, arms, Null) >= if key == "anyOf" then 2 else 3)
    {
      ManyArmsAt(voc, fs, key, arms, i);
    }
    assert (Valid(V31, voc, Obj(fs), Null) <==> Valid(V30, voc, Normalize(Obj(fs)), Null)) <==>
           CountValid(V31, voc, arms, Null) >= if key == "anyOf" then 2 else 3;
    hide *;
  }

  lemma ManyArmsAt(voc: Vocabulary, fs: Fields, key: string, arms: Items, i: Json)
    requires AnnotationsAccept(voc) && key in {"anyOf", "oneOf"} && Only(fs, {key})
    requires Get(fs, key) == Some(Arr(arms)) && |Elements(arms)| != 2 && NullAmong(voc, arms)
    ensures (Valid(V31, voc, Obj(fs), i) <==> Valid(V30, voc, Normalize(Obj(fs)), i)) <==>
            (i == Null ==> CountValid(V31, voc, arms, Null) >= if key == "anyOf" then 2 else 3)
  {
    hide Valid, Normalize, Get, CountValid, NullAmong, Only, AnnotationsAccept, Elements, Rewritten, NormalizeFields,
      NormalizeItems;
    UnionStays(fs, key, arms);
    NormalizedObject(fs);
    UnionOfArms(V31, voc, fs, key, arms, i);
    UnionOfArms(V30, voc, Rewritten(fs), key, NormalizeItems(arms), i);
    NullAmongCounts(voc, arms, i);
  }
}

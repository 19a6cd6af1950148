/**
 The OpenAPI rewrite keeps the meaning of every convertible schema, and each of its two steps
 keeps it exactly when the condition used for `Convertible` holds.
 */
module SchemaRewrite {
  import opened Options
  import opened JsonValues
  import opened OpenApiShapes
  import opened SchemaMeaning

  const BOUNDS: set<string> := {"minimum", "maximum", "exclusiveMinimum", "exclusiveMaximum"}

  /** The dictionary that replaces `fs`. */
  function Rewritten(fs: Fields): Fields {
    Reshape(NormalizeFields(fs))
  }

  ghost predicate SamePast(fs: Fields, gs: Fields, skip: set<string>) {
    forall k :: k !in skip ==> Get(fs, k) == Get(gs, k)
  }

  // ----- lookups in rewritten dictionaries -----

  /** What flagging the four bounds leaves in a dictionary. */
  ghost predicate FlaggedFrom(fs: Fields, r: Fields) {
    && SamePast(fs, r, BOUNDS)
    && Get(r, "minimum") == (if Has(fs, "exclusiveMinimum") then Get(fs, "exclusiveMinimum") else Get(fs, "minimum"))
    && Get(r, "maximum") == (if Has(fs, "exclusiveMaximum") then Get(fs, "exclusiveMaximum") else Get(fs, "maximum"))
    && Get(r, "exclusiveMinimum") == (if Has(fs, "exclusiveMinimum") then Some(Bool(true)) else None)
    && Get(r, "exclusiveMaximum") == (if Has(fs, "exclusiveMaximum") then Some(Bool(true)) else None)
  }

  lemma FlagLookups(fs: Fields)
    requires AbsentOrNumeric(Get(fs, "minimum")) && AbsentOrNumeric(Get(fs, "exclusiveMinimum"))
    requires AbsentOrNumeric(Get(fs, "maximum")) && AbsentOrNumeric(Get(fs, "exclusiveMaximum"))
    ensures FlaggedFrom(fs, FlagBounds(fs))
  {
    hide Get, Put;
  }

  /** The parts of `Plain` that say how the rewrite treats the dictionary itself. */
  ghost predicate Uncollapsed(fs: Fields) {
    && Rewritten(fs) == FlagBounds(NormalizeFields(fs))
    && FlaggedFrom(NormalizeFields(fs), Rewritten(fs))
  }

  lemma {:induction false} PlainIsUncollapsed(voc: Vocabulary, fs: Fields)
    requires Plain(voc, fs)
    ensures Uncollapsed(fs)
    decreases fs, 4
  {
    hide Get, Put, FlagBounds, FlaggedFrom, NormalizeFields, NormalizeItems, Convertible, ConvertibleArms,
      ConvertibleValues, NormalForm;
    var n := NormalizeFields(fs);
    FlagLookups(n);
    UnionKeysUnflagged(n);
    forall key | key in {"anyOf", "oneOf"} ensures ConcreteArm(Get(n, key)) == None {
      if Has(fs, key) {
        ArmsDoNotCollapse(voc, Get(fs, key).value.items);
      }
    }
  }

  lemma UnionKeysUnflagged(n: Fields)
    requires FlaggedFrom(n, FlagBounds(n))
    ensures Get(FlagBounds(n), "anyOf") == Get(n, "anyOf") && Get(FlagBounds(n), "oneOf") == Get(n, "oneOf")
    ensures Get(FlagBounds(n), "type") == Get(n, "type") && Get(FlagBounds(n), "nullable") == Get(n, "nullable")
  {
    hide Get, Put, FlagBounds;
  }

  lemma {:induction false} ArmsDoNotCollapse(voc: Vocabulary, arms: Items)
    requires ConvertibleArms(voc, arms)
    ensures ConcreteArm(Some(Arr(NormalizeItems(arms)))) == None
    decreases arms, 3
  {
    hide Get, Normalize, Convertible, NullArm;
    match arms
    case Nil =>
    case Cons(a, Nil) =>
      assert NormalizeItems(arms) == Cons(Normalize(a), Nil);
    case Cons(a, Cons(b, more)) =>
      assert NormalizeItems(arms) == Cons(Normalize(a), Cons(Normalize(b), NormalizeItems(more)));
      assert ConvertibleArms(voc, Cons(b, more));
      ConvertibleIsNoNullArm(voc, a);
      ConvertibleIsNoNullArm(voc, b);
  }

  /** A convertible schema is never mistaken for a null arm once rewritten. */
  lemma {:induction false} ConvertibleIsNoNullArm(voc: Vocabulary, s: Json)
    requires Convertible(voc, s)
    ensures !NullArm(Normalize(s)) && (Normalize(s).Bool? || Normalize(s).Obj?)
    decreases s, 2
  {
    hide Get, Put, FlagBounds, FlaggedFrom, NormalizeFields, Plain, NullableUnion, NullFits, Reshape, SamePast;
    if s.Obj? {
      var fs := s.fields;
      if Plain(voc, fs) {
        PlainTypeKept(voc, fs);
      } else if AnythingOrNull(fs) {
        BareCollapses(voc, fs, "anyOf");
        NormalizedArm(s);
        assert "type" !in ANNOTATIONS + {"nullable"};
        assert !Has(Rewritten(fs), "type");
      } else {
        var key := if NullableAt(voc, fs, "anyOf") then "anyOf" else "oneOf";
        var arm := ConcreteArm(Get(fs, key)).value.fields;
        NullableLookups(voc, fs, key);
        PlainTypeKept(voc, arm);
        TypeKept(fs, arm);
      }
    }
  }

  lemma {:induction false} PlainTypeKept(voc: Vocabulary, fs: Fields)
    requires Plain(voc, fs)
    ensures Get(Rewritten(fs), "type") == Get(fs, "type") && !Has(Rewritten(fs), "nullable") &&
            NamedType(Get(fs, "type"))
    decreases fs, 5
  {
    hide Get, Put, FlagBounds, NormalizeFields, FlaggedFrom, Reshape;
    PlainIsUncollapsed(voc, fs);
    UnionKeysUnflagged(NormalizeFields(fs));
  }

  lemma TypeKept(fs: Fields, arm: Fields)
    requires SamePast(Rewritten(fs), Rewritten(arm), ANNOTATIONS + {"nullable"})
    ensures Get(Rewritten(fs), "type") == Get(Rewritten(arm), "type")
  {
    hide Get, Rewritten;
  }

  /** A nullable union is replaced by its rewritten arm, made nullable and annotated. */
  lemma {:induction false} NullableLookups(voc: Vocabulary, fs: Fields, key: string)
    requires NullableUnion(fs, key)
    requires ConcreteArm(Get(fs, key)).value.Obj? && Plain(voc, ConcreteArm(Get(fs, key)).value.fields)
    ensures SamePast(Rewritten(fs), Rewritten(ConcreteArm(Get(fs, key)).value.fields), ANNOTATIONS + {"nullable"})
    ensures Get(Rewritten(fs), "nullable") == Some(Bool(true))
    decreases fs, 2
  {
    var arm := ConcreteArm(Get(fs, key)).value;
    NullableHasArm(fs, key);
    NormalizedArm(arm);
    hide Get, NullableUnion, Plain, ConcreteArm, MergeArm, NormalizeFields, Rewritten, Normalize, SamePast,
      DistinctKeys;
    CollapsesToArm(voc, fs, key);
    RewriteKeepsDistinct(voc, arm.fields);
    MergeOverAnnotations(fs, key, Rewritten(arm.fields));
  }

  lemma NullableHasArm(fs: Fields, key: string)
    requires NullableUnion(fs, key)
    ensures ConcreteArm(Get(fs, key)).Some?
  {
    hide Get, DistinctKeys;
  }

  lemma NormalizedArm(arm: Json)
    requires arm.Obj?
    ensures Normalize(arm) == Obj(Rewritten(arm.fields))
  {
  }

  lemma RewriteKeepsDistinct(voc: Vocabulary, fs: Fields)
    requires Plain(voc, fs)
    ensures DistinctKeys(Rewritten(fs))
  {
    PlainIsUncollapsed(voc, fs);
  }

  /** Laying annotations over an arm changes annotations only. */
  lemma MergeOverAnnotations(fs: Fields, key: string, arm: Fields)
    requires NullableUnion(fs, key) && DistinctKeys(arm)
    ensures SamePast(MergeArm(NormalizeFields(fs), Obj(arm)), arm, ANNOTATIONS + {"nullable"})
    ensures Get(MergeArm(NormalizeFields(fs), Obj(arm)), "nullable") == Some(Bool(true))
  {
    hide Get, MergeArm, NormalizeFields, JustNull, NullArm, DistinctKeys;
    MergedLookups(NormalizeFields(fs), Obj(arm));
  }

  /** Without bounds and unions, a dictionary keeps its shape. */
  lemma ShapelessKeepsShape(fs: Fields)
    requires forall k :: k in BOUNDS + {"anyOf", "oneOf"} ==> !Has(fs, k)
    ensures Rewritten(fs) == NormalizeFields(fs)
  {
    hide Get, Put, NormalizeFields;
  }

  lemma {:induction false} CollapsesToArm(voc: Vocabulary, fs: Fields, key: string)
    requires NullableUnion(fs, key) && ConcreteArm(Get(fs, key)).Some?
    requires ConcreteArm(Get(fs, key)).value.Obj? ==> Plain(voc, ConcreteArm(Get(fs, key)).value.fields)
    ensures Rewritten(fs) == MergeArm(NormalizeFields(fs), Normalize(ConcreteArm(Get(fs, key)).value))
    decreases fs, 1
  {
    hide Get, Put, NormalizeFields, Plain, MergeArm, Normalize, FlagBounds, NullableUnion, ConcreteArm;
    NullableKey(fs, key);
    UnionNormalizes(voc, fs, key);
  }

  lemma NullableKey(fs: Fields, key: string)
    requires NullableUnion(fs, key)
    ensures key == "anyOf" || key == "oneOf"
  {
  }

  lemma {:induction false} UnionNormalizes(voc: Vocabulary, fs: Fields, key: string)
    requires NullableUnion(fs, key) && ConcreteArm(Get(fs, key)).Some?
    requires ConcreteArm(Get(fs, key)).value.Obj? ==> Plain(voc, ConcreteArm(Get(fs, key)).value.fields)
    ensures var n := NormalizeFields(fs);
            && ConcreteArm(Get(n, key)) == Some(Normalize(ConcreteArm(Get(fs, key)).value))
            && FlagBounds(n) == n && (key == "oneOf" ==> Get(n, "anyOf") == None)
    decreases fs, 0
  {
    hide Get, Put, NormalizeFields, Plain, MergeArm, Normalize, FlagBounds, JustNull, NullArm;
    var n := NormalizeFields(fs);
    UnboundedKeepsFields(fs, key);
    var union := Get(fs, key).value;
    var a, b := union.items.head, union.items.tail.head;
    var arm := ConcreteArm(Get(fs, key)).value;
    if arm.Obj? {
      ArmStays(voc, arm.fields);
    } else {
      NoObjectIsNoNullArm(arm);
    }
    JustNullStays(if arm == b then a else b);
    NormalizesPair(a, b);
    assert ConcreteArm(Get(n, key)) == Some(Normalize(arm));
  }

  lemma UnboundedKeepsFields(fs: Fields, key: string)
    requires NullableUnion(fs, key)
    ensures FlagBounds(NormalizeFields(fs)) == NormalizeFields(fs)
    ensures key == "oneOf" ==> Get(NormalizeFields(fs), "anyOf") == None
  {
    hide Get, Put, NormalizeFields, JustNull, NullArm;
    assert ANNOTATIONS + {"anyOf", "oneOf"} !! BOUNDS;
    assert "anyOf" !in ANNOTATIONS + {"oneOf"};
  }

  lemma NormalizesPair(a: Json, b: Json)
    ensures Normalize(Arr(Cons(a, Cons(b, Nil)))) == Arr(Cons(Normalize(a), Cons(Normalize(b), Nil)))
  {
    assert NormalizeItems(Cons(b, Nil)) == Cons(Normalize(b), Nil);
  }

  lemma {:induction false} ArmStays(voc: Vocabulary, fs: Fields)
    requires Plain(voc, fs)
    ensures !NullArm(Normalize(Obj(fs)))
    decreases fs, 6
  {
    hide Plain, NormalizeFields, Reshape, Get;
    PlainTypeKept(voc, fs);
  }

  lemma NoObjectIsNoNullArm(v: Json)
    requires !v.Obj?
    ensures !Normalize(v).Obj? && !NullArm(Normalize(v))
  {
  }

  /** With an arm that is no object, only annotations and `nullable` are left. */
  lemma {:induction false} BareCollapses(voc: Vocabulary, fs: Fields, key: string)
    requires NullableUnion(fs, key) && ConcreteArm(Get(fs, key)).Some? && !ConcreteArm(Get(fs, key)).value.Obj?
    ensures var r := Rewritten(fs);
            DistinctKeys(r) && forall k | Has(r, k) :: k == "nullable" || k in ANNOTATIONS
    decreases fs, 2
  {
    hide Get, NormalizeFields, MergeArm, Normalize, JustNull, NullArm, DistinctKeys, Rewritten, ConcreteArm;
    var arm := ConcreteArm(Get(fs, key)).value;
    NoObjectIsNoNullArm(arm);
    CollapsesToArm(voc, fs, key);
    MergedLookups(NormalizeFields(fs), Normalize(arm));
    NullableKey(fs, key);
  }

  lemma JustNullStays(s: Json)
    requires JustNull(s)
    ensures NullArm(Normalize(s))
  {
    hide Get, NormalizeFields, Reshape;
    assert "type" !in BOUNDS + {"anyOf", "oneOf"};
    assert ANNOTATIONS !! BOUNDS + {"anyOf", "oneOf"};
    ShapelessKeepsShape(s.fields);
    assert Get(NormalizeFields(s.fields), "type") == Some(Normalize(Str("null")));
  }
}

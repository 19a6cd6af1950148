/**
 The rewrite that turns OpenAPI 3.1 schema shapes into OpenAPI 3.0 ones
 (scripts/export_agent_openapi_schema.py), and its normal forms.
 */
module OpenApiShapes {
  import opened Options
  import opened JsonValues

  const UNION_KEYS := ["anyOf", "oneOf"]

  /** Is the entry there, and a number?  Python's booleans do not count as numbers here. */
  predicate Numeric(x: Option<Json>) {
    x.Some? && x.value.Num?
  }

  /** A schema that names the type `null`. */
  predicate NullArm(option: Json) {
    option.Obj? && Get(option.fields, "type") == Some(Str("null"))
  }

  /** A numeric exclusive bound becomes an inclusive bound with a boolean flag. */
  function FlagBound(d: Fields, exclusiveKey: string, boundKey: string): Fields {
    var bound := Get(d, exclusiveKey);
    if Numeric(bound) then Put(Put(d, boundKey, bound.value), exclusiveKey, Bool(true)) else d
  }

  /** The arm other than the null arm, when the union has two arms of which exactly one is a null arm. */
  function ConcreteArm(union: Option<Json>): (r: Option<Json>)
    ensures r.Some? ==> union.Some? && r.value < union.value
  {
    match union
    case Some(Arr(Cons(a, Cons(b, Nil)))) =>
      if NullArm(a) && !NullArm(b) then Some(b)
      else if !NullArm(a) && NullArm(b) then Some(a)
      else None
    case _ => None
  }

  /** The parent without its unions laid over the concrete arm, made nullable. */
  function MergeArm(d: Fields, arm: Json): Fields {
    var siblings := Without(d, {"anyOf", "oneOf"});
    Put(if arm.Obj? then Overlay(arm.fields, siblings) else siblings, "nullable", Bool(true))
  }

  function CollapseUnion(d: Fields): Fields {
    match ConcreteArm(Get(d, "anyOf"))
    case Some(arm) => MergeArm(d, arm)
    case None =>
      match ConcreteArm(Get(d, "oneOf"))
      case Some(arm) => MergeArm(d, arm)
      case None => d
  }

  function FlagBounds(d: Fields): Fields {
    FlagBound(FlagBound(d, "exclusiveMinimum", "minimum"), "exclusiveMaximum", "maximum")
  }

  /** What happens to one dictionary once its values have been normalised. */
  function Reshape(d: Fields): Fields {
    CollapseUnion(FlagBounds(d))
  }

  function Normalize(v: Json): Json {
    match v
    case Arr(items) => Arr(NormalizeItems(items))
    case Obj(d) => Obj(Reshape(NormalizeFields(d)))
    case _ => v
  }

  function NormalizeItems(items: Items): Items {
    match items
    case Nil => Nil
    case Cons(v, rest) => Cons(Normalize(v), NormalizeItems(rest))
  }

  function NormalizeFields(d: Fields): (r: Fields)
    ensures forall k :: Get(r, k) == if Has(d, k) then Some(Normalize(Get(d, k).value)) else None
    ensures DistinctKeys(d) ==> DistinctKeys(r)
  {
    match d
    case Empty => Empty
    case Entry(k, v, rest) => Entry(k, Normalize(v), NormalizeFields(rest))
  }

  // ----- the recursive rewrite as the program runs it -----

  method NormalizeOpenapi30Shapes(value: Json) returns (r: Json)
    ensures r == Normalize(value)
    decreases value
  {
    match value
    case Arr(items) =>
      var out := NormalizeEachItem(items);
      return Arr(out);
    case Obj(fields) =>
      var normalized := NormalizeEachField(fields);
      var exclusiveMinimum := Get(normalized, "exclusiveMinimum");
      if Numeric(exclusiveMinimum) {
        normalized := Put(normalized, "minimum", exclusiveMinimum.value);
        normalized := Put(normalized, "exclusiveMinimum", Bool(true));
      }
      var exclusiveMaximum := Get(normalized, "exclusiveMaximum");
      if Numeric(exclusiveMaximum) {
        normalized := Put(normalized, "maximum", exclusiveMaximum.value);
        normalized := Put(normalized, "exclusiveMaximum", Bool(true));
      }
      normalized := CollapseNullableUnion(normalized);
      return Obj(normalized);
    case _ => return value;
  }

  method CollapseNullableUnion(fields: Fields) returns (normalized: Fields)
    ensures normalized == CollapseUnion(fields)
  {
    hide Get, Without, Overlay, Put, Elements, Filter;
    normalized := fields;
    assert UNION_KEYS[0] == "anyOf" && UNION_KEYS[1] == "oneOf";
    for i := 0 to |UNION_KEYS|
      invariant normalized == fields
      invariant forall j :: 0 <= j < i ==> ConcreteArm(Get(fields, UNION_KEYS[j])) == None
    {
      var unionValue := Get(normalized, UNION_KEYS[i]);
      if unionValue == None || !unionValue.value.Arr? {
        continue;
      }
      var options := Elements(unionValue.value.items);
      FiltersPickTheArms(unionValue.value.items);
      if |options| != 2 {
        continue;
      }
      var nullable := Filter(options, true);
      var concrete := Filter(options, false);
      if |nullable| != 1 || |concrete| != 1 {
        continue;
      }
      var merged := Without(normalized, {"anyOf", "oneOf"});
      if concrete[0].Obj? {
        merged := Overlay(concrete[0].fields, merged);
      }
      merged := Put(merged, "nullable", Bool(true));
      normalized := merged;
      break;
    }
  }

  /** The options that are null arms, or those that are not. */
  function Filter(options: seq<Json>, nulls: bool): seq<Json> {
    if options == [] then []
    else (if NullArm(options[0]) == nulls then [options[0]] else []) + Filter(options[1..], nulls)
  }

  /** Counting the options of each kind finds the same concrete arm as looking at the two arms. */
  lemma FiltersPickTheArms(items: Items)
    ensures ConcreteArm(Some(Arr(items))) ==
            if |Elements(items)| == 2 && |Filter(Elements(items), true)| == 1 && |Filter(Elements(items), false)| == 1
            then Some(Filter(Elements(items), false)[0]) else None
  {
    match items
    case Nil =>
    case Cons(a, Nil) => assert Elements(items) == [a];
    case Cons(a, Cons(b, more)) =>
      assert Elements(Cons(b, more)) == [b] + Elements(more);
      assert |Elements(items)| == 2 + |Elements(more)|;
      if more == Nil {
        var options := Elements(items);
        assert options == [a, b] && options[1..] == [b] && [b][1..] == [];
        assert forall n :: Filter([b], n) == if NullArm(b) == n then [b] else [];
        assert forall n :: Filter(options, n) == (if NullArm(a) == n then [a] else []) + Filter([b], n);
      } else {
        assert |Elements(more)| >= 1;
      }
  }

  method NormalizeEachItem(items: Items) returns (r: Items)
    ensures r == NormalizeItems(items)
    decreases items
  {
    match items
    case Nil => return Nil;
    case Cons(v, rest) =>
      var head := NormalizeOpenapi30Shapes(v);
      var tail := NormalizeEachItem(rest);
      return Cons(head, tail);
  }

  method NormalizeEachField(d: Fields) returns (r: Fields)
    ensures r == NormalizeFields(d)
    decreases d
  {
    match d
    case Empty => return Empty;
    case Entry(k, v, rest) =>
      var value := NormalizeOpenapi30Shapes(v);
      var tail := NormalizeEachField(rest);
      return Entry(k, value, tail);
  }

  // ----- normal forms -----

  /** No numeric exclusive bound and no union of one arm with null, in this dictionary. */
  predicate Settled(d: Fields) {
    && !Numeric(Get(d, "exclusiveMinimum")) && !Numeric(Get(d, "exclusiveMaximum"))
    && ConcreteArm(Get(d, "anyOf")) == None && ConcreteArm(Get(d, "oneOf")) == None
  }

  /** `Settled` at every depth. */
  predicate NormalForm(v: Json) {
    match v
    case Arr(items) => forall x | x in Elements(items) :: NormalForm(x)
    case Obj(d) => Settled(d) && forall x | x in Values(d) :: NormalForm(x)
    case _ => true
  }

  /** The rewritten value is in normal form and is still a well-formed JSON value. */
  lemma {:induction false} NormalizeReachesNormalForm(v: Json)
    requires WellFormed(v)
    ensures NormalForm(Normalize(v)) && WellFormed(Normalize(v))
    decreases v
  {
    match v
    case Arr(items) =>
      ItemsReachNormalForm(items);
    case Obj(d) =>
      FieldsReachNormalForm(d);
      ReshapeSettles(NormalizeFields(d));
    case _ =>
  }

  lemma {:induction false} ItemsReachNormalForm(items: Items)
    requires forall x | x in Elements(items) :: WellFormed(x)
    ensures forall x | x in Elements(NormalizeItems(items)) :: NormalForm(x) && WellFormed(x)
    decreases items
  {
    match items
    case Nil =>
    case Cons(v, rest) =>
      assert Elements(items)[0] == v;
      NormalizeReachesNormalForm(v);
      ItemsReachNormalForm(rest);
  }

  lemma {:induction false} FieldsReachNormalForm(d: Fields)
    requires forall x | x in Values(d) :: WellFormed(x)
    ensures forall x | x in Values(NormalizeFields(d)) :: NormalForm(x) && WellFormed(x)
    decreases d
  {
    match d
    case Empty =>
    case Entry(_, v, rest) =>
      NormalizeReachesNormalForm(v);
      FieldsReachNormalForm(rest);
  }

  ghost predicate AllNormal(vs: set<Json>) {
    forall x | x in vs :: NormalForm(x) && WellFormed(x)
  }

  /** Reshaping settles a dictionary whose values are normal: a merged-in arm brings nothing unsettled along. */
  lemma ReshapeSettles(d: Fields)
    requires DistinctKeys(d) && AllNormal(Values(d))
    ensures NormalForm(Obj(Reshape(d))) && WellFormed(Obj(Reshape(d)))
  {
    hide FlagBound, CollapseUnion, NormalForm, WellFormed, AllNormal, DistinctKeys, Values, Get, Numeric;
    FlagKeepsNormal(d, "exclusiveMinimum", "minimum");
    FlagKeepsNormal(FlagBound(d, "exclusiveMinimum", "minimum"), "exclusiveMaximum", "maximum");
    CollapseSettles(FlagBounds(d));
  }

  lemma FlagKeepsNormal(d: Fields, exclusiveKey: string, boundKey: string)
    requires DistinctKeys(d) && AllNormal(Values(d)) && exclusiveKey != boundKey
    ensures var r := FlagBound(d, exclusiveKey, boundKey);
            DistinctKeys(r) && AllNormal(Values(r)) && !Numeric(Get(r, exclusiveKey))
    ensures forall k :: k !in {exclusiveKey, boundKey} ==> Get(FlagBound(d, exclusiveKey, boundKey), k) == Get(d, k)
  {
    assert AllNormal({Bool(true)});
  }

  lemma CollapseSettles(d: Fields)
    requires DistinctKeys(d) && AllNormal(Values(d))
    requires !Numeric(Get(d, "exclusiveMinimum")) && !Numeric(Get(d, "exclusiveMaximum"))
    ensures NormalForm(Obj(CollapseUnion(d))) && WellFormed(Obj(CollapseUnion(d)))
  {
    if ConcreteArm(Get(d, "anyOf")).Some? {
      ArmIsNormal(d, "anyOf");
      MergeSettles(d, ConcreteArm(Get(d, "anyOf")).value);
    } else if ConcreteArm(Get(d, "oneOf")).Some? {
      ArmIsNormal(d, "oneOf");
      MergeSettles(d, ConcreteArm(Get(d, "oneOf")).value);
    }
  }

  lemma ArmIsNormal(d: Fields, key: string)
    requires ConcreteArm(Get(d, key)).Some? && AllNormal(Values(d))
    ensures AllNormal({ConcreteArm(Get(d, key)).value})
  {
    var union := Get(d, key).value;
    assert union in Values(d);
    assert NormalForm(union) && WellFormed(union);
    hide Get, Values, NullArm;
    var a, b := union.items.head, union.items.tail.head;
    assert Elements(Nil) == [] && Elements(Cons(b, Nil)) == [b];
    assert Elements(union.items) == [a, b];
    assert a in Elements(union.items) && b in Elements(union.items);
  }

  /** The lookups of a merged dictionary: `nullable`, then the parent's own keys, then the arm's. */
  lemma MergedLookups(d: Fields, arm: Json)
    requires DistinctKeys(d) && (arm.Obj? ==> DistinctKeys(arm.fields))
    ensures DistinctKeys(MergeArm(d, arm))
    ensures Values(MergeArm(d, arm)) <= Values(d) + (if arm.Obj? then Values(arm.fields) else {}) + {Bool(true)}
    ensures forall k :: Get(MergeArm(d, arm), k) ==
                        if k == "nullable" then Some(Bool(true))
                        else if k !in {"anyOf", "oneOf"} && Has(d, k) then Get(d, k)
                        else if arm.Obj? then Get(arm.fields, k) else None
  {
  }

  lemma MergeSettles(d: Fields, arm: Json)
    requires DistinctKeys(d) && AllNormal(Values(d)) && AllNormal({arm})
    requires !Numeric(Get(d, "exclusiveMinimum")) && !Numeric(Get(d, "exclusiveMaximum"))
    ensures NormalForm(Obj(MergeArm(d, arm))) && WellFormed(Obj(MergeArm(d, arm)))
  {
    hide MergeArm, Get, Values, DistinctKeys, Settled;
    assert NormalForm(arm) && WellFormed(arm);
    MergedLookups(d, arm);
    var merged := MergeArm(d, arm);
    assert arm.Obj? ==> AllNormal(Values(arm.fields));
    assert AllNormal({Bool(true)});
    assert AllNormal(Values(merged));
    MergeIsSettled(d, arm);
  }

  /** The parent brings no union along, and the arm's dictionary is settled. */
  lemma MergeIsSettled(d: Fields, arm: Json)
    requires DistinctKeys(d) && (arm.Obj? ==> DistinctKeys(arm.fields) && Settled(arm.fields))
    requires !Numeric(Get(d, "exclusiveMinimum")) && !Numeric(Get(d, "exclusiveMaximum"))
    ensures Settled(MergeArm(d, arm))
  {
    hide MergeArm, Get, Values, DistinctKeys, ConcreteArm;
    MergedLookups(d, arm);
    NoArmOfNone();
  }

  lemma NoArmOfNone()
    ensures ConcreteArm(None) == None
  {
  }

  /** A value in normal form is left exactly as it is, key order included. */
  lemma {:induction false} NormalFormIsFixed(v: Json)
    requires NormalForm(v)
    ensures Normalize(v) == v
    decreases v
  {
    match v
    case Arr(items) => ItemsAreFixed(items);
    case Obj(d) => FieldsAreFixed(d);
    case _ =>
  }

  lemma {:induction false} ItemsAreFixed(items: Items)
    requires forall x | x in Elements(items) :: NormalForm(x)
    ensures NormalizeItems(items) == items
    decreases items
  {
    match items
    case Nil =>
    case Cons(v, rest) =>
      assert Elements(items)[0] == v;
      assert forall x | x in Elements(rest) :: x in Elements(items);
      NormalFormIsFixed(v);
      ItemsAreFixed(rest);
  }

  lemma {:induction false} FieldsAreFixed(d: Fields)
    requires forall x | x in Values(d) :: NormalForm(x)
    ensures NormalizeFields(d) == d
    decreases d
  {
    match d
    case Empty =>
    case Entry(_, v, rest) =>
      NormalFormIsFixed(v);
      FieldsAreFixed(rest);
  }

  /** The rewrite is idempotent, and the values it leaves alone are exactly the normal forms. */
  lemma NormalizeIdempotent(v: Json)
    requires WellFormed(v)
    ensures Normalize(Normalize(v)) == Normalize(v)
    ensures Normalize(v) == v <==> NormalForm(v)
  {
    NormalizeReachesNormalForm(v);
    NormalFormIsFixed(Normalize(v));
    if NormalForm(v) {
      NormalFormIsFixed(v);
    }
  }
}

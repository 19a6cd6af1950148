/**
 Where things stand in a document before and after the OpenAPI rewrite
 (scripts/export_agent_openapi_schema.py): what every list, every dictionary and every path becomes.
 */
module DocumentPaths {
  import opened Options
  import opened JsonValues
  import opened OpenApiShapes

  /** A list keeps its length, and each element of the result is the rewrite of the element in its place. */
  lemma {:induction false} ListsKeepTheirElements(items: Items)
    ensures Normalize(Arr(items)) == Arr(NormalizeItems(items))
    ensures |Elements(NormalizeItems(items))| == |Elements(items)|
    ensures forall i | 0 <= i < |Elements(items)| ::
              Elements(NormalizeItems(items))[i] == Normalize(Elements(items)[i])
    decreases items
  {
    match items
    case Nil =>
    case Cons(v, rest) =>
      ListsKeepTheirElements(rest);
      assert Elements(NormalizeItems(items)) == [Normalize(v)] + Elements(NormalizeItems(rest));
  }

  // ----- dictionaries -----

  function NormalizeOptional(x: Option<Json>): Option<Json> {
    match x
    case None => None
    case Some(v) => Some(Normalize(v))
  }

  /** The arm a dictionary is merged with, if it has a union of one arm with null: `anyOf` is looked at first. */
  function UnionArm(d: Fields): Option<Json> {
    if ConcreteArm(Get(d, "anyOf")).Some? then ConcreteArm(Get(d, "anyOf")) else ConcreteArm(Get(d, "oneOf"))
  }

  /** What stands under a key once the bounds are flagged: a numeric exclusive bound replaces the inclusive one. */
  function OwnEntry(d: Fields, k: string): Option<Json> {
    if k == "minimum" && Numeric(Get(d, "exclusiveMinimum")) then Get(d, "exclusiveMinimum")
    else if k == "maximum" && Numeric(Get(d, "exclusiveMaximum")) then Get(d, "exclusiveMaximum")
    else if k in {"exclusiveMinimum", "exclusiveMaximum"} && Numeric(Get(d, k)) then Some(Bool(true))
    else NormalizeOptional(Get(d, k))
  }

  /** What stands under a key of a merged dictionary: the parent's own entry, else the rewritten arm's. */
  function MergedEntry(d: Fields, arm: Json, k: string): Option<Json> {
    if k == "nullable" then Some(Bool(true))
    else if k !in {"anyOf", "oneOf"} && OwnEntry(d, k).Some? then OwnEntry(d, k)
    else if arm.Obj? then Get(Normalize(arm).fields, k)
    else None
  }

  /** Every lookup in every rewritten dictionary, in terms of the dictionary before the rewrite. */
  lemma DictionaryLookups(d: Fields, k: string)
    requires WellFormed(Obj(d))
    ensures Normalize(Obj(d)) == Obj(Reshape(NormalizeFields(d)))
    ensures Get(Normalize(Obj(d)).fields, k) ==
            match UnionArm(d)
            case None => OwnEntry(d, k)
            case Some(arm) => MergedEntry(d, arm, k)
  {
    hide Get, WellFormed, DistinctKeys, Values, ConcreteArm, MergeArm, OwnEntry, FlagBounds, NormalizeFields, Normalize,
      MergedEntry, AllNormal;
    var n := FlagBounds(NormalizeFields(d));
    DictionaryNormalized(d);
    FieldsReachWellFormed(d);
    FieldsAreNormal(d);
    FlagLookups(d, k);
    FlagLookups(d, "anyOf");
    FlagLookups(d, "oneOf");
    OwnUnions(d);
    UnionKept(d, "anyOf");
    UnionKept(d, "oneOf");
    if ConcreteArm(Get(d, "anyOf")).Some? {
      MergedLookupsOf(d, n, UnionArm(d).value, "anyOf", k);
    } else if ConcreteArm(Get(d, "oneOf")).Some? {
      MergedLookupsOf(d, n, UnionArm(d).value, "oneOf", k);
    }
  }

  lemma OwnUnions(d: Fields)
    ensures OwnEntry(d, "anyOf") == NormalizeOptional(Get(d, "anyOf"))
    ensures OwnEntry(d, "oneOf") == NormalizeOptional(Get(d, "oneOf"))
  {
  }

  lemma FieldsReachWellFormed(d: Fields)
    requires WellFormed(Obj(d))
    ensures forall x | x in Values(d) :: WellFormed(x)
  {
  }

  lemma FlagLookups(d: Fields, k: string)
    ensures Get(FlagBounds(NormalizeFields(d)), k) == OwnEntry(d, k)
  {
    hide Get, Put, NormalizeFields;
    var n := NormalizeFields(d);
    NumericKept(Get(d, "exclusiveMinimum"));
    NumericKept(Get(d, "exclusiveMaximum"));
    assert forall j :: Get(n, j) == NormalizeOptional(Get(d, j));
  }

  lemma NumericKept(x: Option<Json>)
    ensures Numeric(NormalizeOptional(x)) == Numeric(x)
    ensures Numeric(x) ==> NormalizeOptional(x) == x
  {
  }

  /** The arm is found before the rewrite of the values where it is found afterwards. */
  lemma UnionKept(d: Fields, key: string)
    requires forall x | x in Values(d) :: WellFormed(x)
    ensures ConcreteArm(NormalizeOptional(Get(d, key))) == NormalizeOptional(ConcreteArm(Get(d, key)))
    ensures ConcreteArm(Get(d, key)).Some? ==> WellFormed(ConcreteArm(Get(d, key)).value)
  {
    hide Get, NullArm, WellFormed, Normalize;
    match Get(d, key)
    case None =>
    case Some(union) =>
      assert union in Values(d);
      ArmKept(union);
  }

  lemma ArmKept(union: Json)
    requires WellFormed(union)
    ensures ConcreteArm(Some(Normalize(union))) == NormalizeOptional(ConcreteArm(Some(union)))
    ensures ConcreteArm(Some(union)).Some? ==> WellFormed(ConcreteArm(Some(union)).value)
  {
    if union.Arr? {
      ListsKeepTheirElements(union.items);
      if union.items.Cons? && union.items.tail.Cons? && union.items.tail.tail.Nil? {
        var a, b := union.items.head, union.items.tail.head;
        assert Elements(union.items) == [a, b] by {
          assert Elements(Cons(b, Nil)) == [b];
        }
        assert a in Elements(union.items) && b in Elements(union.items);
        PairKept(a, b);
      } else {
        LongerKept(union.items);
      }
    }
  }

  lemma PairKept(a: Json, b: Json)
    requires WellFormed(a) && WellFormed(b)
    ensures var pair := Cons(a, Cons(b, Nil));
            ConcreteArm(Some(Normalize(Arr(pair)))) == NormalizeOptional(ConcreteArm(Some(Arr(pair))))
  {
    hide NullArm, WellFormed, Normalize;
    NullArmKept(a);
    NullArmKept(b);
    assert Normalize(Arr(Cons(a, Cons(b, Nil)))) == Arr(Cons(Normalize(a), Cons(Normalize(b), Nil))) by {
      PairNormalized(a, b);
    }
  }

  lemma PairNormalized(a: Json, b: Json)
    ensures Normalize(Arr(Cons(a, Cons(b, Nil)))) == Arr(Cons(Normalize(a), Cons(Normalize(b), Nil)))
  {
    assert NormalizeItems(Cons(b, Nil)) == Cons(Normalize(b), Nil);
  }

  lemma LongerKept(items: Items)
    requires !(items.Cons? && items.tail.Cons? && items.tail.tail.Nil?)
    ensures ConcreteArm(Some(Normalize(Arr(items)))) == None && ConcreteArm(Some(Arr(items))) == None
  {
    if items.Cons? {
      assert NormalizeItems(items).tail == NormalizeItems(items.tail);
    }
  }

  /** No rewrite turns a value into an arm that names the type `null`, or the other way round. */
  lemma NullArmKept(v: Json)
    requires WellFormed(v)
    ensures NullArm(Normalize(v)) == NullArm(v)
  {
    if v.Obj? {
      NullDictionaryKept(v.fields);
    }
  }

  lemma NullDictionaryKept(d: Fields)
    requires WellFormed(Obj(d))
    ensures NullArm(Obj(Reshape(NormalizeFields(d)))) == NullArm(Obj(d))
  {
    hide Get, WellFormed, DistinctKeys, Values, ConcreteArm, MergeArm, OwnEntry, FlagBounds, NormalizeFields,
      Normalize, AllNormal;
    var n := FlagBounds(NormalizeFields(d));
    FieldsAreNormal(d);
    FlagLookups(d, "type");
    TypeKept(d);
    forall key | ConcreteArm(Get(n, key)).Some?
      ensures NullArm(Obj(MergeArm(n, ConcreteArm(Get(n, key)).value))) == NullArm(Obj(n))
    {
      TypeMerged(n, key);
    }
  }

  lemma TypeKept(d: Fields)
    ensures OwnEntry(d, "type").None? <==> Get(d, "type").None?
    ensures OwnEntry(d, "type") == Some(Str("null")) <==> Get(d, "type") == Some(Str("null"))
  {
  }

  /** The arm that is merged in names no type `null`, so the merged dictionary names it only if the parent does. */
  lemma TypeMerged(d: Fields, key: string)
    requires DistinctKeys(d) && AllNormal(Values(d)) && ConcreteArm(Get(d, key)).Some?
    ensures NullArm(Obj(MergeArm(d, ConcreteArm(Get(d, key)).value))) == NullArm(Obj(d))
  {
    hide Get, DistinctKeys, Values, MergeArm, AllNormal;
    var arm := ConcreteArm(Get(d, key)).value;
    ArmIsDistinct(d, key);
    MergedLookups(d, arm);
  }

  lemma ArmIsDistinct(d: Fields, key: string)
    requires AllNormal(Values(d)) && ConcreteArm(Get(d, key)).Some?
    ensures var arm := ConcreteArm(Get(d, key)).value; arm.Obj? ==> DistinctKeys(arm.fields)
  {
    hide Get, Values, ConcreteArm;
    ArmIsNormal(d, key);
    assert WellFormed(ConcreteArm(Get(d, key)).value);
  }

  lemma FieldsAreNormal(d: Fields)
    requires WellFormed(Obj(d))
    ensures DistinctKeys(FlagBounds(NormalizeFields(d))) && AllNormal(Values(FlagBounds(NormalizeFields(d))))
  {
    hide FlagBound, Get, Values, NormalForm;
    var n := NormalizeFields(d);
    FieldsReachNormalForm(d);
    FlagKeepsNormal(n, "exclusiveMinimum", "minimum");
    FlagKeepsNormal(FlagBound(n, "exclusiveMinimum", "minimum"), "exclusiveMaximum", "maximum");
  }

  lemma MergedLookupsOf(d: Fields, n: Fields, arm: Json, key: string, k: string)
    requires n == FlagBounds(NormalizeFields(d)) && DistinctKeys(n) && AllNormal(Values(n))
    requires ConcreteArm(Get(n, key)) == Some(Normalize(arm))
    ensures Get(MergeArm(n, Normalize(arm)), k) == MergedEntry(d, arm, k)
  {
    hide Get, DistinctKeys, Values, MergeArm, AllNormal, OwnEntry, FlagBounds, NormalizeFields, ConcreteArm, Normalize;
    ArmIsDistinct(n, key);
    ObjectKept(arm);
    MergedLookups(n, Normalize(arm));
    FlagLookups(d, k);
  }

  lemma ObjectKept(v: Json)
    ensures Normalize(v).Obj? == v.Obj?
  {
  }

  // ----- paths -----

  /** A step into a value: to the entry under a key, or to a place in a list. */
  datatype Place = Key(key: string) | Index(index: nat)

  /** What stands at the end of a path, if the path exists. */
  function At(v: Json, path: seq<Place>): Option<Json>
    decreases |path|
  {
    if path == [] then Some(v)
    else
      match (path[0], v)
      case (Key(k), Obj(d)) => (match Get(d, k) case None => None case Some(x) => At(x, path[1..]))
      case (Index(i), Arr(items)) => if i < |Elements(items)| then At(Elements(items)[i], path[1..]) else None
      case _ => None
  }

  /** A dictionary without a numeric exclusive bound and without a union of one arm with null. */
  predicate Unshaped(d: Fields) {
    !Numeric(Get(d, "exclusiveMinimum")) && !Numeric(Get(d, "exclusiveMaximum")) && UnionArm(d).None?
  }

  /** Does the path enter only such dictionaries? */
  predicate Undisturbed(v: Json, path: seq<Place>)
    decreases |path|
  {
    path != [] ==>
      match (path[0], v)
      case (Key(k), Obj(d)) => Unshaped(d) &&
        (match Get(d, k) case None => true case Some(x) => Undisturbed(x, path[1..]))
      case (Index(i), Arr(items)) => i < |Elements(items)| ==> Undisturbed(Elements(items)[i], path[1..])
      case _ => true
  }

  function KeyList(d: Fields): seq<string> {
    match d
    case Empty => []
    case Entry(k, _, rest) => [k] + KeyList(rest)
  }

  lemma {:induction false} FieldsKeepKeys(d: Fields)
    ensures KeyList(NormalizeFields(d)) == KeyList(d)
    decreases d
  {
    if d.Entry? {
      FieldsKeepKeys(d.rest);
    }
  }

  /** Such a dictionary keeps exactly its keys, in their order. */
  lemma UnshapedKeepsKeys(d: Fields)
    requires WellFormed(Obj(d)) && Unshaped(d)
    ensures Normalize(Obj(d)) == Obj(NormalizeFields(d))
    ensures KeyList(Normalize(Obj(d)).fields) == KeyList(d)
  {
    hide Get, Put, ConcreteArm, NormalizeFields, WellFormed, Values, Normalize, KeyList;
    var n := NormalizeFields(d);
    NumericKept(Get(d, "exclusiveMinimum"));
    NumericKept(Get(d, "exclusiveMaximum"));
    FieldsReachWellFormed(d);
    UnionKept(d, "anyOf");
    UnionKept(d, "oneOf");
    FieldsKeepKeys(d);
    assert forall j :: Get(n, j) == NormalizeOptional(Get(d, j));
    assert Reshape(n) == n;
    DictionaryNormalized(d);
  }

  lemma DictionaryNormalized(d: Fields)
    ensures Normalize(Obj(d)) == Obj(Reshape(NormalizeFields(d)))
  {
  }

  /**
   Along a path that enters only such dictionaries and any lists, the document holds afterwards the rewrite of what it
   held before, and nothing where it held nothing; in particular every scalar stands unchanged.
   */
  lemma {:induction false} PathKept(v: Json, path: seq<Place>)
    requires WellFormed(v) && Undisturbed(v, path)
    ensures At(Normalize(v), path) == NormalizeOptional(At(v, path))
    decreases |path|
  {
    hide Get, ConcreteArm, NormalizeFields, NormalizeItems, Unshaped, WellFormed, Normalize;
    if path != [] {
      match v
      case Obj(d) =>
        if path[0].Key? && Unshaped(d) {
          UnshapedKeepsKeys(d);
          FieldsReachWellFormed(d);
          assert Get(NormalizeFields(d), path[0].key) == NormalizeOptional(Get(d, path[0].key));
          if Has(d, path[0].key) {
            PathKept(Get(d, path[0].key).value, path[1..]);
          }
        }
        ObjectKept(v);
      case Arr(items) =>
        ListsKeepTheirElements(items);
        ElementsWellFormed(items);
        if path[0].Index? && path[0].index < |Elements(items)| {
          PathKept(Elements(items)[path[0].index], path[1..]);
        }
      case _ =>
        ScalarKept(v);
    }
  }

  lemma ElementsWellFormed(items: Items)
    requires WellFormed(Arr(items))
    ensures forall i | 0 <= i < |Elements(items)| :: WellFormed(Elements(items)[i])
  {
  }

  lemma ScalarKept(v: Json)
    requires !v.Arr? && !v.Obj?
    ensures Normalize(v) == v
  {
  }

  /** For instance a scalar under such a path. */
  lemma ScalarAtPathKept(v: Json, path: seq<Place>)
    requires WellFormed(v) && Undisturbed(v, path)
    requires At(v, path).Some? && !At(v, path).value.Arr? && !At(v, path).value.Obj?
    ensures At(Normalize(v), path) == At(v, path)
  {
    PathKept(v, path);
  }
}

/**
 What a schema means, under the rules of OpenAPI 3.1 (JSON Schema 2020-12) and of OpenAPI 3.0.3,
 and the schemas whose meaning the rewrite of `OpenApiShapes` keeps.
 */
module SchemaMeaning {
  import opened Options
  import opened JsonValues
  import opened OpenApiShapes

  datatype Dialect = V31 | V30

  /** Does the keyword, with this value, accept the instance?  Stands for every keyword not listed in `INTERPRETED`. */
  type Vocabulary = (string, Json, Json) -> bool

  const INTERPRETED: set<string> := {
    "type", "nullable", "minimum", "maximum", "exclusiveMinimum", "exclusiveMaximum", "anyOf", "oneOf",
    "allOf", "not", "items", "properties", "additionalProperties"
  }

  const ANNOTATIONS: set<string> := {
    "title", "description", "default", "example", "examples", "deprecated", "readOnly", "writeOnly"
  }

  ghost predicate AnnotationsAccept(voc: Vocabulary) {
    forall k, v, i :: k in ANNOTATIONS ==> voc(k, v, i)
  }

  // ----- validity -----

  predicate HasType(t: string, i: Json) {
    match i
    case Null => t == "null"
    case Bool(_) => t == "boolean"
    case Num(n) => t == "number" || (t == "integer" && Magnitude(n) == Magnitude(n).Floor as real)
    case Str(_) => t == "string"
    case Arr(_) => t == "array"
    case Obj(_) => t == "object"
  }

  /** 3.0 has no type `null` and no list of types; there `nullable` adds null to the type given beside it. */
  predicate TypeOk(d: Dialect, fs: Fields, i: Json) {
    match Get(fs, "type")
    case None => true
    case Some(Str(t)) =>
      if d.V31? then HasType(t, i)
      else if i == Null then Get(fs, "nullable") == Some(Bool(true))
      else HasType(t, i)
    case Some(Arr(ts)) => d.V31? && exists t | t in Elements(ts) :: t.Str? && HasType(t.s, i)
    case _ => false
  }

  /** 3.1: two independent bounds.  3.0: `exclusiveMinimum` is a flag on `minimum`. */
  predicate LowerOk(d: Dialect, bound: Option<Json>, exclusive: Option<Json>, x: real) {
    match d
    case V31 =>
      && (Numeric(bound) ==> Magnitude(bound.value.num) <= x)
      && (Numeric(exclusive) ==> Magnitude(exclusive.value.num) < x)
    case V30 =>
      Numeric(bound) ==>
        if exclusive == Some(Bool(true)) then Magnitude(bound.value.num) < x else Magnitude(bound.value.num) <= x
  }

  predicate UpperOk(d: Dialect, bound: Option<Json>, exclusive: Option<Json>, x: real) {
    match d
    case V31 =>
      && (Numeric(bound) ==> x <= Magnitude(bound.value.num))
      && (Numeric(exclusive) ==> x < Magnitude(exclusive.value.num))
    case V30 =>
      Numeric(bound) ==>
        if exclusive == Some(Bool(true)) then x < Magnitude(bound.value.num) else x <= Magnitude(bound.value.num)
  }

  predicate BoundsOk(d: Dialect, fs: Fields, i: Json) {
    i.Num? ==>
      && LowerOk(d, Get(fs, "minimum"), Get(fs, "exclusiveMinimum"), Magnitude(i.num))
      && UpperOk(d, Get(fs, "maximum"), Get(fs, "exclusiveMaximum"), Magnitude(i.num))
  }

  ghost predicate Valid(d: Dialect, voc: Vocabulary, s: Json, i: Json)
    decreases s, 0
  {
    match s
    case Bool(b) => b
    case Obj(fs) => TypeOk(d, fs, i) && RestOk(d, voc, fs, i)
    case _ => false
  }

  /** Everything a schema object asserts besides `type`. */
  ghost predicate RestOk(d: Dialect, voc: Vocabulary, fs: Fields, i: Json)
    decreases fs, 1
  {
    && BoundsOk(d, fs, i)
    && UnionsOk(d, voc, fs, i)
    && InnerOk(d, voc, fs, i)
    && ListedOk(d, voc, fs, i)
    && UnlistedOk(d, voc, fs, i)
    && OthersOk(voc, fs, i)
  }

  ghost function CountValid(d: Dialect, voc: Vocabulary, arms: Items, i: Json): nat
    decreases arms, 0
  {
    match arms
    case Nil => 0
    case Cons(a, rest) => (if Valid(d, voc, a, i) then 1 else 0) + CountValid(d, voc, rest, i)
  }

  ghost predicate UnionsOk(d: Dialect, voc: Vocabulary, fs: Fields, i: Json)
    decreases fs, 0
  {
    && (match Get(fs, "anyOf")
        case None => true
        case Some(Arr(arms)) => CountValid(d, voc, arms, i) >= 1
        case _ => false)
    && (match Get(fs, "oneOf")
        case None => true
        case Some(Arr(arms)) => CountValid(d, voc, arms, i) == 1
        case _ => false)
    && (match Get(fs, "allOf")
        case None => true
        case Some(Arr(arms)) => CountValid(d, voc, arms, i) == |Elements(arms)|
        case _ => false)
  }

  ghost predicate InnerOk(d: Dialect, voc: Vocabulary, fs: Fields, i: Json)
    decreases fs, 0
  {
    && (Has(fs, "not") ==> !Valid(d, voc, Get(fs, "not").value, i))
    && (Has(fs, "items") && i.Arr? ==> forall x | x in Elements(i.items) :: Valid(d, voc, Get(fs, "items").value, x))
  }

  /** The property names a schema object lists under `properties`. */
  function Listed(fs: Fields): Fields {
    match Get(fs, "properties")
    case Some(Obj(props)) => props
    case _ => Empty
  }

  ghost predicate ListedOk(d: Dialect, voc: Vocabulary, fs: Fields, i: Json)
    decreases fs, 0
  {
    Has(fs, "properties") && i.Obj? ==>
      match Get(fs, "properties").value
      case Obj(props) =>
        forall k | Has(props, k) && Has(i.fields, k) :: Valid(d, voc, Get(props, k).value, Get(i.fields, k).value)
      case _ => false
  }

  ghost predicate UnlistedOk(d: Dialect, voc: Vocabulary, fs: Fields, i: Json)
    decreases fs, 0
  {
    Has(fs, "additionalProperties") && i.Obj? ==>
      forall k | Has(i.fields, k) && !Has(Listed(fs), k) ::
        Valid(d, voc, Get(fs, "additionalProperties").value, Get(i.fields, k).value)
  }

  ghost predicate OthersOk(voc: Vocabulary, fs: Fields, i: Json) {
    forall k | Has(fs, k) && k !in INTERPRETED :: voc(k, Get(fs, k).value, i)
  }

  // ----- the schemas the rewrite can convert -----

  /** A lower bound may stand beside an exclusive one only if the exclusive one is at least as strict. */
  predicate LowerBoundsAgree(bound: Option<Json>, exclusive: Option<Json>) {
    Numeric(bound) && Numeric(exclusive) ==> Magnitude(bound.value.num) <= Magnitude(exclusive.value.num)
  }

  predicate UpperBoundsAgree(bound: Option<Json>, exclusive: Option<Json>) {
    Numeric(bound) && Numeric(exclusive) ==> Magnitude(exclusive.value.num) <= Magnitude(bound.value.num)
  }

  predicate AbsentOrNumeric(x: Option<Json>) {
    x == None || Numeric(x)
  }

  predicate NamedType(x: Option<Json>) {
    x == None || (x.value.Str? && x.value.s != "null")
  }

  /** A schema object in 3.1 form, apart from the agreement of its bounds and from its subschemas. */
  ghost predicate PlainKeywords(fs: Fields) {
    && DistinctKeys(fs)
    && Get(fs, "nullable") == None
    && NamedType(Get(fs, "type"))
    && AbsentOrNumeric(Get(fs, "minimum")) && AbsentOrNumeric(Get(fs, "exclusiveMinimum"))
    && AbsentOrNumeric(Get(fs, "maximum")) && AbsentOrNumeric(Get(fs, "exclusiveMaximum"))
    && forall k | Has(fs, k) && k !in INTERPRETED && k !in ANNOTATIONS :: NormalForm(Get(fs, k).value)
  }

  ghost predicate ConvertibleArms(voc: Vocabulary, arms: Items)
    decreases arms, 0
  {
    match arms
    case Nil => true
    case Cons(a, rest) => Convertible(voc, a) && ConvertibleArms(voc, rest)
  }

  ghost predicate ConvertibleValues(voc: Vocabulary, fs: Fields)
    decreases fs, 0
  {
    match fs
    case Empty => true
    case Entry(_, v, rest) => Convertible(voc, v) && ConvertibleValues(voc, rest)
  }

  ghost predicate Plain(voc: Vocabulary, fs: Fields)
    decreases fs, 1
  {
    && PlainKeywords(fs)
    && LowerBoundsAgree(Get(fs, "minimum"), Get(fs, "exclusiveMinimum"))
    && UpperBoundsAgree(Get(fs, "maximum"), Get(fs, "exclusiveMaximum"))
    && PlainSubschemas(voc, fs)
  }

  ghost predicate PlainSubschemas(voc: Vocabulary, fs: Fields)
    decreases fs, 0
  {
    && (forall k | k in {"anyOf", "oneOf", "allOf"} && Has(fs, k) ::
          Get(fs, k).value.Arr? && ConvertibleArms(voc, Get(fs, k).value.items))
    && (forall k | k in {"not", "items", "additionalProperties"} && Has(fs, k) :: Convertible(voc, Get(fs, k).value))
    && (Has(fs, "properties") ==>
          && Get(fs, "properties").value.Obj?
          && DistinctKeys(Get(fs, "properties").value.fields)
          && ConvertibleValues(voc, Get(fs, "properties").value.fields))
  }

  /** `{"type": "null"}`, possibly annotated. */
  ghost predicate JustNull(s: Json) {
    && NullArm(s) && DistinctKeys(s.fields)
    && forall k | Has(s.fields, k) :: k == "type" || k in ANNOTATIONS
  }

  /** A dictionary that holds, besides annotations, one union under `key` of a null schema with another schema. */
  ghost predicate NullableUnion(fs: Fields, key: string) {
    && key in {"anyOf", "oneOf"} && DistinctKeys(fs)
    && (forall k | Has(fs, k) :: k == key || k in ANNOTATIONS)
    && (match Get(fs, key)
        case Some(Arr(Cons(a, Cons(b, Nil)))) => (JustNull(a) && !NullArm(b)) || (JustNull(b) && !NullArm(a))
        case _ => false)
  }

  /** Null passes everything in the arm but its `type`, which `oneOf` moreover needs to be there. */
  ghost predicate NullFits(voc: Vocabulary, key: string, arm: Fields) {
    RestOk(V31, voc, arm, Null) && (key == "oneOf" ==> Has(arm, "type"))
  }

  /** An arm that is no object is kept only as the schema `true` under `anyOf`. */
  ghost predicate ArmFits(voc: Vocabulary, key: string, arm: Json) {
    match arm
    case Obj(fields) => NullFits(voc, key, fields)
    case _ => key == "anyOf" && arm == Bool(true)
  }

  ghost predicate NullableAt(voc: Vocabulary, fs: Fields, key: string)
    decreases fs, 1
  {
    && NullableUnion(fs, key) && ConcreteArm(Get(fs, key)).Some?
    && var arm := ConcreteArm(Get(fs, key)).value;
       arm.Obj? && Plain(voc, arm.fields) && NullFits(voc, key, arm.fields)
  }

  /** Null, or anything at all. */
  ghost predicate AnythingOrNull(fs: Fields) {
    NullableUnion(fs, "anyOf") && ConcreteArm(Get(fs, "anyOf")) == Some(Bool(true))
  }

  ghost predicate Convertible(voc: Vocabulary, s: Json)
    decreases s, 0
  {
    match s
    case Bool(_) => true
    case Obj(fs) =>
      Plain(voc, fs) || NullableAt(voc, fs, "anyOf") || NullableAt(voc, fs, "oneOf") || AnythingOrNull(fs)
    case _ => false
  }
}

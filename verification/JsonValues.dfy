/**
 JSON values as Python holds them: a dictionary keeps its insertion order and has each
 key at most once, so it is an association list here, with the dictionary operations the
 programs use.
 */
module JsonValues {
  import opened Options

  /** A float is its exact value together with the token Python prints for it. */
  datatype Number = Integer(n: int) | Float(repr: string, value: real)

  datatype Json =
    | Null
    | Bool(b: bool)
    | Num(num: Number)
    | Str(s: string)
    | Arr(items: Items)
    | Obj(fields: Fields)

  datatype Items = Nil | Cons(head: Json, tail: Items)

  datatype Fields = Empty | Entry(key: string, value: Json, rest: Fields)

  function Magnitude(n: Number): real {
    match n
    case Integer(i) => i as real
    case Float(_, x) => x
  }

  function Elements(items: Items): (r: seq<Json>)
    ensures forall v :: v in r ==> v < items
  {
    match items
    case Nil => []
    case Cons(v, rest) => [v] + Elements(rest)
  }

  /** The values of the dictionary. */
  function Values(d: Fields): (r: set<Json>)
    ensures forall v :: v in r ==> v < d
  {
    match d
    case Empty => {}
    case Entry(_, v, rest) => {v} + Values(rest)
  }

  // ----- dictionary operations -----

  /** The value under a key, if there is one. */
  function Get(d: Fields, k: string): (r: Option<Json>)
    ensures r.Some? ==> r.value < d && r.value in Values(d)
  {
    match d
    case Empty => None
    case Entry(key, v, rest) => if key == k then Some(v) else Get(rest, k)
  }

  /** Is there an entry under the key? */
  predicate Has(d: Fields, k: string) {
    Get(d, k).Some?
  }

  predicate DistinctKeys(d: Fields) {
    match d
    case Empty => true
    case Entry(k, _, rest) => !Has(rest, k) && DistinctKeys(rest)
  }

  /** Setting an entry: an old key keeps its place, a new one goes to the end. */
  function Put(d: Fields, k: string, v: Json): (r: Fields)
    ensures forall j :: Get(r, j) == if j == k then Some(v) else Get(d, j)
    ensures DistinctKeys(d) ==> DistinctKeys(r)
    ensures Values(r) <= Values(d) + {v}
  {
    match d
    case Empty => Entry(k, v, Empty)
    case Entry(key, old_, rest) =>
      if key == k then Entry(k, v, rest) else Entry(key, old_, Put(rest, k, v))
  }

  /** The entries whose keys are not among those dropped, in order. */
  function Without(d: Fields, drop: set<string>): (r: Fields)
    ensures forall j :: Get(r, j) == if j in drop then None else Get(d, j)
    ensures DistinctKeys(d) ==> DistinctKeys(r)
    ensures Values(r) <= Values(d)
  {
    match d
    case Empty => Empty
    case Entry(k, v, rest) =>
      if k in drop then Without(rest, drop) else Entry(k, v, Without(rest, drop))
  }

  /** The entries of `top` laid over those of `base`. */
  function Overlay(base: Fields, top: Fields): (r: Fields)
    ensures DistinctKeys(top) ==>
              forall j :: Get(r, j) == if Has(top, j) then Get(top, j) else Get(base, j)
    ensures DistinctKeys(base) ==> DistinctKeys(r)
    ensures Values(r) <= Values(base) + Values(top)
    decreases top
  {
    match top
    case Empty => base
    case Entry(k, v, rest) => Overlay(Put(base, k, v), rest)
  }

  // ----- well-formedness -----

  /** Every dictionary inside `v` has distinct keys, as every Python value does. */
  predicate WellFormed(v: Json) {
    match v
    case Arr(items) => forall x | x in Elements(items) :: WellFormed(x)
    case Obj(d) => DistinctKeys(d) && forall x | x in Values(d) :: WellFormed(x)
    case _ => true
  }
}

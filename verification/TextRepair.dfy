/**
 What the repair of stored JSON text keeps (admin/remote_ops.py): nothing but the disallowed control
 characters goes, and the repaired text holds the repaired value.
 */
module TextRepair {
  import opened Options
  import opened JsonValues
  import opened JsonText
  import opened JsonRoundTrip
  import opened SanitizeText

  // ----- characters -----

  /** Space and everything above it, tab, newline and carriage return. */
  predicate Storable(c: char) {
    c as int >= 32 || c as int in {9, 10, 13}
  }

  /** Stripping works character by character, so what is kept keeps its order. */
  lemma {:induction false} StripDistributes(a: string, b: string)
    ensures StripControls(a + b) == StripControls(a) + StripControls(b)
  {
    hide StripControls, Allowed;
    if a == "" {
      assert a + b == b;
      StripNothing();
    } else {
      assert (a + b)[1..] == a[1..] + b;
      StripDistributes(a[1..], b);
      StripUnfolds(a);
      StripUnfolds(a + b);
    }
  }

  lemma StripNothing()
    ensures StripControls("") == ""
  {
  }

  lemma StripUnfolds(s: string)
    requires s != ""
    ensures StripControls(s) == (if Allowed(s[0]) then [s[0]] else []) + StripControls(s[1..])
  {
  }

  /** A storable character stays as often as it stands in the text, any other goes. */
  lemma {:induction false} StripKeepsMultiplicity(s: string, c: char)
    ensures multiset(StripControls(s))[c] == if Storable(c) then multiset(s)[c] else 0
  {
    if s != "" {
      assert s == [s[0]] + s[1..];
      StripKeepsMultiplicity(s[1..], c);
    }
  }

  // ----- values -----

  /** The value of the last entry whose key is `k` once stripped. */
  function LastStripped(d: Fields, k: string): (r: Option<Json>)
    ensures r.Some? ==> r.value < d
  {
    match d
    case Empty => None
    case Entry(key, v, rest) =>
      match LastStripped(rest, k)
      case Some(x) => Some(x)
      case None => if StripControls(key) == k then Some(v) else None
  }

  /**
   Is `w` the repair of `v`? Strings are stripped, lists keep their elements, a dictionary has exactly the stripped keys
   and under each the last value, and everything else is as it was.
   */
  ghost predicate Repairs(v: Json, w: Json) {
    match v
    case Str(s) => w == Str(StripControls(s))
    case Arr(items) => w.Arr? && RepairsItems(items, w.items)
    case Obj(d) =>
      w.Obj? && forall k ::
        && Has(w.fields, k) == LastStripped(d, k).Some?
        && (LastStripped(d, k).Some? ==> Repairs(LastStripped(d, k).value, Get(w.fields, k).value))
    case _ => w == v
  }

  ghost predicate RepairsItems(items: Items, others: Items)
    decreases items, 0
  {
    match items
    case Nil => others == Nil
    case Cons(v, rest) => others.Cons? && Repairs(v, others.head) && RepairsItems(rest, others.tail)
  }

  lemma {:induction false} CleanLookups(d: Fields, done: Fields, k: string)
    ensures Get(CleanInto(d, done), k) ==
            match LastStripped(d, k)
            case None => Get(done, k)
            case Some(x) => Some(Clean(x))
    decreases d
  {
    hide StripControls, Clean, Get, Put;
    match d
    case Empty =>
    case Entry(key, v, rest) =>
      CleanLookups(rest, Put(done, StripControls(key), Clean(v)), k);
  }

  lemma {:induction false} CleanIntoDistinct(d: Fields, done: Fields)
    requires DistinctKeys(done)
    ensures DistinctKeys(CleanInto(d, done))
    decreases d
  {
    hide StripControls, Clean, Get;
    if d.Entry? {
      CleanIntoDistinct(d.rest, Put(done, StripControls(d.key), Clean(d.value)));
    }
  }

  /** Cleaning and sorting a value gives a repair of it. */
  lemma {:induction false} SortedCleanRepairs(v: Json)
    ensures Repairs(v, SortKeys(Clean(v)))
    decreases v, 1
  {
    match v
    case Arr(items) => ItemsRepaired(items);
    case Obj(d) =>
      FieldsRepaired(d);
    case _ =>
  }

  lemma {:induction false} ItemsRepaired(items: Items)
    ensures RepairsItems(items, SortItems(CleanItems(items)))
    decreases items, 0
  {
    match items
    case Nil =>
    case Cons(v, rest) =>
      SortedCleanRepairs(v);
      ItemsRepaired(rest);
  }

  lemma {:induction false} FieldsRepaired(d: Fields)
    ensures Repairs(Obj(d), SortKeys(Clean(Obj(d))))
    decreases d, 0
  {
    var cleaned := CleanInto(d, Empty);
    CleanIntoDistinct(d, Empty);
    var w := SortEntries(SortFields(cleaned));
    forall k
      ensures Has(w, k) == LastStripped(d, k).Some?
      ensures LastStripped(d, k).Some? ==> Repairs(LastStripped(d, k).value, Get(w, k).value)
    {
      CleanLookups(d, Empty, k);
      if LastStripped(d, k).Some? {
        SortedCleanRepairs(LastStripped(d, k).value);
      }
    }
  }

  // ----- the repaired text -----

  /** A text is repaired exactly when it loads, and the repaired text loads to a repair of its value. */
  lemma RepairedTextHolds(fl: FloatReader, t: string)
    requires ReadsBack(fl)
    ensures SanitizeJsonText(fl, t).Some? <==> Loads(fl, t).Some?
    ensures Loads(fl, t).Some? ==>
              var after := Loads(fl, SanitizeJsonText(fl, t).value);
              after.Some? && Repairs(Loads(fl, t).value, after.value) && Sorted(after.value)
  {
    hide Loads, Clean, SortKeys, Readable, IsClean, Sorted, ReadsBack, Print, Repairs;
    if Loads(fl, t).Some? {
      var parsed := Loads(fl, t).value;
      LoadedIsReadable(fl, t);
      CleanIsClean(fl, parsed);
      SortingSorts(fl, Clean(parsed));
      LoadsPrinted(fl, SortKeys(Clean(parsed)));
      SortedCleanRepairs(parsed);
    }
  }

  lemma LoadedIsReadable(fl: FloatReader, t: string)
    requires ReadsBack(fl) && Loads(fl, t).Some?
    ensures Readable(fl, Loads(fl, t).value)
  {
    hide ParseValue, Readable, ReadsBack;
    ParsedIsReadable(fl, SkipWs(t));
  }
}

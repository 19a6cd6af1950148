/**
 The repair of stored JSON text (admin/remote_ops.py): read it, drop the control characters the
 database cannot hold, and print it in canonical form.
 */
module SanitizeText {
  import opened Options
  import opened JsonValues
  import opened JsonText
  import opened JsonRoundTrip

  // ----- dropping control characters -----

  predicate Allowed(c: char) {
    c >= ' ' || c == '\n' || c == '\r' || c == '\t'
  }

  predicate AllAllowed(s: string) {
    forall k | 0 <= k < |s| :: Allowed(s[k])
  }

  function StripControls(s: string): (r: string)
    ensures AllAllowed(r)
    ensures AllAllowed(s) ==> r == s
  {
    if s == "" then "" else (if Allowed(s[0]) then [s[0]] else []) + StripControls(s[1..])
  }

  /** Keys that become equal once stripped share one entry, which holds the last of their values. */
  function Clean(v: Json): Json {
    match v
    case Str(s) => Str(StripControls(s))
    case Arr(items) => Arr(CleanItems(items))
    case Obj(d) => Obj(CleanInto(d, Empty))
    case _ => v
  }

  function CleanItems(items: Items): Items {
    match items
    case Nil => Nil
    case Cons(v, rest) => Cons(Clean(v), CleanItems(rest))
  }

  function CleanInto(d: Fields, done: Fields): Fields
    decreases d
  {
    match d
    case Empty => done
    case Entry(k, v, rest) => CleanInto(rest, Put(done, StripControls(k), Clean(v)))
  }

  /** No disallowed control character in any string or key, at any depth. */
  ghost predicate IsClean(v: Json) {
    match v
    case Str(s) => AllAllowed(s)
    case Arr(items) => forall x | x in Elements(items) :: IsClean(x)
    case Obj(d) => (forall k | Has(d, k) :: AllAllowed(k)) && forall x | x in Values(d) :: IsClean(x)
    case _ => true
  }

  ghost predicate CleanAndReadable(fl: FloatReader, v: Json) {
    IsClean(v) && Readable(fl, v)
  }

  ghost predicate CleanEntries(fl: FloatReader, d: Fields) {
    && DistinctKeys(d)
    && (forall k | Has(d, k) :: AllAllowed(k))
    && forall x | x in Values(d) :: CleanAndReadable(fl, x)
  }

  lemma {:induction false} CleanIsClean(fl: FloatReader, v: Json)
    requires Readable(fl, v)
    ensures CleanAndReadable(fl, Clean(v))
    decreases v
  {
    match v
    case Arr(items) => CleanItemsAreClean(fl, items);
    case Obj(d) => CleanIntoIsClean(fl, d, Empty);
    case _ =>
  }

  lemma {:induction false} CleanItemsAreClean(fl: FloatReader, items: Items)
    requires forall x | x in Elements(items) :: Readable(fl, x)
    ensures forall x | x in Elements(CleanItems(items)) :: CleanAndReadable(fl, x)
    decreases items
  {
    match items
    case Nil =>
    case Cons(v, rest) =>
      assert Elements(items)[0] == v;
      CleanIsClean(fl, v);
      CleanItemsAreClean(fl, rest);
  }

  lemma {:induction false} CleanIntoIsClean(fl: FloatReader, d: Fields, done: Fields)
    requires forall x | x in Values(d) :: Readable(fl, x)
    requires CleanEntries(fl, done)
    ensures CleanEntries(fl, CleanInto(d, done))
    decreases d
  {
    match d
    case Empty =>
    case Entry(k, v, rest) =>
      CleanIsClean(fl, v);
      CleanIntoIsClean(fl, rest, Put(done, StripControls(k), Clean(v)));
  }

  lemma {:induction false} CleanValueStays(fl: FloatReader, v: Json)
    requires CleanAndReadable(fl, v)
    ensures Clean(v) == v
    decreases v
  {
    match v
    case Arr(items) => CleanItemsStay(fl, items);
    case Obj(d) =>
      CleanFieldsStay(fl, d, Empty);
      AppendToEmpty(d);
    case _ =>
  }

  lemma {:induction false} CleanItemsStay(fl: FloatReader, items: Items)
    requires forall x | x in Elements(items) :: CleanAndReadable(fl, x)
    ensures CleanItems(items) == items
    decreases items
  {
    match items
    case Nil =>
    case Cons(v, rest) =>
      assert Elements(items)[0] == v;
      assert forall x | x in Elements(rest) :: x in Elements(items);
      CleanValueStays(fl, v);
      CleanItemsStay(fl, rest);
  }

  lemma {:induction false} CleanFieldsStay(fl: FloatReader, d: Fields, done: Fields)
    requires CleanEntries(fl, d)
    ensures CleanInto(d, done) == Append(done, d)
    decreases d
  {
    match d
    case Empty =>
    case Entry(k, v, rest) =>
      assert Has(d, k);
      CleanValueStays(fl, v);
      assert forall j | Has(rest, j) :: Has(d, j);
      CleanFieldsStay(fl, rest, Put(done, k, v));
  }

  // ----- sorting keys -----

  /** Python's order of strings: by code point, a prefix first. */
  predicate Less(a: string, b: string) {
    if a == "" || b == "" then a == "" && b != ""
    else a[0] < b[0] || (a[0] == b[0] && Less(a[1..], b[1..]))
  }

  lemma {:induction false} LessIsTotal(a: string, b: string)
    ensures a == b || Less(a, b) || Less(b, a)
    ensures !(Less(a, b) && Less(b, a)) && !Less(a, a)
  {
    if a != "" && b != "" {
      LessIsTotal(a[1..], b[1..]);
      assert a == [a[0]] + a[1..] && b == [b[0]] + b[1..];
    }
    if a != "" {
      LessIsTotal(a[1..], a[1..]);
    }
  }

  /** At the place `k` the first string ends, or has the smaller character; before it the two are equal. */
  predicate SmallerAt(a: string, b: string, k: nat) {
    k <= |a| && k < |b| && a[..k] == b[..k] && (k == |a| || a[k] < b[k])
  }

  /** The smaller string is the one that is smaller at the first place where the two differ. */
  lemma {:induction false} LessExactly(a: string, b: string)
    ensures Less(a, b) <==> exists k: nat :: SmallerAt(a, b, k)
  {
    if a == "" || b == "" {
      assert b != "" ==> SmallerAt("", b, 0);
    } else {
      LessExactly(a[1..], b[1..]);
      assert a[0] < b[0] ==> SmallerAt(a, b, 0);
      if k: nat :| a[0] == b[0] && SmallerAt(a[1..], b[1..], k) {
        assert a[..k + 1] == [a[0]] + a[1..][..k] && b[..k + 1] == [b[0]] + b[1..][..k];
        assert SmallerAt(a, b, k + 1);
      }
      if k: nat :| SmallerAt(a, b, k) && a[0] >= b[0] {
        assert k > 0 && a[..k][0] == a[0] && b[..k][0] == b[0];
        assert a[1..][..k - 1] == a[..k][1..] && b[1..][..k - 1] == b[..k][1..];
        assert SmallerAt(a[1..], b[1..], k - 1);
      }
    }
  }

  function Insert(d: Fields, k: string, v: Json): (r: Fields)
    ensures Values(r) == Values(d) + {v}
    ensures !Has(d, k) ==> forall j :: Get(r, j) == if j == k then Some(v) else Get(d, j)
    ensures !Has(d, k) && DistinctKeys(d) ==> DistinctKeys(r)
  {
    match d
    case Empty => Entry(k, v, Empty)
    case Entry(key, w, rest) => if Less(key, k) then Entry(key, w, Insert(rest, k, v)) else Entry(k, v, d)
  }

  function SortEntries(d: Fields): (r: Fields)
    ensures Values(r) == Values(d)
    ensures DistinctKeys(d) ==> DistinctKeys(r) && forall j :: Get(r, j) == Get(d, j)
  {
    match d
    case Empty => Empty
    case Entry(k, v, rest) => Insert(SortEntries(rest), k, v)
  }

  /** Sorting the keys of every dictionary, at every depth. */
  function SortKeys(v: Json): Json {
    match v
    case Arr(items) => Arr(SortItems(items))
    case Obj(d) => Obj(SortEntries(SortFields(d)))
    case _ => v
  }

  function SortItems(items: Items): Items {
    match items
    case Nil => Nil
    case Cons(v, rest) => Cons(SortKeys(v), SortItems(rest))
  }

  function SortFields(d: Fields): (r: Fields)
    ensures forall k :: Get(r, k) == if Has(d, k) then Some(SortKeys(Get(d, k).value)) else None
    ensures DistinctKeys(d) ==> DistinctKeys(r)
  {
    match d
    case Empty => Empty
    case Entry(k, v, rest) => Entry(k, SortKeys(v), SortFields(rest))
  }

  predicate Ascending(d: Fields) {
    d.Entry? ==> (d.rest.Entry? ==> Less(d.key, d.rest.key)) && Ascending(d.rest)
  }

  ghost predicate Sorted(v: Json) {
    match v
    case Arr(items) => forall x | x in Elements(items) :: Sorted(x)
    case Obj(d) => Ascending(d) && forall x | x in Values(d) :: Sorted(x)
    case _ => true
  }

  /** The values the canonical printer prints. */
  ghost predicate Canonical(fl: FloatReader, v: Json) {
    CleanAndReadable(fl, v) && Sorted(v)
  }

  lemma {:induction false} InsertAscends(d: Fields, k: string, v: Json)
    requires Ascending(d) && !Has(d, k)
    ensures Ascending(Insert(d, k, v))
  {
    if d.Entry? {
      LessIsTotal(d.key, k);
      if Less(d.key, k) {
        InsertAscends(d.rest, k, v);
      }
    }
  }

  lemma {:induction false} SortEntriesAscends(d: Fields)
    requires DistinctKeys(d)
    ensures Ascending(SortEntries(d))
  {
    if d.Entry? {
      SortEntriesAscends(d.rest);
      InsertAscends(SortEntries(d.rest), d.key, d.value);
    }
  }

  lemma {:induction false} SortingSorts(fl: FloatReader, v: Json)
    requires CleanAndReadable(fl, v)
    ensures Canonical(fl, SortKeys(v))
    decreases v
  {
    match v
    case Arr(items) => SortItemsSorts(fl, items);
    case Obj(d) =>
      SortFieldsSorts(fl, d);
      SortEntriesAscends(SortFields(d));
    case _ =>
  }

  lemma {:induction false} SortItemsSorts(fl: FloatReader, items: Items)
    requires forall x | x in Elements(items) :: CleanAndReadable(fl, x)
    ensures forall x | x in Elements(SortItems(items)) :: Canonical(fl, x)
    decreases items
  {
    match items
    case Nil =>
    case Cons(v, rest) =>
      assert Elements(items)[0] == v;
      assert forall x | x in Elements(rest) :: x in Elements(items);
      SortingSorts(fl, v);
      SortItemsSorts(fl, rest);
  }

  lemma {:induction false} SortFieldsSorts(fl: FloatReader, d: Fields)
    requires forall x | x in Values(d) :: CleanAndReadable(fl, x)
    ensures forall x | x in Values(SortFields(d)) :: Canonical(fl, x)
    decreases d
  {
    match d
    case Empty =>
    case Entry(_, v, rest) =>
      SortingSorts(fl, v);
      SortFieldsSorts(fl, rest);
  }

  lemma {:induction false} SortedValueStays(v: Json)
    requires Sorted(v)
    ensures SortKeys(v) == v
    decreases v, 1
  {
    match v
    case Arr(items) => SortedItemsStay(items);
    case Obj(d) =>
      SortedFieldsStay(d);
      AscendingStays(d);
    case _ =>
  }

  lemma {:induction false} SortedItemsStay(items: Items)
    requires forall x | x in Elements(items) :: Sorted(x)
    ensures SortItems(items) == items
    decreases items, 0
  {
    match items
    case Nil =>
    case Cons(v, rest) =>
      assert Elements(items)[0] == v;
      assert forall x | x in Elements(rest) :: x in Elements(items);
      SortedValueStays(v);
      SortedItemsStay(rest);
  }

  lemma {:induction false} SortedFieldsStay(d: Fields)
    requires forall x | x in Values(d) :: Sorted(x)
    ensures SortFields(d) == d
    decreases d, 0
  {
    match d
    case Empty =>
    case Entry(_, v, rest) =>
      SortedValueStays(v);
      SortedFieldsStay(rest);
  }

  lemma {:induction false} AscendingStays(d: Fields)
    requires Ascending(d)
    ensures SortEntries(d) == d
  {
    if d.Entry? {
      AscendingStays(d.rest);
      if d.rest.Entry? {
        LessIsTotal(d.key, d.rest.key);
      }
    }
  }

  // ----- the repair -----

  /** The repaired text, or `None` when the text is not JSON (the program raises). */
  function SanitizeJsonText(fl: FloatReader, rawJson: string): Option<string> {
    match Loads(fl, rawJson)
    case None => None
    case Some(parsed) => Some(Print(SortKeys(Clean(parsed))))
  }

  /** A repaired text is the canonical print of a value without disallowed control characters. */
  lemma SanitizedIsCanonical(fl: FloatReader, t: string) returns (v: Json)
    requires ReadsBack(fl) && SanitizeJsonText(fl, t).Some?
    ensures Canonical(fl, v) && SanitizeJsonText(fl, t) == Some(Print(v))
    ensures Loads(fl, Print(v)) == Some(v)
  {
    hide ParseValue, Clean, SortKeys, Readable, IsClean, Sorted, ReadsBack;
    ParsedIsReadable(fl, SkipWs(t));
    var parsed := Loads(fl, t).value;
    CleanIsClean(fl, parsed);
    SortingSorts(fl, Clean(parsed));
    v := SortKeys(Clean(parsed));
    LoadsPrinted(fl, v);
  }

  lemma CanonicalTextStays(fl: FloatReader, v: Json)
    requires Canonical(fl, v)
    ensures SanitizeJsonText(fl, Print(v)) == Some(Print(v))
  {
    hide ParseValue, Clean, SortKeys, Readable, IsClean, Sorted, Loads;
    LoadsPrinted(fl, v);
    CleanValueStays(fl, v);
    SortedValueStays(v);
  }

  /** Repairing a repaired text changes nothing. */
  lemma SanitizeIdempotent(fl: FloatReader, t: string)
    requires ReadsBack(fl) && SanitizeJsonText(fl, t).Some?
    ensures var repaired := SanitizeJsonText(fl, t).value; SanitizeJsonText(fl, repaired) == Some(repaired)
  {
    hide *;
    var v := SanitizedIsCanonical(fl, t);
    CanonicalTextStays(fl, v);
  }

  /** A text is left unchanged exactly when it is the canonical print of a clean value. */
  lemma UnchangedIffCanonical(fl: FloatReader, t: string)
    requires ReadsBack(fl)
    ensures SanitizeJsonText(fl, t) == Some(t) <==> exists v :: Canonical(fl, v) && t == Print(v)
  {
    hide *;
    if SanitizeJsonText(fl, t) == Some(t) {
      var v := SanitizedIsCanonical(fl, t);
    }
    forall v | Canonical(fl, v) && t == Print(v) ensures SanitizeJsonText(fl, t) == Some(t) {
      CanonicalTextStays(fl, v);
    }
  }

  // ----- repairing the selected rows -----

  datatype RowReport = RowReport(text: string, changed: bool)

  /** The loop over the selected rows: their texts afterwards, and what it reports of each. */
  method SanitizeRows(fl: FloatReader, selected: seq<string>, apply: bool) returns (ok: bool, rows: seq<RowReport>)
    ensures ok <==> forall k | 0 <= k < |selected| :: SanitizeJsonText(fl, selected[k]).Some?
    ensures ok ==> |rows| == |selected| && forall k | 0 <= k < |selected| ::
                var repaired := SanitizeJsonText(fl, selected[k]).value;
                && rows[k].changed == (repaired != selected[k])
                && rows[k].text == if apply then repaired else selected[k]
  {
    hide SanitizeJsonText;
    rows := [];
    for i := 0 to |selected|
      invariant |rows| == i
      invariant forall k | 0 <= k < i :: SanitizeJsonText(fl, selected[k]).Some?
      invariant forall k | 0 <= k < i ::
                  var repaired := SanitizeJsonText(fl, selected[k]).value;
                  && rows[k].changed == (repaired != selected[k])
                  && rows[k].text == if apply then repaired else selected[k]
    {
      var repaired := SanitizeJsonText(fl, selected[i]);
      if repaired.None? {
        return false, rows;
      }
      var changed := repaired.value != selected[i];
      if !apply || !changed {
        rows := rows + [RowReport(selected[i], changed)];
        continue;
      }
      rows := rows + [RowReport(repaired.value, changed)];
    }
    ok := true;
  }
}

/** Loosely-typed JavaScript values as the normaliser sees them after
    `JSON.parse`, with the handful of language operations it relies on:
    property access, truthiness, `??`, `typeof … === "object"` and the
    `Object.fromEntries(Object.entries(o).filter(…))` idiom that drops
    nullish properties.

    Objects keep their properties as an ordered list in insertion order;
    `OwnOrder` gives the order `Object.values` and `Object.entries` observe. Numbers are
    integers; see the README for what that leaves out. */
module Json {

  import opened Text

  datatype JS =
    | Undefined
    | Null
    | Bool(b: bool)
    | Num(n: int)
    | Str(s: string)
    | Arr(items: seq<JS>)
    | Obj(fields: seq<(string, JS)>)

  /** The value bound to `k` in a property list: the first binding, or
      `undefined` when there is none. */
  function Lookup(fields: seq<(string, JS)>, k: string): JS {
    if |fields| == 0 then Undefined
    else if fields[0].0 == k then fields[0].1
    else Lookup(fields[1..], k)
  }

  /** `v?.[k]` for a named (non-index) property key: `undefined` unless `v`
      is an object that has the property. Arrays and primitives have none
      of the named keys the normaliser reads. */
  function Get(v: JS, k: string): (r: JS)
    ensures !v.Obj? ==> r == Undefined
  {
    if v.Obj? then Lookup(v.fields, k) else Undefined
  }

  /** A key that no property has is `undefined`; any other result is a
      binding of the list. */
  lemma {:induction false} LookupFound(fields: seq<(string, JS)>, k: string)
    ensures Lookup(fields, k) == Undefined || (k, Lookup(fields, k)) in fields
    ensures (forall i :: 0 <= i < |fields| ==> fields[i].0 != k) ==> Lookup(fields, k) == Undefined
  {
    if |fields| > 0 && fields[0].0 != k {
      LookupFound(fields[1..], k);
    }
  }

  /** The binding found at index `i` is the one `Lookup` returns when no
      earlier property has the same key. */
  lemma {:induction false} LookupAt(fields: seq<(string, JS)>, i: nat, k: string)
    requires i < |fields| && fields[i].0 == k
    requires forall j :: 0 <= j < i ==> fields[j].0 != k
    ensures Lookup(fields, k) == fields[i].1
    decreases i
  {
    if i > 0 {
      LookupAt(fields[1..], i - 1, k);
    }
  }

  /** An array of strings as JSON values. */
  function StrList(xs: seq<string>): (r: seq<JS>)
    ensures |r| == |xs|
    ensures forall i :: 0 <= i < |xs| ==> r[i] == Str(xs[i])
  {
    seq(|xs|, i requires 0 <= i < |xs| => Str(xs[i]))
  }

  /** ECMAScript ToBoolean: `undefined`, `null`, `false`, `0` and `""` are
      falsy; every array and object is truthy. */
  predicate Truthy(v: JS) {
    match v
    case Undefined => false
    case Null => false
    case Bool(b) => b
    case Num(n) => n != 0
    case Str(s) => s != ""
    case Arr(_) => true
    case Obj(_) => true
  }

  /** The values `??` and `?.` treat as absent. */
  predicate Nullish(v: JS) {
    v.Undefined? || v.Null?
  }

  /** `a ?? b`. */
  function Coalesce(a: JS, b: JS): (r: JS)
    ensures !Nullish(a) ==> r == a
    ensures Nullish(a) ==> r == b
  {
    if Nullish(a) then b else a
  }

  /** `typeof v === "object"`, which holds of `null` and of arrays too. */
  predicate IsObject(v: JS) {
    v.Null? || v.Arr? || v.Obj?
  }

  /** No two properties share a key, as in every object `JSON.parse` or an
      object literal produces. */
  predicate DistinctKeys(fields: seq<(string, JS)>) {
    forall i, j :: 0 <= i < j < |fields| ==> fields[i].0 != fields[j].0
  }

  /** `Object.fromEntries(Object.entries(o).filter(([, v]) => v !== undefined && v !== null))`:
      the properties whose value is not nullish, in their original order. */
  function Compact(fields: seq<(string, JS)>): (r: seq<(string, JS)>)
    ensures |r| <= |fields|
    ensures forall i :: 0 <= i < |r| ==> !Nullish(r[i].1) && r[i] in fields
    ensures DistinctKeys(fields) ==> DistinctKeys(r)
  {
    if |fields| == 0 then []
    else
      var rest := Compact(fields[1..]);
      assert forall p :: p in rest ==> p in fields[1..];
      if Nullish(fields[0].1) then rest
      else
        assert DistinctKeys(fields) ==> forall p :: p in rest ==> p.0 != fields[0].0;
        [fields[0]] + rest
  }

  /** Every property whose value is not nullish survives `Compact`; an
      object whose values are all nullish compacts to nothing. */
  lemma {:induction false} CompactKeepsPresent(fields: seq<(string, JS)>)
    ensures forall i :: 0 <= i < |fields| && !Nullish(fields[i].1) ==> fields[i] in Compact(fields)
    ensures (forall i :: 0 <= i < |fields| ==> Nullish(fields[i].1)) ==> Compact(fields) == []
  {
    if |fields| > 0 {
      var rest := fields[1..];
      CompactKeepsPresent(rest);
      assert forall i :: 1 <= i < |fields| ==> fields[i] == rest[i - 1];
    }
  }

  /** Reading a property of a compacted object: the original value, unless
      it was nullish, in which case the property is gone. */
  lemma {:induction false} LookupCompact(fields: seq<(string, JS)>, k: string)
    requires DistinctKeys(fields)
    ensures Lookup(Compact(fields), k)
         == (if Nullish(Lookup(fields, k)) then Undefined else Lookup(fields, k))
  {
    if |fields| > 0 {
      var rest := fields[1..];
      assert DistinctKeys(rest);
      LookupCompact(rest, k);
      if fields[0].0 == k {
        assert forall i :: 0 <= i < |rest| ==> rest[i].0 != k;
        LookupFound(rest, k);
      }
    }
  }

  /** An array index in the sense of ECMAScript: the canonical decimal form
      (no sign, no leading zero) of an integer below 2^32 - 1. */
  predicate IsArrayIndex(k: string) {
    && |k| > 0
    && (forall i :: 0 <= i < |k| ==> IsDigit(k[i]))
    && (|k| == 1 || k[0] != '0')
    && DigitsValue(k) < 0xFFFF_FFFF
  }

  function IndexOf(k: string): nat
    requires IsArrayIndex(k)
  {
    DigitsValue(k)
  }

  /** The properties whose key is an array index, in insertion order. */
  function IndexEntries(fields: seq<(string, JS)>): (r: seq<(string, JS)>)
    ensures |r| <= |fields|
    ensures forall i :: 0 <= i < |r| ==> IsArrayIndex(r[i].0)
  {
    if |fields| == 0 then []
    else if IsArrayIndex(fields[0].0) then [fields[0]] + IndexEntries(fields[1..])
    else IndexEntries(fields[1..])
  }

  /** The properties whose key is not an array index, in insertion order. */
  function NamedEntries(fields: seq<(string, JS)>): (r: seq<(string, JS)>)
    ensures forall i :: 0 <= i < |r| ==> !IsArrayIndex(r[i].0)
  {
    if |fields| == 0 then []
    else if IsArrayIndex(fields[0].0) then NamedEntries(fields[1..])
    else [fields[0]] + NamedEntries(fields[1..])
  }

  /** Splitting by key kind loses and invents nothing. */
  lemma {:induction false} EntriesPartition(fields: seq<(string, JS)>)
    ensures multiset(IndexEntries(fields)) + multiset(NamedEntries(fields)) == multiset(fields)
  {
    if |fields| > 0 {
      EntriesPartition(fields[1..]);
      assert fields == [fields[0]] + fields[1..];
    }
  }

  predicate SortedByIndex(s: seq<(string, JS)>) {
    && (forall i :: 0 <= i < |s| ==> IsArrayIndex(s[i].0))
    && (forall i, j :: 0 <= i < j < |s| ==> IndexOf(s[i].0) <= IndexOf(s[j].0))
  }

  function InsertByIndex(p: (string, JS), s: seq<(string, JS)>): (r: seq<(string, JS)>)
    requires IsArrayIndex(p.0) && SortedByIndex(s)
    ensures SortedByIndex(r)
    ensures multiset(r) == multiset(s) + multiset{p}
  {
    if |s| == 0 then [p]
    else if IndexOf(p.0) <= IndexOf(s[0].0) then
      ConsSorted(p, s);
      [p] + s
    else
      var rest := InsertByIndex(p, s[1..]);
      assert s == [s[0]] + s[1..];
      InsertedBounded(p, s, rest);
      ConsSorted(s[0], rest);
      assert multiset([s[0]] + rest) == multiset{s[0]} + multiset(rest);
      [s[0]] + rest
  }

  lemma ConsSorted(x: (string, JS), s: seq<(string, JS)>)
    requires IsArrayIndex(x.0) && SortedByIndex(s)
    requires forall i :: 0 <= i < |s| ==> IndexOf(x.0) <= IndexOf(s[i].0)
    ensures SortedByIndex([x] + s)
  {
    var r := [x] + s;
    assert forall i :: 0 < i < |r| ==> r[i] == s[i - 1];
  }

  lemma InsertedBounded(p: (string, JS), s: seq<(string, JS)>, rest: seq<(string, JS)>)
    requires IsArrayIndex(p.0) && SortedByIndex(s) && |s| > 0
    requires IndexOf(s[0].0) <= IndexOf(p.0)
    requires SortedByIndex(rest) && multiset(rest) == multiset(s[1..]) + multiset{p}
    ensures forall i :: 0 <= i < |rest| ==> IndexOf(s[0].0) <= IndexOf(rest[i].0)
  {
    forall i | 0 <= i < |rest|
      ensures IndexOf(s[0].0) <= IndexOf(rest[i].0)
    {
      assert rest[i] in multiset(rest);
      if rest[i] != p {
        assert rest[i] in multiset(s[1..]);
        var j :| 0 <= j < |s[1..]| && s[1..][j] == rest[i];
        assert s[j + 1] == rest[i];
      }
    }
  }

  /** Array-index properties in ascending numeric order. */
  function SortByIndex(s: seq<(string, JS)>): (r: seq<(string, JS)>)
    requires forall i :: 0 <= i < |s| ==> IsArrayIndex(s[i].0)
    ensures SortedByIndex(r)
    ensures multiset(r) == multiset(s)
  {
    if |s| == 0 then []
    else
      assert s == [s[0]] + s[1..];
      InsertByIndex(s[0], SortByIndex(s[1..]))
  }

  /** The order of `Object.keys`, `Object.values` and `Object.entries`
      (OrdinaryOwnPropertyKeys, section 10.1.11.1 of ECMA-262): array-index
      keys in ascending numeric order, then the other keys in insertion
      order. `OwnOrderPermutes` states that it is a reordering. */
  function OwnOrder(fields: seq<(string, JS)>): (r: seq<(string, JS)>)
    ensures forall i :: 0 <= i < |r| ==> r[i] in fields
  {
    OwnOrderPermutes(fields);
    SortByIndex(IndexEntries(fields)) + NamedEntries(fields)
  }

  /** `OwnOrder` reorders the properties without losing or adding any. */
  lemma OwnOrderPermutes(fields: seq<(string, JS)>)
    ensures var r := SortByIndex(IndexEntries(fields)) + NamedEntries(fields);
      && multiset(r) == multiset(fields)
      && (forall i :: 0 <= i < |r| ==> r[i] in fields)
  {
    EntriesPartition(fields);
    var r := SortByIndex(IndexEntries(fields)) + NamedEntries(fields);
    assert forall i :: 0 <= i < |r| ==> r[i] in multiset(fields);
  }

  /** `OwnOrder` lists the array-index properties first, in ascending
      order, and then the rest. */
  lemma OwnOrderShape(fields: seq<(string, JS)>)
    ensures |IndexEntries(fields)| <= |OwnOrder(fields)|
    ensures SortedByIndex(OwnOrder(fields)[..|IndexEntries(fields)|])
    ensures forall i :: |IndexEntries(fields)| <= i < |OwnOrder(fields)| ==> !IsArrayIndex(OwnOrder(fields)[i].0)
  {
    var sorted := SortByIndex(IndexEntries(fields));
    assert OwnOrder(fields) == sorted + NamedEntries(fields);
    assert |sorted| == |IndexEntries(fields)| by {
      assert |multiset(sorted)| == |multiset(IndexEntries(fields))|;
    }
    IndexThenNamed(sorted, NamedEntries(fields));
  }

  /** Sorted index entries followed by named ones keep that split. */
  lemma IndexThenNamed(sorted: seq<(string, JS)>, named: seq<(string, JS)>)
    requires SortedByIndex(sorted)
    requires forall i :: 0 <= i < |named| ==> !IsArrayIndex(named[i].0)
    ensures (sorted + named)[..|sorted|] == sorted
    ensures forall i :: |sorted| <= i < |sorted + named| ==> !IsArrayIndex((sorted + named)[i].0)
  {
    assert forall i :: |sorted| <= i < |sorted + named| ==> (sorted + named)[i] == named[i - |sorted|];
  }

  /** An object without array-index keys is enumerated in insertion order. */
  lemma {:induction false} OwnOrderOfNamed(fields: seq<(string, JS)>)
    requires forall i :: 0 <= i < |fields| ==> !IsArrayIndex(fields[i].0)
    ensures OwnOrder(fields) == fields
  {
    NamedOnly(fields);
  }

  lemma {:induction false} NamedOnly(fields: seq<(string, JS)>)
    requires forall i :: 0 <= i < |fields| ==> !IsArrayIndex(fields[i].0)
    ensures IndexEntries(fields) == [] && NamedEntries(fields) == fields
  {
    if |fields| > 0 {
      NamedOnly(fields[1..]);
      assert fields == [fields[0]] + fields[1..];
    }
  }

  /** With at least one array-index key, enumeration starts at the one of
      least numeric value. */
  lemma OwnOrderFirstIndex(fields: seq<(string, JS)>, k: nat)
    requires k < |fields| && IsArrayIndex(fields[k].0)
    ensures var r := OwnOrder(fields);
      |r| > 0 && IsArrayIndex(r[0].0) && IndexOf(r[0].0) <= IndexOf(fields[k].0)
  {
    var r := OwnOrder(fields);
    var m := |IndexEntries(fields)|;
    OwnOrderPermutes(fields);
    OwnOrderShape(fields);
    assert fields[k] in multiset(r);
    var j :| 0 <= j < |r| && r[j] == fields[k];
    assert j < m;
    assert r[..m][0] == r[0] && r[..m][j] == r[j];
  }
}

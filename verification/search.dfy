/** The `/api/wines/search` handler: reads the upstream search result,
    keeps at most `limit` items, turns each `{ name: id }` item into a wine
    record (fetching its details when it has an id) and answers
    `{ wines }`, or a 500 error when the search request itself fails.

    The two upstream requests are oracles: `search` is the search response
    body (`None` when the request threw) and `fetch(id)` the detail payload
    for `id` (`None` when that request threw). */
module Search {

  import opened Wrappers
  import opened Json
  import opened Text
  import opened Fields
  import opened Details

  /** The limit used when the configured one is missing, not a number, or
      not positive. */
  const FallbackLimit := 6

  /** 2^1024 - 2^970: the least integer that rounds to `Infinity` when it
      is converted to a double (section 6.1.6.1 of ECMA-262). */
  const NumberOverflow: int := 0xFFFFFFFFFFFFFC00_0000000000000000_0000000000000000_0000000000000000_0000000000000000_0000000000000000_0000000000000000_0000000000000000_0000000000000000_0000000000000000_0000000000000000_0000000000000000_0000000000000000_0000000000000000_0000000000000000_0000000000000000

  /** `Number.parseInt(process.env.WINE_SEARCH_LIMIT ?? "6", 10)` followed by
      the `Number.isFinite(limit) && limit > 0 ? limit : 6` guard. A digit
      run worth `NumberOverflow` or more is `Infinity` once `parseInt`
      rounds it to a double, and so fails the guard. */
  function EffectiveLimit(env: Option<string>): (r: int)
    ensures 0 < r < NumberOverflow
    ensures r != FallbackLimit ==> ParseIntPrefix(env.GetOr("6")) == Some(r)
  {
    match ParseIntPrefix(env.GetOr("6"))
    case Some(n) => if 0 < n < NumberOverflow then n else FallbackLimit
    case None => FallbackLimit
  }

  /** A configured positive integer, possibly padded with white space or
      followed by non-digits (`" 12"`, `"12items"`), is the limit. */
  lemma ConfiguredLimit(a: string, n: int, tail: string)
    requires Blank(a) && 0 < n < NumberOverflow
    requires tail == [] || !IsDigit(tail[0])
    ensures EffectiveLimit(Some(a + IntToString(n) + tail)) == n
  {
    ParseIntPrefixOfIntToString(a, n, tail);
  }

  /** A configured integer too large for a finite double is `Infinity`,
      which gives the limit 6. */
  lemma OverflowingLimit(a: string, n: int, tail: string)
    requires Blank(a) && n >= NumberOverflow
    requires tail == [] || !IsDigit(tail[0])
    ensures EffectiveLimit(Some(a + IntToString(n) + tail)) == 6
  {
    ParseIntPrefixOfIntToString(a, n, tail);
  }

  /** An unset variable gives the limit 6. */
  lemma UnsetLimit()
    ensures EffectiveLimit(None) == 6
  {
    ParseIntPrefixOfIntToString([], 6, []);
    assert [] + IntToString(6) + [] == "6";
  }

  /** A value without any digit is `NaN`, which gives the limit 6. */
  lemma NonNumericLimit(s: string)
    requires forall i :: 0 <= i < |s| ==> !IsDigit(s[i])
    ensures EffectiveLimit(Some(s)) == 6
  {
    ParseIntPrefixNoDigits(s);
  }

  /** A zero or negative value gives the limit 6. */
  lemma NonPositiveLimit(n: int)
    requires n <= 0
    ensures EffectiveLimit(Some(IntToString(n))) == 6
  {
    ParseIntPrefixOfIntToString([], n, []);
    assert [] + IntToString(n) + [] == IntToString(n);
  }

  /** `Array.isArray(data?.items) ? data.items : []`. */
  function SearchItems(data: JS): (r: seq<JS>)
    ensures Get(data, "items").Arr? ==> r == Get(data, "items").items
    ensures !Get(data, "items").Arr? ==> r == []
  {
    if Get(data, "items").Arr? then Get(data, "items").items else []
  }

  /** `items.slice(0, limit)` for a positive `limit`. */
  function Slice(items: seq<JS>, limit: int): (r: seq<JS>)
    requires limit > 0
    ensures |r| == if |items| < limit then |items| else limit
    ensures r == items[..|r|]
  {
    if |items| < limit then items else items[..limit]
  }

  /** `item && typeof item === "object" ? Object.entries(item)[0] : undefined`:
      the first property in own-property order, where an array's
      properties are its indices. */
  function FirstEntry(item: JS): (r: Option<(string, JS)>)
    ensures r.Some? ==> item.Arr? || item.Obj?
    ensures item.Arr? ==> r == if item.items == [] then None else Some(("0", item.items[0]))
    ensures item.Obj? && item.fields == [] ==> r == None
    ensures item.Obj? && (forall i :: 0 <= i < |item.fields| ==> !IsArrayIndex(item.fields[i].0)) && item.fields != [] ==>
      r == Some(item.fields[0])
  {
    match item
    case Arr(xs) => if |xs| > 0 then Some(("0", xs[0])) else None
    case Obj(fs) =>
      if forall i :: 0 <= i < |fs| ==> !IsArrayIndex(fs[i].0) then
        OwnOrderOfNamed(fs);
        var o := OwnOrder(fs);
        if |o| > 0 then Some(o[0]) else None
      else
        var o := OwnOrder(fs);
        if |o| > 0 then Some(o[0]) else None
    case _ => None
  }

  /** An object item whose keys include an array index yields the entry
      with the numerically least such key, wherever it was inserted. */
  lemma FirstEntryPrefersIndexKeys(fs: seq<(string, JS)>, k: nat)
    requires k < |fs| && IsArrayIndex(fs[k].0)
    ensures var e := FirstEntry(Obj(fs));
      e.Some? && IsArrayIndex(e.value.0) && IndexOf(e.value.0) <= IndexOf(fs[k].0)
  {
    OwnOrderFirstIndex(fs, k);
  }

  /** The name used for an item whose key is blank or missing. */
  const NoName: string := "Vin sans nom"

  /** `typeof rawName === "string" && rawName.trim() ? rawName.trim() : "Vin sans nom"`. */
  function ItemName(entry: Option<(string, JS)>): (r: string)
    ensures r != [] && Trimmed(r)
    ensures entry.Some? && !Blank(entry.value.0) ==> r == Trim(entry.value.0)
    ensures (entry.None? || Blank(entry.value.0)) ==> r == NoName
  {
    if entry.Some? && Trim(entry.value.0) != [] then Trim(entry.value.0)
    else
      assert NoName[0] == 'V' && NoName[|NoName| - 1] == 'm';
      NoName
  }

  /** `rawId ?? null`. */
  function ItemId(entry: Option<(string, JS)>): (r: JS)
    ensures r != Undefined
    ensures entry.Some? && !Nullish(entry.value.1) ==> r == entry.value.1
  {
    if entry.Some? then Coalesce(entry.value.1, Null) else Null
  }

  /** The body of the per-item callback. An item without a truthy id gives
      `{ name }` and no request; a failed detail request gives
      `{ id, name }`; otherwise the details are normalised with
      `{ id, name }` as the fallback. */
  function ProcessItem(item: JS, fetch: JS -> Option<JS>): (r: JS)
    ensures r.Obj?
    ensures var e := FirstEntry(item);
      !Truthy(ItemId(e)) ==> r == Obj([("name", Str(ItemName(e)))])
    ensures var e := FirstEntry(item);
      Truthy(ItemId(e)) && fetch(ItemId(e)).None? ==> r == Obj([("id", ItemId(e)), ("name", Str(ItemName(e)))])
    ensures var e := FirstEntry(item);
      Truthy(ItemId(e)) && fetch(ItemId(e)).Some? ==>
        r == NormalizeWineDetails(fetch(ItemId(e)).value, Obj([("id", ItemId(e)), ("name", Str(ItemName(e)))]))
  {
    var entry := FirstEntry(item);
    var name := Str(ItemName(entry));
    var id := ItemId(entry);
    if !Truthy(id) then Obj([("name", name)])
    else
      match fetch(id)
      case None => Obj([("id", id), ("name", name)])
      case Some(payload) => NormalizeWineDetails(payload, Obj([("id", id), ("name", name)]))
  }

  /** Every record carries a name, and every record of an item with a
      truthy id carries an id, whether or not its detail request failed. */
  lemma EveryRecordNamed(item: JS, fetch: JS -> Option<JS>)
    ensures Present(Get(ProcessItem(item, fetch), "name"))
    ensures Truthy(ItemId(FirstEntry(item))) ==> Present(Get(ProcessItem(item, fetch), "id"))
  {
    var entry := FirstEntry(item);
    var name := Str(ItemName(entry));
    var id := ItemId(entry);
    if !Truthy(id) {
      LookupAt([("name", name)], 0, "name");
    } else if fetch(id).None? {
      FallbackFields(id, name);
    } else {
      var payload := fetch(id).value;
      assert ProcessItem(item, fetch) == NormalizeWineDetails(payload, Obj([("id", id), ("name", name)]));
      NormalizedKeepsFallback(payload, id, name);
    }
  }

  /** With a present `id` and `name` in the fallback, the normalised record
      has both, whatever the payload holds. */
  lemma NormalizedKeepsFallback(payload: JS, id: JS, name: JS)
    requires Truthy(id) && name.Str? && name.s != []
    ensures Present(Get(NormalizeWineDetails(payload, Obj([("id", id), ("name", name)])), "name"))
    ensures Present(Get(NormalizeWineDetails(payload, Obj([("id", id), ("name", name)])), "id"))
  {
    var fallback := Obj([("id", id), ("name", name)]);
    FallbackFields(id, name);
    IdFallback(payload, fallback);
    NameFallback(payload, fallback);
    FirstNonEmptyIsPresentOrUndefined(UpstreamIds(LocateNodes(payload)));
    FirstNonEmptyIsPresentOrUndefined(UpstreamNames(LocateNodes(payload)));
  }

  lemma FallbackFields(id: JS, name: JS)
    requires Truthy(id) && name.Str? && name.s != []
    ensures Present(Get(Obj([("id", id), ("name", name)]), "id"))
    ensures Present(Get(Obj([("id", id), ("name", name)]), "name"))
  {
    LookupAt([("id", id), ("name", name)], 1, "name");
  }

  /** Failure isolation: an item's record depends on the detail request for
      its own id only, so another item's failed request cannot change it. */
  lemma ProcessItemUsesOwnFetchOnly(item: JS, f: JS -> Option<JS>, g: JS -> Option<JS>)
    requires f(ItemId(FirstEntry(item))) == g(ItemId(FirstEntry(item)))
    ensures ProcessItem(item, f) == ProcessItem(item, g)
  {
  }

  /** The ids for which a detail request is made, in item order. */
  function RequestedIds(items: seq<JS>): (r: seq<JS>)
    ensures |r| <= |items|
    ensures forall i :: 0 <= i < |r| ==> Truthy(r[i])
  {
    if items == [] then []
    else
      var id := ItemId(FirstEntry(items[|items| - 1]));
      RequestedIds(items[..|items| - 1]) + (if Truthy(id) then [id] else [])
  }

  lemma RequestedIdsSnoc(items: seq<JS>, i: nat)
    requires i < |items|
    ensures var id := ItemId(FirstEntry(items[i]));
      RequestedIds(items[..i + 1]) == RequestedIds(items[..i]) + (if Truthy(id) then [id] else [])
  {
    assert items[..i + 1][..i] == items[..i];
  }

  /** The handler's answer: a status code and a JSON body. */
  datatype Response = Response(status: int, body: JS)

  const SearchError: JS := Obj([("error", Str("Erreur lors de la recherche"))])

  /** `Promise.all(slicedItems.map(…))`: one record per item, in item
      order. The detail requests are independent of one another, so running
      them one after the other gives the same records as running them
      concurrently. */
  method ProcessItems(items: seq<JS>, fetch: JS -> Option<JS>) returns (wines: seq<JS>)
    ensures |wines| == |items|
    ensures forall i :: 0 <= i < |items| ==> wines[i] == ProcessItem(items[i], fetch)
  {
    wines := [];
    var i := 0;
    while i < |items|
      invariant 0 <= i <= |items|
      invariant |wines| == i
      invariant forall j :: 0 <= j < i ==> wines[j] == ProcessItem(items[j], fetch)
    {
      wines := wines + [ProcessItem(items[i], fetch)];
      i := i + 1;
    }
  }

  /** The detail requests `ProcessItems` makes: one per item whose id is
      truthy, in item order. */
  method DetailRequests(items: seq<JS>) returns (requested: seq<JS>)
    ensures requested == RequestedIds(items)
  {
    requested := [];
    var i := 0;
    while i < |items|
      invariant 0 <= i <= |items|
      invariant requested == RequestedIds(items[..i])
    {
      var id := ItemId(FirstEntry(items[i]));
      if Truthy(id) {
        requested := requested + [id];
      }
      RequestedIdsSnoc(items, i);
      i := i + 1;
    }
    assert items[..i] == items;
  }

  /** The wine name searched for when the request carries no `q`. */
  const DefaultQuery: string := "syrah"

  /** `req.query.q || "syrah"`: the query string, or the default when it is
      missing or empty. */
  function SearchQuery(q: Option<string>): (r: string)
    ensures r != []
    ensures q.Some? && q.value != [] ==> r == q.value
    ensures q.None? || q.value == [] ==> r == DefaultQuery
  {
    if q.Some? && q.value != [] then q.value else DefaultQuery
  }

  /** The search handler. `q` is the request's `q` parameter, `env` is
      `WINE_SEARCH_LIMIT`, `searchApi(name)` is the upstream search response
      body for `name` (`None` when that request failed) and `fetch(id)` the
      detail payload for `id`. Also returns the ids whose details were
      requested. */
  method HandleSearch(q: Option<string>, env: Option<string>,
                      searchApi: string -> Option<JS>, fetch: JS -> Option<JS>)
    returns (r: Response, requested: seq<JS>)
    ensures searchApi(SearchQuery(q)).None? ==> r == Response(500, SearchError) && requested == []
    ensures searchApi(SearchQuery(q)).Some? ==>
      var items := Slice(SearchItems(searchApi(SearchQuery(q)).value), EffectiveLimit(env));
      && r.status == 200
      && r.body.Obj? && |r.body.fields| == 1 && r.body.fields[0].0 == "wines"
      && r.body.fields[0].1.Arr?
      && |r.body.fields[0].1.items| == |items|
      && (forall i :: 0 <= i < |items| ==> r.body.fields[0].1.items[i] == ProcessItem(items[i], fetch))
      && requested == RequestedIds(items)
  {
    var search := searchApi(SearchQuery(q));
    if search.None? {
      return Response(500, SearchError), [];
    }
    var items := Slice(SearchItems(search.value), EffectiveLimit(env));
    var wines := ProcessItems(items, fetch);
    requested := DetailRequests(items);
    r := Response(200, Obj([("wines", Arr(wines))]));
  }

  /** No more detail requests are made than the limit allows. */
  lemma RequestsBounded(search: JS, env: Option<string>)
    ensures |RequestedIds(Slice(SearchItems(search), EffectiveLimit(env)))| <= EffectiveLimit(env)
  {
  }
}

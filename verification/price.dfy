/** `normalizePrice`: one canonical, sparse price record out of whatever
    shape the upstream price takes. */
module Price {

  import opened Json
  import opened Fields

  /** Alias lists, in priority order, for the four canonical price fields. */
  const AmountKeys: seq<string> :=
    ["amount", "value", "price", "priceValue", "min", "min_price", "max", "max_price"]
  const CurrencyKeys: seq<string> := ["currency", "currency_code", "currencyCode", "symbol"]
  const DisplayKeys: seq<string> := ["display", "formatted", "text", "label"]
  const BottleSizeKeys: seq<string> := ["volume", "bottle_size_ml", "bottleSize", "volume_ml", "ml"]

  /** `firstNonEmpty(node[keys[0]], node[keys[1]], …)`. */
  function Pick(node: JS, keys: seq<string>): JS {
    FirstNonEmpty(Aliases(node, keys))
  }

  /** The canonical price field names, in the order they are emitted,
      and the alias list each one reads. */
  const PriceFields: seq<string> := ["amount", "currency", "display", "bottleSizeMl"]
  const AliasLists: seq<seq<string>> := [AmountKeys, CurrencyKeys, DisplayKeys, BottleSizeKeys]

  /** The four canonical fields before the nullish ones are dropped. */
  function PriceEntries(c: JS): (fs: seq<(string, JS)>)
    ensures |fs| == |PriceFields|
    ensures forall i :: 0 <= i < |fs| ==> fs[i] == (PriceFields[i], Pick(c, AliasLists[i]))
    ensures DistinctKeys(fs)
  {
    PriceFieldsDistinct();
    seq(|PriceFields|, i requires 0 <= i < |PriceFields| => (PriceFields[i], Pick(c, AliasLists[i])))
  }

  lemma PriceFieldsDistinct()
    ensures forall i, j :: 0 <= i < j < |PriceFields| ==> PriceFields[i] != PriceFields[j]
  {
  }

  /** `normalizePrice(candidate)`. A falsy candidate gives `null`; a
      non-zero number `n` gives `{ amount: n }`; a non-empty string `s`
      gives `{ display: s }`; an array or object gives the record of those
      canonical fields whose alias lookup found a present value (possibly
      `{}`); `true` gives `null`. */
  function NormalizePrice(c: JS): (r: JS)
    ensures r.Null? <==> !Truthy(c) || c.Bool?
    ensures c.Num? && Truthy(c) ==> r == Obj([("amount", c)])
    ensures c.Str? && Truthy(c) ==> r == Obj([("display", c)])
    ensures c.Arr? || c.Obj? ==> r.Obj?
    ensures r.Obj? ==> DistinctKeys(r.fields)
    ensures r.Obj? ==> forall i :: 0 <= i < |r.fields| ==>
      r.fields[i].0 in PriceFields && Present(r.fields[i].1)
  {
    if !Truthy(c) then Null
    else
      match c
      case Num(_) => Obj([("amount", c)])
      case Str(_) => Obj([("display", c)])
      case Arr(_) => Obj(Compact(PriceEntries(c)))
      case Obj(_) => Obj(Compact(PriceEntries(c)))
      case _ => Null
  }

  /** For an array or object candidate, each canonical field holds the
      first present value among its aliases, and is absent exactly when no
      alias is present. */
  lemma NormalizePriceObjectFields(c: JS)
    requires c.Arr? || c.Obj?
    ensures Get(NormalizePrice(c), "amount") == Pick(c, AmountKeys)
    ensures Get(NormalizePrice(c), "currency") == Pick(c, CurrencyKeys)
    ensures Get(NormalizePrice(c), "display") == Pick(c, DisplayKeys)
    ensures Get(NormalizePrice(c), "bottleSizeMl") == Pick(c, BottleSizeKeys)
  {
    var fs := PriceEntries(c);
    CompactedPriceField(c, 0);
    CompactedPriceField(c, 1);
    CompactedPriceField(c, 2);
    CompactedPriceField(c, 3);
  }

  lemma CompactedPriceField(c: JS, i: nat)
    requires c.Arr? || c.Obj?
    requires i < 4
    ensures Lookup(Compact(PriceEntries(c)), PriceFields[i]) == PriceEntries(c)[i].1
  {
    var fs := PriceEntries(c);
    var k := PriceFields[i];
    LookupCompact(fs, k);
    assert fs[i].0 == k;
    LookupAt(fs, i, k);
    FirstNonEmptyIsPresentOrUndefined(Aliases(c, AliasLists[i]));
  }

  /** Alias priority: when `keys[i]` is the first alias holding a present
      value, that value is the one chosen. */
  lemma PickFirstPresentAlias(c: JS, keys: seq<string>, i: nat)
    requires i < |keys| && Present(Get(c, keys[i]))
    requires forall j :: 0 <= j < i ==> !Present(Get(c, keys[j]))
    ensures Pick(c, keys) == Get(c, keys[i])
  {
    var vs := Aliases(c, keys);
    var r := Pick(c, keys);
    var k :| FirstPresentAt(vs, k) && vs[k] == r;
    assert !(k < i) && !(i < k);
  }

  /** An array, or an object with none of the known aliases, normalises to
      `{}` and not to `null`. */
  lemma NormalizePriceNoAlias(c: JS)
    requires c.Arr? || c.Obj?
    requires forall k :: k in AmountKeys ==> !Present(Get(c, k))
    requires forall k :: k in CurrencyKeys ==> !Present(Get(c, k))
    requires forall k :: k in DisplayKeys ==> !Present(Get(c, k))
    requires forall k :: k in BottleSizeKeys ==> !Present(Get(c, k))
    ensures NormalizePrice(c) == Obj([])
  {
    PriceTables();
    PickAbsent(c, AmountKeys);
    PickAbsent(c, CurrencyKeys);
    PickAbsent(c, DisplayKeys);
    PickAbsent(c, BottleSizeKeys);
    var fs := PriceEntries(c);
    assert forall i :: 0 <= i < |fs| ==> Nullish(fs[i].1);
    CompactKeepsPresent(fs);
  }

  /** No alias holds a present value: nothing is picked. */
  lemma PickAbsent(c: JS, keys: seq<string>)
    requires forall k :: k in keys ==> !Present(Get(c, k))
    ensures Pick(c, keys) == Undefined
  {
    var vs := Aliases(c, keys);
    assert forall i :: 0 <= i < |vs| ==> keys[i] in keys;
  }

  /** `normalizePrice({ min_price: 10, currency: "USD" })` is
      `{ amount: 10, currency: "USD" }`. */
  lemma NormalizePriceExample()
    ensures NormalizePrice(Obj([("min_price", Num(10)), ("currency", Str("USD"))]))
         == Obj([("amount", Num(10)), ("currency", Str("USD"))])
  {
    var fs := PriceEntries(Obj([("min_price", Num(10)), ("currency", Str("USD"))]));
    ExampleEntries();
    CompactKeepsFirstTwo(fs);
  }

  lemma ExampleEntries()
    ensures var fs := PriceEntries(Obj([("min_price", Num(10)), ("currency", Str("USD"))]));
      && |fs| == 4
      && fs[0] == ("amount", Num(10)) && fs[1] == ("currency", Str("USD"))
      && fs[2].1 == Undefined && fs[3].1 == Undefined
  {
    ExampleAmount();
    ExampleCurrency();
    ExampleDisplay();
    ExampleBottleSize();
    PriceTables();
  }

  lemma PriceTables()
    ensures PriceFields[0] == "amount" && PriceFields[1] == "currency"
    ensures AliasLists[0] == AmountKeys && AliasLists[1] == CurrencyKeys
    ensures AliasLists[2] == DisplayKeys && AliasLists[3] == BottleSizeKeys
  {
  }

  /** Four properties of which only the first two are present compact to
      those two. */
  lemma CompactKeepsFirstTwo(fs: seq<(string, JS)>)
    requires |fs| == 4 && !Nullish(fs[0].1) && !Nullish(fs[1].1)
    requires Nullish(fs[2].1) && Nullish(fs[3].1)
    ensures Compact(fs) == [fs[0], fs[1]]
  {
    var t := fs[2..];
    assert forall i :: 0 <= i < |t| ==> Nullish(t[i].1);
    CompactKeepsPresent(t);
    assert fs[1..][1..] == t;
    assert Compact(fs[1..]) == [fs[1]] + Compact(t);
  }

  lemma ExampleAmount()
    ensures Pick(Obj([("min_price", Num(10)), ("currency", Str("USD"))]), AmountKeys) == Num(10)
  {
    var c := Obj([("min_price", Num(10)), ("currency", Str("USD"))]);
    ExampleAbsent("amount");
    ExampleAbsent("value");
    ExampleAbsent("price");
    ExampleAbsent("priceValue");
    ExampleAbsent("min");
    PickFirstPresentAlias(c, AmountKeys, 5);
  }

  lemma ExampleCurrency()
    ensures Pick(Obj([("min_price", Num(10)), ("currency", Str("USD"))]), CurrencyKeys) == Str("USD")
  {
    var c := Obj([("min_price", Num(10)), ("currency", Str("USD"))]);
    PickFirstPresentAlias(c, CurrencyKeys, 0);
  }

  lemma ExampleDisplay()
    ensures Pick(Obj([("min_price", Num(10)), ("currency", Str("USD"))]), DisplayKeys) == Undefined
  {
    ExampleAbsent("display");
    ExampleAbsent("formatted");
    ExampleAbsent("text");
    ExampleAbsent("label");
  }

  lemma ExampleBottleSize()
    ensures Pick(Obj([("min_price", Num(10)), ("currency", Str("USD"))]), BottleSizeKeys) == Undefined
  {
    ExampleAbsent("volume");
    ExampleAbsent("bottle_size_ml");
    ExampleAbsent("bottleSize");
    ExampleAbsent("volume_ml");
    ExampleAbsent("ml");
  }

  lemma ExampleAbsent(k: string)
    requires k != "min_price" && k != "currency"
    ensures Get(Obj([("min_price", Num(10)), ("currency", Str("USD"))]), k) == Undefined
  {
    var fs := [("min_price", Num(10)), ("currency", Str("USD"))];
    assert Lookup(fs[1..][1..], k) == Undefined by { assert fs[1..][1..] == []; }
    assert Lookup(fs[1..], k) == Undefined;
  }
}

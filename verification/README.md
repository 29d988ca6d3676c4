# Wine search: payload normaliser and display formatters

This project is a Dafny model of two pure parts of a small wine-search application.

The first part is the backend normaliser. The upstream wine API answers
with JSON of unpredictable shape. The normaliser turns it into canonical
records. It covers:
- `firstNonEmpty`, `ensureArray`, `normalizePrice`, `collectImages` and
  `normalizeWineDetails`;
- the search handler, which:
  - reads the item list and applies the configured limit;
  - turns each `{ name: id }` item into a wine record;
  - fetches the item's details when it has an id;
  - falls back to a stub record when that request fails.

The second part is the frontend formatters. They turn a normalised record
into display text: price, location, rating, vintage and bottle size.

JavaScript values are the datatype `Json.JS`. An object is an ordered list
of properties in insertion order. `Json.OwnOrder` gives the order that
`Object.values` and `Object.entries` observe: array-index keys first, in
ascending numeric order, then the other keys in insertion order. The
network calls are oracle parameters:
- `searchApi(name)` is the search response body, or `None` when the request threw;
- `fetch(id)` is the detail payload, or `None` when that request threw.

`Promise.all` over the items is an order-preserving sequential map. Each
record depends only on its own fetch (`Search.ProcessItemUsesOwnFetchOnly`),
so running the requests one after another gives the same records.

Modules, in dependency order:
- `Wrappers`: `Option`.
- `Text`: ECMAScript white space, `trim`, decimal text of integers, `join` and `Number.parseInt`.
- `Json`: the value datatype, property access, truthiness, `??`, the
  drop-nullish-properties idiom and own-property order.
- `Fields`: `firstNonEmpty` and `ensureArray`.
- `Images`: `collectImages`.
- `Price`: `normalizePrice`.
- `Details`: `normalizeWineDetails`.
- `Search`: the limit, per-item processing and the search handler.
- `Format`: the five formatters, with an exact model of `Number.prototype.toFixed`.

Behaviour of the code worth knowing:
- A record with no image has no `imageUrl` property at all, not `imageUrl: null`.
  The `null` that `collectImages` returns is removed by the final filter.
- When no price candidate exists, `price` is `{}`, because of the `?? {}` fallback.
  A chosen candidate of `0`, `false` or `true` drops `price` altogether.
- A price object can come out as, for example, `{ currency }` alone. It is not required to hold an amount.

## Model

| member | source | states |
|---|---|---|
| Text.Trim | frontend/utils/format.ts:30 | the trimmed text has no white space at either end, is no longer than the input, and is empty exactly when the input is blank |
| Text.TrimOfTrimmed | frontend/utils/format.ts:65 | trimming a text with no white space at its ends returns it unchanged |
| Text.TrimPadded | frontend/utils/format.ts:65 | white space added on both sides of a trimmed, non-empty text is exactly what trimming removes |
| Text.TrimEmptyIffBlank | backend/server.js:69 | `value.trim()` is falsy exactly when the value consists of white space only |
| Text.IntToStringRoundTrip | frontend/utils/format.ts:62 | the decimal text of any integer, as a template literal writes it, reads back as that integer |
| Text.NatToStringRoundTrip | frontend/utils/format.ts:53 | the digits written for a count denote that count |
| Text.ParseIntPrefixOfIntToString | backend/server.js:17 | `parseInt` reads an integer back from its decimal text, whatever leading white space precedes it and whatever non-digit text follows it |
| Text.ParseIntPrefixSkipsBlank | backend/server.js:17 | `parseInt` ignores leading white space |
| Text.ParseIntPrefixNoDigits | backend/server.js:17 | a text without any decimal digit parses to NaN |
| Text.ParseSignedMinus | backend/server.js:17 | after a minus sign, the longest digit run gives the negated value, and no digit run gives NaN |
| Text.DigitPrefix | backend/server.js:17 | the digit run `parseInt` reads is a prefix of the text, all digits, and is followed by a non-digit or by the end |
| Json.LookupAt | backend/server.js:101 | the value read for a key is the one bound at that key's first position |
| Json.LookupFound | backend/server.js:101 | a value read for a key is bound to that key in the object, and a key the object lacks reads as undefined |
| Json.Compact | backend/server.js:159 | filtering the entries keeps only properties whose value is not undefined or null, never adds a property, and keeps distinct keys distinct |
| Json.CompactKeepsPresent | backend/server.js:159 | every property with a non-nullish value survives the filter, and an object of nullish values filters to nothing |
| Json.LookupCompact | backend/server.js:159 | after the filter, a key reads as undefined when its value was nullish and as its old value otherwise |
| Json.SortByIndex | backend/server.js:86 | the array-index properties are put in ascending numeric order without losing or adding any |
| Json.OwnOrderPermutes | backend/server.js:86 | own-property order is a permutation of the object's properties |
| Json.OwnOrderShape | backend/server.js:86 | own-property order lists the array-index keys first, in ascending numeric order, and every other key after them |
| Json.OwnOrderOfNamed | backend/server.js:86 | with no array-index keys, own-property order is insertion order |
| Json.OwnOrderFirstIndex | backend/server.js:193 | once any key is an array index, the first entry has an array-index key no greater than it |
| Fields.FirstNonEmpty | backend/server.js:19 | the result is undefined exactly when no argument is present (not undefined, null or `""`); otherwise it is the argument at the first present position |
| Fields.FirstNonEmptyAt | backend/server.js:19 | when position j holds the first present argument, that argument is returned |
| Fields.FirstNonEmptyAppend | backend/server.js:19 | choosing among `a` then `b` gives `a`'s choice, and `b`'s only when nothing in `a` is present |
| Fields.FirstNonEmptyIsPresentOrUndefined | backend/server.js:19 | the result is never null or `""` |
| Fields.FirstNonEmptyExamples | backend/server.js:19 | `(undefined, null, "", "x", "y")` gives `"x"`; `(null, 0, "x")` gives `0`, so zero counts as present; `(undefined, null, "")` gives undefined |
| Fields.FindSeparator | backend/server.js:31 | finds the leftmost match of `\s*,\s*`: none exactly when no position starts a match, and no match starts before the one found |
| Fields.SplitOnCommas | backend/server.js:31 | splitting always yields at least one piece, and no piece holds a comma |
| Fields.EnsureArray | backend/server.js:21-35 | an array is returned as is; undefined and null give `[]`; any other non-string value is wrapped as a singleton |
| Fields.EnsureArrayOfText | backend/server.js:30-31 | every element of a split string is a non-empty string without a comma |
| Fields.EnsureArrayJoinRoundTrip | backend/server.js:30-31 | items that are non-empty, comma-free and trimmed, joined with `", "`, split back into exactly those items |
| Fields.SplitJoin | backend/server.js:31 | splitting the `", "`-joined text of such items on `\s*,\s*` gives back the items |
| Fields.EnsureArrayExample | backend/server.js:30-31 | `"a, b ,c"` gives `["a", "b", "c"]` |
| Images.Explore | backend/server.js:73-88 | exploring collects only non-empty trimmed strings, and a falsy value collects nothing |
| Images.Leaf | backend/server.js:68-72 | a blank string pushes nothing; any other string pushes exactly its trimmed text |
| Images.ExploreListIsConcat | backend/server.js:82-86 | visiting a list of values explores each value once, in order, concatenating what each contributes |
| Images.ExploreArrayAppend | backend/server.js:81-83 | an array is explored element by element, in index order |
| Images.ExploreObjectAsValues | backend/server.js:85-87 | an object is explored as the array of its values in own-property order |
| Images.ExploreUsableStrings | backend/server.js:81-83 | an array of non-empty trimmed strings is collected exactly as it stands |
| Images.Dedup | backend/server.js:93 | the spread of a `Set` has no duplicates, holds exactly the input's strings, and keeps them in first-seen order |
| Images.DedupOfDistinct | backend/server.js:93 | a list without duplicates is left unchanged |
| Images.CollectImages | backend/server.js:66-98 | the gallery is duplicate-free, holds non-empty trimmed strings, holds exactly the strings found, in first-seen order; `main` is its first entry, or null when it is empty |
| Images.ImageShadowsAliases | backend/server.js:89 | when `image` is not nullish, `image_url` and `imageUrl` are never looked at |
| Images.CollectImagesExample | backend/server.js:89-97 | `{ images: ["a", "a", "b"] }` gives main `"a"` and gallery `["a", "b"]` |
| Images.ImagesOnly | backend/server.js:89-92 | a payload holding only an `images` array of trimmed non-empty strings yields exactly those strings, in order |
| Price.NormalizePrice | backend/server.js:37-64 | the result is null exactly for a falsy candidate or `true`; a truthy number `n` gives `{ amount: n }`; a non-empty string `s` gives `{ display: s }`; an array or object gives an object of distinct canonical keys with present values |
| Price.NormalizePriceObjectFields | backend/server.js:47-61 | for an array or object, each canonical field reads as the first present value among its aliases, and is absent when none is present |
| Price.PickFirstPresentAlias | backend/server.js:48-57 | alias priority: the first alias holding a present value is the one chosen |
| Price.NormalizePriceNoAlias | backend/server.js:47-61 | an array or object with none of the known aliases gives `{}`, not null |
| Price.NormalizePriceExample | backend/server.js:47-61 | `{ min_price: 10, currency: "USD" }` gives `{ amount: 10, currency: "USD" }` |
| Details.LocateNodes | backend/server.js:101-103 | the root is `data` when that is not nullish, else the payload itself, else `{}`; the wine node is the first non-nullish of `wine`, `wine_information`, `wineInformation`, else `{}`; the metadata node is `metadata`, else `{}`; none of them is nullish |
| Details.FindFlagged | backend/server.js:110 | the search finds nothing exactly when no entry is flagged, and otherwise returns the first flagged entry |
| Details.PrimaryVintageTieBreak | backend/server.js:104-113 | the primary vintage is the first flagged entry; failing that an object-typed root vintage, then an object-typed wine-node vintage, then the first entry |
| Details.PriceCandidate | backend/server.js:114-122 | the price candidate is the first present of the six candidates in the order primary vintage, root, wine node (`price`, then the first of `prices`), and `{}` when none is present |
| Details.Nullable3 | backend/server.js:151-152 | `a ?? b ?? c ?? null` is nullish exactly when all three are, in which case it is null, and otherwise the first non-nullish |
| Details.NormalizeWineDetails | backend/server.js:138-159 | the result is an object whose keys are distinct canonical field names and whose values are never undefined or null |
| Details.OutputByName | backend/server.js:138-159 | each of the nineteen output properties holds the value computed for it when that is not nullish and is absent otherwise |
| Details.RecordOutput | backend/server.js:159 | for any record, the filtered object reads each field as its value, or as absent when the value is nullish |
| Details.ListFieldsAlwaysArrays | backend/server.js:143-150 | `gallery`, `grapes` and `foodPairings` are always present, and always arrays |
| Details.ImageUrlMirrorsGallery | backend/server.js:130-143 | the gallery is the collected image list; `imageUrl` is absent when that list is empty and is its first entry otherwise |
| Details.FirstNonEmptyThenFallback | backend/server.js:139-140 | a fallback argument placed last is chosen only when no upstream argument is present |
| Details.IdFallback | backend/server.js:139 | the id is the first present upstream id alias, and the caller's fallback id only when there is none |
| Details.NameFallback | backend/server.js:140 | the name is the first present upstream name alias, and the caller's fallback name only when there is none |
| Details.PriceWithoutCandidate | backend/server.js:114-122 | with no price candidate anywhere, `price` is `{}` |
| Details.PriceDroppedIffFalsyCandidate | backend/server.js:144 | `price` is absent exactly when the chosen candidate is falsy or `true`, and otherwise is the normalised candidate |
| Details.RatingOutput | backend/server.js:151 | `rating` is the ratings node's `average`, else its `score`, else its `value`, and is absent when all three are nullish |
| Details.RatingCountOutput | backend/server.js:152 | `ratingCount` is the node's `count`, else `reviews`, else `total`, and is absent when all three are nullish |
| Details.RootWineVintagePriority | backend/server.js:125-129 | a descriptive field comes from the root, else the wine node, else the primary vintage, else is undefined |
| Details.DescriptiveFieldsOutput | backend/server.js:141-157 | description, alcohol, classification, country, region, subregion and appellation each follow the root, then wine node, then vintage priority |
| Details.VintageYearFirst | backend/server.js:145 | a present `year` on the primary vintage is the output `vintage` |
| Search.EffectiveLimit | backend/server.js:188 | the limit is always positive and below the least integer that overflows a double to `Infinity`; unless it is the fallback 6 it is what `parseInt` reads from the configured text (or `"6"` when unset) |
| Search.ConfiguredLimit | backend/server.js:17 | a configured positive integer below 2^1024 - 2^970, with leading white space and a non-digit tail allowed, is used as the limit |
| Search.OverflowingLimit | backend/server.js:188 | a configured integer of 2^1024 - 2^970 or more, which `parseInt` reads as `Infinity`, falls back to the limit 6 |
| Search.UnsetLimit | backend/server.js:17 | with no configuration the limit is 6 |
| Search.NonNumericLimit | backend/server.js:188 | a configured text holding no digit falls back to 6 |
| Search.NonPositiveLimit | backend/server.js:188 | a configured zero or negative integer falls back to 6 |
| Search.Slice | backend/server.js:189 | the first `min(count, limit)` items, in their original order |
| Search.FirstEntry | backend/server.js:193 | an array yields its element 0 under key `"0"`; an object without index keys yields its first property; anything else, or an empty object, yields nothing |
| Search.FirstEntryPrefersIndexKeys | backend/server.js:193 | an object with an array-index key yields the entry with the least index key, wherever it was inserted |
| Search.ItemName | backend/server.js:196 | the name is never empty and never padded; it is the trimmed key when that is not blank and `"Vin sans nom"` otherwise |
| Search.ItemId | backend/server.js:197 | the id is never undefined, and is the entry's value whenever that is not nullish |
| Search.ProcessItem | backend/server.js:192-210 | a falsy id gives `{ name }`; a failed detail request gives `{ id, name }`; a successful one gives the normalised details with `{ id, name }` as the fallback |
| Search.EveryRecordNamed | backend/server.js:196-208 | every record has a name, and every record of an item with a truthy id has an id, whether or not its request failed |
| Search.NormalizedKeepsFallback | backend/server.js:205 | with a present fallback id and name, the normalised record has an id and a name whatever the payload holds |
| Search.ProcessItemUsesOwnFetchOnly | backend/server.js:203-209 | an item's record depends on the detail request for its own id only |
| Search.RequestedIds | backend/server.js:199-204 | detail requests are made only for truthy ids, at most one per item |
| Search.ProcessItems | backend/server.js:191-211 | one record per item, in item order, each the item's own record |
| Search.DetailRequests | backend/server.js:199-204 | the requests made are exactly the truthy ids, in item order |
| Search.HandleSearch | backend/server.js:173-217 | a failed search answers 500 with the error body and requests nothing; otherwise it answers 200 with `{ wines }` holding one record per kept item, in order, and requests exactly the kept items' truthy ids |
| Search.RequestsBounded | backend/server.js:188-204 | no more detail requests are made than the limit allows |
| Format.FixedDigits | frontend/utils/format.ts:50 | the digits `n` that `toFixed(f)` writes lie within half a unit of `x * 10^f`, and a tie goes to the larger `n` |
| Format.PadDigits | frontend/utils/format.ts:80 | the fraction is written with exactly `f` digits that denote its value, zero-padded on the left |
| Format.DecimalTextRoundTrip | frontend/utils/format.ts:80 | the text written for `n / 10^f` reads back as exactly `n` with `f` decimals |
| Format.ToFixedValue | frontend/utils/format.ts:50 | `x.toFixed(f)` is a decimal text with exactly `f` decimals that denotes `x` to within half a unit in the last place |
| Format.ToFixedNonNegative | frontend/utils/format.ts:80 | for `x >= 0` the text starts with a digit, so it has no sign, and denotes the rounded digits |
| Format.ToFixedNegative | frontend/utils/format.ts:50 | for `x < 0` the text is `-` followed by a digit, so a value that rounds to zero still shows its sign, and it reads back as minus the rounded digits of `-x` |
| Format.CurrencyOf | frontend/utils/format.ts:10 | the currency is never empty; it is the price's own when that is non-empty, and `"EUR"` otherwise |
| Format.FormatPrice | frontend/utils/format.ts:3-25 | no price gives nothing; a non-empty display is returned verbatim; otherwise text is produced exactly when there is an amount |
| Format.PriceFromAmount | frontend/utils/format.ts:9-21 | with an amount and no display, the locale formatter's text is used when it succeeds; when it throws, the fallback text starts with the amount, which reads back by `parseInt` |
| Format.PriceFallback | frontend/utils/format.ts:18-20 | when `Intl` throws, the text is the amount, a space and the currency when the currency has no white space at either end, `"EUR"` by default, and the amount alone when the currency is blank |
| Format.FallbackPriceText | frontend/utils/format.ts:20 | trimming `${amount} ${currency}` keeps the whole text for a non-empty trimmed currency and leaves only the amount for a blank one |
| Format.FallbackPriceReadsBack | frontend/utils/format.ts:20 | the fallback text, trimmed, reads back by `parseInt` as the amount whatever the currency text |
| Format.KeepOne | frontend/utils/format.ts:29-30 | one field survives the filter exactly when it is present and not blank, and then as non-empty trimmed text |
| Format.KeepNonBlankClean | frontend/utils/format.ts:28-30 | every kept part is non-empty and has no white space at either end |
| Format.KeepNonBlankEmpty | frontend/utils/format.ts:28-32 | no part is kept exactly when every field is missing or blank |
| Format.FormatLocation | frontend/utils/format.ts:27-37 | nothing exactly when all four location fields are missing or blank; otherwise a non-empty text with no white space at either end |
| Format.KeptFrom | frontend/utils/format.ts:28-30 | every position the filter keeps is in range and is one whose field passes the non-blank test |
| Format.KeptFromIncreasing | frontend/utils/format.ts:28-30 | the kept fields stay in field order |
| Format.KeptFromComplete | frontend/utils/format.ts:28-30 | no present, non-blank field is dropped |
| Format.KeepNonBlankIsKeptTexts | frontend/utils/format.ts:28-30 | the filtered list is exactly the trimmed texts of the non-blank fields, taken at the kept positions |
| Format.LocationText | frontend/utils/format.ts:27-37 | with no non-blank field the result is nothing; otherwise it is the trimmed non-blank fields, in the order appellation, subregion, region, country, joined with `" · "` |
| Format.LocationStartsWithFirst | frontend/utils/format.ts:28-36 | the location text starts with the first non-blank field in the order appellation, subregion, region, country, trimmed |
| Format.LocationOfOne | frontend/utils/format.ts:28-36 | a single non-blank field is shown trimmed, with no separator |
| Format.FormatRating | frontend/utils/format.ts:39-48 | nothing exactly when the rating is missing, `""` or not a finite number |
| Format.RatingFullText | frontend/utils/format.ts:50-56 | the text is the rating to one decimal followed by `"/5"`; for a positive count it continues with `" · "`, a text that `parseInt` reads as the count, and `" avis"` |
| Format.RatingShape | frontend/utils/format.ts:50-56 | the text starts with the rating to one decimal, and ends with `" avis"` exactly when the count is a positive number |
| Format.RatingTextAsNumber | frontend/utils/format.ts:44 | a rating given as text shows the same as the number `parseFloat` reads from it |
| Format.FormatVintage | frontend/utils/format.ts:59-73 | nothing exactly for a missing or zero vintage, or blank text; otherwise a non-empty text with no white space at either end; a non-blank text shows as `"Millésime "` and its trimmed text when that is four digits, and as its trimmed text otherwise |
| Format.VintageNumberRoundTrip | frontend/utils/format.ts:61-62 | a non-zero numeric vintage shows as `"Millésime "` followed by text that reads back as the year |
| Format.VintageTextAgreesWithNumber | frontend/utils/format.ts:68-69 | a four-digit year shows the same whether it arrives as a number or as text |
| Format.VintageIgnoresPadding | frontend/utils/format.ts:65 | white space around a vintage text does not change what is shown |
| Format.VintageTextByTrim | frontend/utils/format.ts:64-72 | a non-empty vintage text shows exactly as its trimmed text would |
| Format.FormatBottleSize | frontend/utils/format.ts:75-81 | nothing exactly when the size is missing or zero; otherwise a text ending in `" L"` |
| Format.BottleSizeValue | frontend/utils/format.ts:77-80 | the number shown is the size in litres, with two decimals below one litre and one decimal from one litre up, correct to within half a unit in the last place |
| Format.BottleSizeExample750 | frontend/utils/format.ts:80 | 750 ml shows as `"0.75 L"` |
| Format.BottleSizeExample1500 | frontend/utils/format.ts:80 | 1500 ml shows as `"1.5 L"` |
| Format.RatingExample | frontend/utils/format.ts:50-53 | a rating of 4 with 12 reviews shows as `"4.0/5 · 12 avis"` |

## Left out

- HTTP plumbing: Express routing, CORS, body parsing, `dotenv`, the details route and `console.error` logging. None of it affects the records.
- The upstream requests. The search request and `fetchWineDetails` are the oracle parameters `searchApi` and `fetch`. The request headers and API key are not modelled.
- `Promise.all` concurrency. It is a sequential, order-preserving map. The requests are independent, so the records are the same.
- IntToStringRoundTrip: holds for every integer because the model writes every integer in plain digits. A template literal writes a Number of 10^21 or more in magnitude in exponent form, which is not modelled.
- Numbers: integers are unbounded and exact. There is no rounding to doubles from 2^53, no exponent text from 10^21, and no `Infinity` except where the search limit checks for it. `Json.JS` numbers are integers. Fractional amounts, ratings and sizes in the payload, and `NaN`, are not modelled.
  The normaliser only copies numbers and tests them for truthiness. Integers cover every branch except `NaN`, which would be falsy like `0`.
- Search.EffectiveLimit: `WINE_SEARCH_LIMIT` is read as an optional text. `parseInt` gives a double; the model keeps the integer exact below 2^1024 - 2^970 instead of rounding it from 2^53 up. The slice cannot tell the two apart, because any such value exceeds every array length. From 2^1024 - 2^970 the double is `Infinity`, which `Number.isFinite` rejects, and the model falls back to 6 as the code does.
- The no-op statement `+301 - 44;` at the top of the server file.
- Format.FormatPrice: `Intl.NumberFormat` currency rendering is the oracle `intl(amount, currency)`, with `None` standing for a thrown error. Only what the code does around it is modelled.
- Format.FormatRating: `Number.parseFloat` of a text rating is the oracle `parseFloat`. It returns `None` for a result that is not finite. Numeric ratings are exact reals, so they are always finite.
- Format.ToFixed: the value is an exact real, not a double. `toFixed` in the source rounds the double nearest the value. The model rounds the exact value, with ties going up. For values of 10^21 or more, `toFixed` switches to exponent notation; that is not modelled.
- Format.FormatBottleSize: `bottleSizeMl / 1000` is exact real division here. In the source, division by 1000 is in doubles. At a rounding tie the two can differ: 1150 ml has a double just below 1.15, so it shows as `"1.1 L"`, while the exact value rounds to `"1.2 L"`. Non-integral millilitre sizes are not modelled.
- Format: the frontend types are mirrored only as far as the formatters read them. Amounts, counts and numeric vintages are integers. A numeric rating is a real.
- Json.Lookup: JSON objects have distinct keys. Where a list holds the same key twice, the first binding is the one read. For `JSON.parse` it would be the last. No object the normaliser builds has a duplicate key, and `Details.NormalizeWineDetails` states so.
- The frontend pages and their React state, which only display these texts.

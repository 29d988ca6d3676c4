/** `normalizeWineDetails`: projects an upstream wine-detail payload of
    unpredictable shape onto the canonical, sparse wine record. */
module Details {

  import opened Json
  import opened Fields
  import opened Images
  import opened Price

  /** The three nodes the payload is read from: the root (the `data`
      envelope when there is one), the wine sub-node and the metadata
      sub-node. None of them is ever nullish. */
  datatype Nodes = Nodes(root: JS, wine: JS, meta: JS)

  function LocateNodes(payload: JS): (n: Nodes)
    ensures !Nullish(n.root) && !Nullish(n.wine) && !Nullish(n.meta)
    ensures !Nullish(Get(payload, "data")) ==> n.root == Get(payload, "data")
    ensures Nullish(Get(payload, "data")) && !Nullish(payload) ==> n.root == payload
    ensures Nullish(payload) ==> n.root == Obj([])
    ensures !Nullish(Get(n.root, "wine")) ==> n.wine == Get(n.root, "wine")
    ensures Nullish(Get(n.root, "wine")) && !Nullish(Get(n.root, "wine_information")) ==>
      n.wine == Get(n.root, "wine_information")
    ensures Nullish(Get(n.root, "wine")) && Nullish(Get(n.root, "wine_information")) && !Nullish(Get(n.root, "wineInformation")) ==>
      n.wine == Get(n.root, "wineInformation")
    ensures Nullish(Get(n.root, "wine")) && Nullish(Get(n.root, "wine_information")) && Nullish(Get(n.root, "wineInformation")) ==>
      n.wine == Obj([])
    ensures !Nullish(Get(n.root, "metadata")) ==> n.meta == Get(n.root, "metadata")
    ensures Nullish(Get(n.root, "metadata")) ==> n.meta == Obj([])
  {
    var root := Coalesce(Coalesce(Get(payload, "data"), payload), Obj([]));
    var wine := Coalesce(Coalesce(Coalesce(Get(root, "wine"), Get(root, "wine_information")), Get(root, "wineInformation")), Obj([]));
    var meta := Coalesce(Get(root, "metadata"), Obj([]));
    Nodes(root, wine, meta)
  }

  /** `Array.isArray(v) ? v : []`. */
  function ArrayItems(v: JS): seq<JS> {
    if v.Arr? then v.items else []
  }

  /** The vintage entries of root, wine node and metadata, concatenated in
      that order. */
  function Vintages(n: Nodes): seq<JS> {
    ArrayItems(Get(n.root, "vintages")) + ArrayItems(Get(n.wine, "vintages")) + ArrayItems(Get(n.meta, "vintages"))
  }

  /** `entry?.is_main || entry?.isMain || entry?.primary`. */
  predicate Flagged(entry: JS) {
    Truthy(Get(entry, "is_main")) || Truthy(Get(entry, "isMain")) || Truthy(Get(entry, "primary"))
  }

  /** `vs[i]` is the first flagged entry. */
  predicate FirstFlaggedAt(vs: seq<JS>, i: int) {
    0 <= i < |vs| && Flagged(vs[i]) && forall j :: 0 <= j < i ==> !Flagged(vs[j])
  }

  /** `vs.find(Flagged)`: the first flagged entry, or `undefined`. */
  function FindFlagged(vs: seq<JS>): (r: JS)
    ensures r == Undefined <==> forall i :: 0 <= i < |vs| ==> !Flagged(vs[i])
    ensures r != Undefined ==> exists i :: FirstFlaggedAt(vs, i) && vs[i] == r
  {
    if |vs| == 0 then Undefined
    else if Flagged(vs[0]) then vs[0]
    else
      var r := FindFlagged(vs[1..]);
      assert forall i :: 1 <= i < |vs| ==> vs[i] == vs[1..][i - 1];
      assert r != Undefined ==> exists i :: FirstFlaggedAt(vs, i) && vs[i] == r by {
        if r != Undefined {
          var i :| FirstFlaggedAt(vs[1..], i) && vs[1..][i] == r;
          assert FirstFlaggedAt(vs, i + 1);
        }
      }
      r
  }

  /** `typeof v === "object" ? v : undefined`. */
  function ObjectOrUndefined(v: JS): JS {
    if IsObject(v) then v else Undefined
  }

  /** `vs[0]`, which is `undefined` for an empty list. */
  function Head(vs: seq<JS>): JS {
    if |vs| > 0 then vs[0] else Undefined
  }

  /** The primary vintage: the flagged entry, else an object-typed
      `root.vintage`, else an object-typed `wine.vintage`, else the first
      entry. */
  function PrimaryVintage(n: Nodes, vs: seq<JS>): JS {
    Coalesce(
      Coalesce(
        Coalesce(FindFlagged(vs), ObjectOrUndefined(Get(n.root, "vintage"))),
        ObjectOrUndefined(Get(n.wine, "vintage"))),
      Head(vs))
  }

  /** The tie-break order of the primary vintage, case by case. A `null`
      `vintage` is `typeof "object"` but nullish, so it is passed over like
      a missing one. */
  lemma PrimaryVintageTieBreak(n: Nodes, vs: seq<JS>)
    ensures forall i :: FirstFlaggedAt(vs, i) ==> PrimaryVintage(n, vs) == vs[i]
    ensures (forall i :: 0 <= i < |vs| ==> !Flagged(vs[i])) ==>
      var rv := Get(n.root, "vintage");
      var wv := Get(n.wine, "vintage");
      PrimaryVintage(n, vs)
        == if rv.Arr? || rv.Obj? then rv
           else if wv.Arr? || wv.Obj? then wv
           else Head(vs)
  {
    forall i | FirstFlaggedAt(vs, i)
      ensures PrimaryVintage(n, vs) == vs[i]
    {
      var r := FindFlagged(vs);
      assert r != Undefined;
      var k :| FirstFlaggedAt(vs, k) && vs[k] == r;
      assert !(k < i) && !(i < k);
      assert vs[i].Obj?;
    }
  }

  /** `Array.isArray(v) ? v[0] : undefined`. */
  function FirstOf(v: JS): JS {
    if v.Arr? then Head(v.items) else Undefined
  }

  /** The price candidates in priority order: primary vintage, root, wine
      node; for each, `price` and then the first of `prices`. */
  function PriceCandidates(n: Nodes, pv: JS): seq<JS> {
    [ Get(pv, "price"), FirstOf(Get(pv, "prices")),
      Get(n.root, "price"), FirstOf(Get(n.root, "prices")),
      Get(n.wine, "price"), FirstOf(Get(n.wine, "prices")) ]
  }

  /** `firstNonEmpty(...) ?? {}`: never nullish. */
  function PriceCandidate(n: Nodes, pv: JS): (c: JS)
    ensures (forall i :: 0 <= i < 6 ==> !Present(PriceCandidates(n, pv)[i])) ==> c == Obj([])
    ensures forall j :: FirstPresentAt(PriceCandidates(n, pv), j) ==> c == PriceCandidates(n, pv)[j]
    ensures !Nullish(c)
  {
    var cs := PriceCandidates(n, pv);
    forall j | FirstPresentAt(cs, j)
      ensures FirstNonEmpty(cs) == cs[j]
    {
      FirstNonEmptyAt(cs, j);
    }
    Coalesce(FirstNonEmpty(cs), Obj([]))
  }

  /** The ratings node: the first present among the primary vintage's,
      root's and wine node's `ratings`, then root's and wine node's `scores`. */
  function RatingNode(n: Nodes, pv: JS): JS {
    FirstNonEmpty([Get(pv, "ratings"), Get(n.root, "ratings"), Get(n.wine, "ratings"), Get(n.root, "scores"), Get(n.wine, "scores")])
  }

  /** `a ?? b ?? c ?? null`. */
  function Nullable3(a: JS, b: JS, c: JS): (r: JS)
    ensures Nullish(r) <==> Nullish(a) && Nullish(b) && Nullish(c)
    ensures !Nullish(a) ==> r == a
    ensures Nullish(a) && !Nullish(b) ==> r == b
    ensures Nullish(a) && Nullish(b) && !Nullish(c) ==> r == c
    ensures Nullish(r) ==> r == Null
  {
    Coalesce(Coalesce(Coalesce(a, b), c), Null)
  }

  /** `firstNonEmpty(root.k, wine.k, primaryVintage?.k)`. */
  function RootWineVintage(n: Nodes, pv: JS, k: string): JS {
    FirstNonEmpty([Get(n.root, k), Get(n.wine, k), Get(pv, k)])
  }

  /** The object handed to `collectImages`: each image field from the
      root, or from the wine node when the root's is nullish. */
  function ImagePayload(n: Nodes): JS {
    Obj([
      ("image", Coalesce(Get(n.root, "image"), Get(n.wine, "image"))),
      ("image_url", Coalesce(Get(n.root, "image_url"), Get(n.wine, "image_url"))),
      ("imageUrl", Coalesce(Get(n.root, "imageUrl"), Get(n.wine, "imageUrl"))),
      ("images", Coalesce(Get(n.root, "images"), Get(n.wine, "images"))),
      ("labels", Coalesce(Get(n.root, "labels"), Get(n.wine, "labels"))),
      ("photos", Coalesce(Get(n.root, "photos"), Get(n.wine, "photos")))
    ])
  }

  /** The upstream id candidates, before the caller's fallback. */
  function UpstreamIds(n: Nodes): seq<JS> {
    [Get(n.root, "wine_id"), Get(n.wine, "wine_id"), Get(n.wine, "id"), Get(n.root, "id")]
  }

  /** The upstream name candidates, before the caller's fallback. */
  function UpstreamNames(n: Nodes): seq<JS> {
    [Get(n.root, "wine_name"), Get(n.wine, "wine_name"), Get(n.wine, "name"), Get(n.root, "name")]
  }

  /** The `normalized` object literal, field by field, before nullish
      fields are dropped. */
  datatype Record = Record(
    id: JS, name: JS, description: JS, imageUrl: JS, gallery: JS, price: JS,
    vintage: JS, releaseDate: JS, grapes: JS, alcohol: JS, tastingNotes: JS,
    foodPairings: JS, rating: JS, ratingCount: JS, classification: JS,
    country: JS, region: JS, subregion: JS, appellation: JS)

  /** The record's property names, in the order the object literal lists them. */
  const FieldNames: seq<string> := [
    "id", "name", "description", "imageUrl", "gallery", "price", "vintage",
    "releaseDate", "grapes", "alcohol", "tastingNotes", "foodPairings",
    "rating", "ratingCount", "classification", "country", "region",
    "subregion", "appellation"]

  /** The value of the record's `i`-th field, in `FieldNames` order. */
  function FieldValue(w: Record, i: nat): JS
    requires i < 19
  {
    if i == 0 then w.id else if i == 1 then w.name
    else if i == 2 then w.description else if i == 3 then w.imageUrl
    else if i == 4 then w.gallery else if i == 5 then w.price
    else if i == 6 then w.vintage else if i == 7 then w.releaseDate
    else if i == 8 then w.grapes else if i == 9 then w.alcohol
    else if i == 10 then w.tastingNotes else if i == 11 then w.foodPairings
    else if i == 12 then w.rating else if i == 13 then w.ratingCount
    else if i == 14 then w.classification else if i == 15 then w.country
    else if i == 16 then w.region else if i == 17 then w.subregion
    else w.appellation
  }

  /** `Object.entries(normalized)`: one property per field name, in order. */
  function Entries(w: Record): (fs: seq<(string, JS)>)
    ensures |fs| == |FieldNames|
    ensures forall i :: 0 <= i < |fs| ==> fs[i] == (FieldNames[i], FieldValue(w, i))
    ensures DistinctKeys(fs)
  {
    FieldNamesDistinct();
    seq(|FieldNames|, i requires 0 <= i < |FieldNames| => (FieldNames[i], FieldValue(w, i)))
  }

  /** Every field of `normalized` as the source computes it. */
  function Project(payload: JS, fallback: JS): Record {
    var n := LocateNodes(payload);
    var vs := Vintages(n);
    var pv := PrimaryVintage(n, vs);
    var rn := RatingNode(n, pv);
    var images := CollectImages(ImagePayload(n));
    Record(
      id := FirstNonEmpty(UpstreamIds(n) + [Get(fallback, "id")]),
      name := FirstNonEmpty(UpstreamNames(n) + [Get(fallback, "name")]),
      description := RootWineVintage(n, pv, "description"),
      imageUrl := images.main,
      gallery := Arr(StrList(images.gallery)),
      price := NormalizePrice(PriceCandidate(n, pv)),
      vintage := FirstNonEmpty([Get(pv, "year"), Get(pv, "vintage"), Get(n.root, "vintage"), Get(n.wine, "vintage")]),
      releaseDate := FirstNonEmpty([Get(pv, "release_date"), Get(pv, "releaseDate"), Get(n.root, "release_date"), Get(n.root, "releaseDate")]),
      grapes := Arr(EnsureArray(RootWineVintage(n, pv, "grapes"))),
      alcohol := RootWineVintage(n, pv, "alcohol"),
      tastingNotes := FirstNonEmpty([Get(n.root, "tasting_notes"), Get(n.root, "tastingNotes"), Get(n.wine, "tasting_notes"), Get(n.wine, "tastingNotes")]),
      foodPairings := Arr(EnsureArray(FirstNonEmpty([Get(n.root, "food_pairings"), Get(n.root, "foodPairings"), Get(n.wine, "food_pairings"), Get(n.wine, "foodPairings")]))),
      rating := Nullable3(Get(rn, "average"), Get(rn, "score"), Get(rn, "value")),
      ratingCount := Nullable3(Get(rn, "count"), Get(rn, "reviews"), Get(rn, "total")),
      classification := RootWineVintage(n, pv, "classification"),
      country := RootWineVintage(n, pv, "country"),
      region := RootWineVintage(n, pv, "region"),
      subregion := RootWineVintage(n, pv, "subregion"),
      appellation := RootWineVintage(n, pv, "appellation"))
  }

  /** `normalizeWineDetails(detailPayload, fallback)`: an object whose keys
      are drawn from the record's field names, each at most once, and in
      which no property is `undefined` or `null`. */
  function NormalizeWineDetails(payload: JS, fallback: JS): (r: JS)
    ensures r.Obj?
    ensures DistinctKeys(r.fields)
    ensures forall i :: 0 <= i < |r.fields| ==> r.fields[i].0 in FieldNames && !Nullish(r.fields[i].1)
  {
    CompactedRecord(Project(payload, fallback));
    Obj(Compact(Entries(Project(payload, fallback))))
  }

  lemma CompactedRecord(w: Record)
    ensures DistinctKeys(Compact(Entries(w)))
    ensures forall i :: 0 <= i < |Compact(Entries(w))| ==>
      Compact(Entries(w))[i].0 in FieldNames && !Nullish(Compact(Entries(w))[i].1)
  {
    CompactKeepsNames(Entries(w));
  }

  lemma CompactKeepsNames(fs: seq<(string, JS)>)
    requires |fs| == |FieldNames|
    requires forall i :: 0 <= i < |fs| ==> fs[i].0 == FieldNames[i]
    ensures forall i :: 0 <= i < |Compact(fs)| ==> Compact(fs)[i].0 in FieldNames
  {
    var r := Compact(fs);
    forall i | 0 <= i < |r|
      ensures r[i].0 in FieldNames
    {
      assert r[i] in fs;
      var j :| 0 <= j < |fs| && fs[j] == r[i];
      assert FieldNames[j] == r[i].0;
    }
  }

  lemma FieldNamesDistinct()
    ensures forall i, j :: 0 <= i < j < |FieldNames| ==> FieldNames[i] != FieldNames[j]
  {
  }

  /** A field as it appears in the output: gone when it was nullish. */
  function Emitted(v: JS): JS {
    if Nullish(v) then Undefined else v
  }

  lemma FieldNamesAt()
    ensures FieldNames[0] == "id" && FieldNames[1] == "name" && FieldNames[2] == "description"
    ensures FieldNames[3] == "imageUrl" && FieldNames[4] == "gallery" && FieldNames[5] == "price"
    ensures FieldNames[6] == "vintage" && FieldNames[7] == "releaseDate" && FieldNames[8] == "grapes"
    ensures FieldNames[9] == "alcohol" && FieldNames[10] == "tastingNotes"
    ensures FieldNames[11] == "foodPairings" && FieldNames[12] == "rating"
    ensures FieldNames[13] == "ratingCount" && FieldNames[14] == "classification"
    ensures FieldNames[15] == "country" && FieldNames[16] == "region"
    ensures FieldNames[17] == "subregion" && FieldNames[18] == "appellation"
  {
  }

  lemma FieldValuesAt(w: Record)
    ensures FieldValue(w, 0) == w.id && FieldValue(w, 1) == w.name
    ensures FieldValue(w, 2) == w.description && FieldValue(w, 3) == w.imageUrl
    ensures FieldValue(w, 4) == w.gallery && FieldValue(w, 5) == w.price
    ensures FieldValue(w, 6) == w.vintage && FieldValue(w, 7) == w.releaseDate
    ensures FieldValue(w, 8) == w.grapes && FieldValue(w, 9) == w.alcohol
  {
  }

  lemma LaterFieldValuesAt(w: Record)
    ensures FieldValue(w, 10) == w.tastingNotes && FieldValue(w, 11) == w.foodPairings
    ensures FieldValue(w, 12) == w.rating && FieldValue(w, 13) == w.ratingCount
    ensures FieldValue(w, 14) == w.classification && FieldValue(w, 15) == w.country
    ensures FieldValue(w, 16) == w.region && FieldValue(w, 17) == w.subregion
    ensures FieldValue(w, 18) == w.appellation
  {
  }

  /** Each output property, by name, is the corresponding record field
      with nullish values dropped. */
  lemma OutputByName(payload: JS, fallback: JS)
    ensures var r := NormalizeWineDetails(payload, fallback);
      var w := Project(payload, fallback);
      && Get(r, "id") == Emitted(w.id) && Get(r, "name") == Emitted(w.name)
      && Get(r, "description") == Emitted(w.description)
      && Get(r, "imageUrl") == Emitted(w.imageUrl) && Get(r, "gallery") == Emitted(w.gallery)
      && Get(r, "price") == Emitted(w.price) && Get(r, "vintage") == Emitted(w.vintage)
      && Get(r, "releaseDate") == Emitted(w.releaseDate) && Get(r, "grapes") == Emitted(w.grapes)
      && Get(r, "alcohol") == Emitted(w.alcohol) && Get(r, "tastingNotes") == Emitted(w.tastingNotes)
      && Get(r, "foodPairings") == Emitted(w.foodPairings) && Get(r, "rating") == Emitted(w.rating)
      && Get(r, "ratingCount") == Emitted(w.ratingCount)
      && Get(r, "classification") == Emitted(w.classification)
      && Get(r, "country") == Emitted(w.country) && Get(r, "region") == Emitted(w.region)
      && Get(r, "subregion") == Emitted(w.subregion) && Get(r, "appellation") == Emitted(w.appellation)
  {
    RecordOutput(Project(payload, fallback));
  }

  lemma RecordOutput(w: Record)
    ensures var r := Obj(Compact(Entries(w)));
      && Get(r, "id") == Emitted(w.id) && Get(r, "name") == Emitted(w.name)
      && Get(r, "description") == Emitted(w.description)
      && Get(r, "imageUrl") == Emitted(w.imageUrl) && Get(r, "gallery") == Emitted(w.gallery)
      && Get(r, "price") == Emitted(w.price) && Get(r, "vintage") == Emitted(w.vintage)
      && Get(r, "releaseDate") == Emitted(w.releaseDate) && Get(r, "grapes") == Emitted(w.grapes)
      && Get(r, "alcohol") == Emitted(w.alcohol) && Get(r, "tastingNotes") == Emitted(w.tastingNotes)
      && Get(r, "foodPairings") == Emitted(w.foodPairings) && Get(r, "rating") == Emitted(w.rating)
      && Get(r, "ratingCount") == Emitted(w.ratingCount)
      && Get(r, "classification") == Emitted(w.classification)
      && Get(r, "country") == Emitted(w.country) && Get(r, "region") == Emitted(w.region)
      && Get(r, "subregion") == Emitted(w.subregion) && Get(r, "appellation") == Emitted(w.appellation)
  {
    FieldNamesAt();
    FieldValuesAt(w);
    LaterFieldValuesAt(w);
    RecordField(w, 0);
    RecordField(w, 1);
    RecordField(w, 2);
    RecordField(w, 3);
    RecordField(w, 4);
    RecordField(w, 5);
    RecordField(w, 6);
    RecordField(w, 7);
    RecordField(w, 8);
    RecordField(w, 9);
    RecordField(w, 10);
    RecordField(w, 11);
    RecordField(w, 12);
    RecordField(w, 13);
    RecordField(w, 14);
    RecordField(w, 15);
    RecordField(w, 16);
    RecordField(w, 17);
    RecordField(w, 18);
  }

  /** Field `i` of the compacted entries is the field's value unless it
      was nullish. */
  lemma RecordField(w: Record, i: nat)
    requires i < |FieldNames|
    ensures Get(Obj(Compact(Entries(w))), FieldNames[i]) == Emitted(FieldValue(w, i))
  {
    var fs := Entries(w);
    var k := FieldNames[i];
    LookupCompact(fs, k);
    LookupAt(fs, i, k);
  }

  /** `gallery`, `grapes` and `foodPairings` are always arrays, however
      little the payload holds. */
  lemma ListFieldsAlwaysArrays(payload: JS, fallback: JS)
    ensures Get(NormalizeWineDetails(payload, fallback), "gallery").Arr?
    ensures Get(NormalizeWineDetails(payload, fallback), "grapes").Arr?
    ensures Get(NormalizeWineDetails(payload, fallback), "foodPairings").Arr?
  {
    ProjectListFields(payload, fallback);
    ListFieldsOfRecord(Project(payload, fallback));
  }

  lemma ListFieldsOfRecord(w: Record)
    requires w.gallery.Arr? && w.grapes.Arr? && w.foodPairings.Arr?
    ensures Get(Obj(Compact(Entries(w))), "gallery").Arr?
    ensures Get(Obj(Compact(Entries(w))), "grapes").Arr?
    ensures Get(Obj(Compact(Entries(w))), "foodPairings").Arr?
  {
    RecordField(w, 4);
    RecordField(w, 8);
    RecordField(w, 11);
    FieldNamesAt();
  }

  lemma ProjectListFields(payload: JS, fallback: JS)
    ensures Project(payload, fallback).gallery.Arr?
    ensures Project(payload, fallback).grapes.Arr?
    ensures Project(payload, fallback).foodPairings.Arr?
  {
  }

  /** The gallery is the distinct, trimmed image strings of the merged
      image fields, and `imageUrl` is its first entry, absent when the
      gallery is empty. */
  lemma ImageUrlMirrorsGallery(payload: JS, fallback: JS)
    ensures var r := NormalizeWineDetails(payload, fallback);
      var images := CollectImages(ImagePayload(LocateNodes(payload)));
      && Get(r, "gallery") == Arr(StrList(images.gallery))
      && (images.gallery == [] ==> Get(r, "imageUrl") == Undefined)
      && (images.gallery != [] ==> Get(r, "imageUrl") == Str(images.gallery[0]))
  {
    ProjectImages(payload, fallback);
    ImagesOfRecord(Project(payload, fallback));
  }

  /** The output's `imageUrl` and `gallery` are the record's, unless null. */
  lemma ImagesOfRecord(w: Record)
    ensures Get(Obj(Compact(Entries(w))), "imageUrl") == Emitted(w.imageUrl)
    ensures Get(Obj(Compact(Entries(w))), "gallery") == Emitted(w.gallery)
  {
    RecordField(w, 3);
    RecordField(w, 4);
    FieldNamesAt();
    FieldValuesAt(w);
  }

  lemma ProjectImages(payload: JS, fallback: JS)
    ensures var images := CollectImages(ImagePayload(LocateNodes(payload)));
      && Project(payload, fallback).imageUrl == images.main
      && Project(payload, fallback).gallery == Arr(StrList(images.gallery))
  {
  }

  /** The first present value of `upstream` followed by `last`: the
      upstream choice when there is one, otherwise `last` if present. */
  lemma FirstNonEmptyThenFallback(upstream: seq<JS>, last: JS)
    ensures FirstNonEmpty(upstream + [last])
         == if FirstNonEmpty(upstream) != Undefined then FirstNonEmpty(upstream)
            else if Present(last) then last else Undefined
  {
    FirstNonEmptyAppend(upstream, [last]);
    FirstNonEmptyIsPresentOrUndefined(upstream);
    if Present(last) {
      assert FirstPresentAt([last], 0);
    }
  }

  /** The caller's `id` is used only when no upstream id alias is present. */
  lemma IdFallback(payload: JS, fallback: JS)
    ensures var up := FirstNonEmpty(UpstreamIds(LocateNodes(payload)));
      Get(NormalizeWineDetails(payload, fallback), "id")
        == if up != Undefined then up
           else if Present(Get(fallback, "id")) then Get(fallback, "id")
           else Undefined
  {
    var n := LocateNodes(payload);
    OutputByName(payload, fallback);
    FirstNonEmptyThenFallback(UpstreamIds(n), Get(fallback, "id"));
    FirstNonEmptyIsPresentOrUndefined(UpstreamIds(n) + [Get(fallback, "id")]);
  }

  /** The caller's `name` is used only when no upstream name alias is
      present; a name is never invented. */
  lemma NameFallback(payload: JS, fallback: JS)
    ensures var up := FirstNonEmpty(UpstreamNames(LocateNodes(payload)));
      Get(NormalizeWineDetails(payload, fallback), "name")
        == if up != Undefined then up
           else if Present(Get(fallback, "name")) then Get(fallback, "name")
           else Undefined
  {
    var n := LocateNodes(payload);
    OutputByName(payload, fallback);
    FirstNonEmptyThenFallback(UpstreamNames(n), Get(fallback, "name"));
    FirstNonEmptyIsPresentOrUndefined(UpstreamNames(n) + [Get(fallback, "name")]);
  }

  /** When none of the six price locations holds a present value, the
      output still carries `price: {}`. */
  lemma PriceWithoutCandidate(payload: JS, fallback: JS)
    requires var n := LocateNodes(payload);
      forall i :: 0 <= i < 6 ==> !Present(PriceCandidates(n, PrimaryVintage(n, Vintages(n)))[i])
    ensures Get(NormalizeWineDetails(payload, fallback), "price") == Obj([])
  {
    var n := LocateNodes(payload);
    EmptyCandidatePrice(n, PrimaryVintage(n, Vintages(n)));
    ProjectPrice(payload, fallback);
    PriceOfRecord(Project(payload, fallback));
  }

  lemma EmptyCandidatePrice(n: Nodes, pv: JS)
    requires forall i :: 0 <= i < 6 ==> !Present(PriceCandidates(n, pv)[i])
    ensures NormalizePrice(PriceCandidate(n, pv)) == Obj([])
  {
    NormalizePriceNoAlias(Obj([]));
  }

  /** The output's `price` is the record's price unless it was `null`. */
  lemma PriceOfRecord(w: Record)
    ensures Get(Obj(Compact(Entries(w))), "price") == Emitted(w.price)
  {
    RecordField(w, 5);
    FieldNamesAt();
    FieldValuesAt(w);
  }

  lemma ProjectPrice(payload: JS, fallback: JS)
    ensures var n := LocateNodes(payload);
      Project(payload, fallback).price == NormalizePrice(PriceCandidate(n, PrimaryVintage(n, Vintages(n))))
  {
  }

  /** `price` is dropped exactly when the chosen candidate is falsy (`0`,
      `false`) or `true`; otherwise it is the normalised candidate. */
  lemma PriceDroppedIffFalsyCandidate(payload: JS, fallback: JS)
    ensures var n := LocateNodes(payload);
      var c := PriceCandidate(n, PrimaryVintage(n, Vintages(n)));
      var price := Get(NormalizeWineDetails(payload, fallback), "price");
      && (price == Undefined <==> !Truthy(c) || c.Bool?)
      && (price != Undefined ==> price == NormalizePrice(c))
  {
    var n := LocateNodes(payload);
    EmittedPrice(PriceCandidate(n, PrimaryVintage(n, Vintages(n))));
    ProjectPrice(payload, fallback);
    PriceOfRecord(Project(payload, fallback));
  }

  lemma EmittedPrice(c: JS)
    ensures Emitted(NormalizePrice(c)) == Undefined <==> !Truthy(c) || c.Bool?
    ensures Emitted(NormalizePrice(c)) != Undefined ==> Emitted(NormalizePrice(c)) == NormalizePrice(c)
  {
  }

  /** `rating` is the ratings node's `average`, else `score`, else
      `value`, keeping falsy values such as `0` or `""`; it is absent only
      when all three are nullish. */
  lemma RatingOutput(payload: JS, fallback: JS)
    ensures var n := LocateNodes(payload);
      var rn := RatingNode(n, PrimaryVintage(n, Vintages(n)));
      var rating := Get(NormalizeWineDetails(payload, fallback), "rating");
      && (rating == Undefined <==>
            Nullish(Get(rn, "average")) && Nullish(Get(rn, "score")) && Nullish(Get(rn, "value")))
      && (!Nullish(Get(rn, "average")) ==> rating == Get(rn, "average"))
      && (Nullish(Get(rn, "average")) && !Nullish(Get(rn, "score")) ==> rating == Get(rn, "score"))
      && (Nullish(Get(rn, "average")) && Nullish(Get(rn, "score")) && !Nullish(Get(rn, "value")) ==>
            rating == Get(rn, "value"))
  {
    OutputByName(payload, fallback);
    ProjectRatings(payload, fallback);
  }

  /** `ratingCount` is `count`, else `reviews`, else `total`, and is absent
      only when all three are nullish. */
  lemma RatingCountOutput(payload: JS, fallback: JS)
    ensures var n := LocateNodes(payload);
      var rn := RatingNode(n, PrimaryVintage(n, Vintages(n)));
      var count := Get(NormalizeWineDetails(payload, fallback), "ratingCount");
      && (count == Undefined <==>
            Nullish(Get(rn, "count")) && Nullish(Get(rn, "reviews")) && Nullish(Get(rn, "total")))
      && (!Nullish(Get(rn, "count")) ==> count == Get(rn, "count"))
      && (Nullish(Get(rn, "count")) && !Nullish(Get(rn, "reviews")) ==> count == Get(rn, "reviews"))
      && (Nullish(Get(rn, "count")) && Nullish(Get(rn, "reviews")) && !Nullish(Get(rn, "total")) ==>
            count == Get(rn, "total"))
  {
    OutputByName(payload, fallback);
    ProjectRatings(payload, fallback);
  }

  lemma ProjectRatings(payload: JS, fallback: JS)
    ensures var n := LocateNodes(payload);
      var rn := RatingNode(n, PrimaryVintage(n, Vintages(n)));
      var w := Project(payload, fallback);
      && w.rating == Nullable3(Get(rn, "average"), Get(rn, "score"), Get(rn, "value"))
      && w.ratingCount == Nullable3(Get(rn, "count"), Get(rn, "reviews"), Get(rn, "total"))
  {
  }

  /** The descriptive fields read the root first, then the wine node, then
      the primary vintage, and are absent when none of them holds a
      present value. */
  lemma RootWineVintagePriority(n: Nodes, pv: JS, k: string)
    ensures var out := RootWineVintage(n, pv, k);
      && (Present(Get(n.root, k)) ==> out == Get(n.root, k))
      && (!Present(Get(n.root, k)) && Present(Get(n.wine, k)) ==> out == Get(n.wine, k))
      && (!Present(Get(n.root, k)) && !Present(Get(n.wine, k)) && Present(Get(pv, k)) ==> out == Get(pv, k))
      && (!Present(Get(n.root, k)) && !Present(Get(n.wine, k)) && !Present(Get(pv, k)) ==> out == Undefined)
  {
    var vs := [Get(n.root, k), Get(n.wine, k), Get(pv, k)];
    if Present(vs[0]) {
      FirstNonEmptyAt(vs, 0);
    } else if Present(vs[1]) {
      FirstNonEmptyAt(vs, 1);
    } else if Present(vs[2]) {
      FirstNonEmptyAt(vs, 2);
    }
  }

  /** The seven descriptive output fields are the root / wine node /
      primary vintage choice above, untouched by the nullish filter. */
  lemma DescriptiveFieldsOutput(payload: JS, fallback: JS)
    ensures var n := LocateNodes(payload);
      var pv := PrimaryVintage(n, Vintages(n));
      var r := NormalizeWineDetails(payload, fallback);
      && Get(r, "description") == RootWineVintage(n, pv, "description")
      && Get(r, "alcohol") == RootWineVintage(n, pv, "alcohol")
      && Get(r, "classification") == RootWineVintage(n, pv, "classification")
      && Get(r, "country") == RootWineVintage(n, pv, "country")
      && Get(r, "region") == RootWineVintage(n, pv, "region")
      && Get(r, "subregion") == RootWineVintage(n, pv, "subregion")
      && Get(r, "appellation") == RootWineVintage(n, pv, "appellation")
  {
    var n := LocateNodes(payload);
    var pv := PrimaryVintage(n, Vintages(n));
    OutputByName(payload, fallback);
    ProjectDescriptive(payload, fallback);
    ProjectPlace(payload, fallback);
    EmittedFirstNonEmpty([Get(n.root, "description"), Get(n.wine, "description"), Get(pv, "description")]);
    EmittedFirstNonEmpty([Get(n.root, "alcohol"), Get(n.wine, "alcohol"), Get(pv, "alcohol")]);
    EmittedFirstNonEmpty([Get(n.root, "classification"), Get(n.wine, "classification"), Get(pv, "classification")]);
    EmittedFirstNonEmpty([Get(n.root, "country"), Get(n.wine, "country"), Get(pv, "country")]);
    EmittedFirstNonEmpty([Get(n.root, "region"), Get(n.wine, "region"), Get(pv, "region")]);
    EmittedFirstNonEmpty([Get(n.root, "subregion"), Get(n.wine, "subregion"), Get(pv, "subregion")]);
    EmittedFirstNonEmpty([Get(n.root, "appellation"), Get(n.wine, "appellation"), Get(pv, "appellation")]);
  }

  lemma ProjectDescriptive(payload: JS, fallback: JS)
    ensures var n := LocateNodes(payload);
      var pv := PrimaryVintage(n, Vintages(n));
      var w := Project(payload, fallback);
      && w.description == RootWineVintage(n, pv, "description")
      && w.alcohol == RootWineVintage(n, pv, "alcohol")
      && w.classification == RootWineVintage(n, pv, "classification")
  {
  }

  lemma ProjectPlace(payload: JS, fallback: JS)
    ensures var n := LocateNodes(payload);
      var pv := PrimaryVintage(n, Vintages(n));
      var w := Project(payload, fallback);
      && w.country == RootWineVintage(n, pv, "country")
      && w.region == RootWineVintage(n, pv, "region")
      && w.subregion == RootWineVintage(n, pv, "subregion")
      && w.appellation == RootWineVintage(n, pv, "appellation")
  {
  }

  /** A `firstNonEmpty` result is never `null`, so the nullish filter
      leaves it as it is. */
  lemma EmittedFirstNonEmpty(vs: seq<JS>)
    ensures Emitted(FirstNonEmpty(vs)) == FirstNonEmpty(vs)
  {
    FirstNonEmptyIsPresentOrUndefined(vs);
  }

  /** `vintage` prefers the primary vintage's `year`. */
  lemma VintageYearFirst(payload: JS, fallback: JS)
    ensures var n := LocateNodes(payload);
      var pv := PrimaryVintage(n, Vintages(n));
      Present(Get(pv, "year")) ==> Get(NormalizeWineDetails(payload, fallback), "vintage") == Get(pv, "year")
  {
    OutputByName(payload, fallback);
  }
}

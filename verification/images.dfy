/** `collectImages`: a schema-agnostic walk over the image-bearing fields
    of a payload that gathers every non-blank string leaf (trimmed), then
    removes repeats while keeping first-seen order. */
module Images {

  import opened Json
  import opened Text

  /** A string `pushIfString` accepts after trimming: non-empty and trimmed. */
  predicate Usable(x: string) {
    x != "" && Trimmed(x)
  }

  predicate AllUsable(xs: seq<string>) {
    forall i :: 0 <= i < |xs| ==> Usable(xs[i])
  }

  /** `Object.values`: the values of a property list in own-property order. */
  function Values(fields: seq<(string, JS)>): (r: seq<JS>)
    ensures |r| == |OwnOrder(fields)|
    ensures forall i :: 0 <= i < |r| ==> r[i] == OwnOrder(fields)[i].1
  {
    var o := OwnOrder(fields);
    seq(|o|, i requires 0 <= i < |o| => o[i].1)
  }

  /** Every value of an object is structurally smaller than the object. */
  lemma ValuesBelow(fields: seq<(string, JS)>)
    ensures forall i :: 0 <= i < |Values(fields)| ==> Values(fields)[i] < Obj(fields)
  {
    var o := OwnOrder(fields);
    forall i | 0 <= i < |o|
      ensures o[i].1 < Obj(fields)
    {
      var j :| 0 <= j < |fields| && fields[j] == o[i];
      assert fields[j].1 < Obj(fields);
    }
  }

  /** `explore(value)`: the strings pushed onto `sources` while visiting
      `value`. Falsy values are skipped; a string contributes its trimmed
      text when that is not empty; arrays are visited in index order and
      objects in key order; other values (`true`, non-zero numbers)
      contribute nothing. */
  function Explore(v: JS): (r: seq<string>)
    ensures AllUsable(r)
    ensures !Truthy(v) ==> r == []
    decreases v, 1
  {
    if !Truthy(v) then []
    else
      match v
      case Str(s) => Leaf(s)
      case Arr(items) => ExploreList(items, v)
      case Obj(fs) => ValuesBelow(fs); ExploreList(Values(fs), v)
      case _ => []
  }

  /** `pushIfString(s)`: the trimmed string, unless it is empty. */
  function Leaf(s: string): (r: seq<string>)
    ensures AllUsable(r)
    ensures |r| <= 1
    ensures Blank(s) <==> r == []
    ensures !Blank(s) ==> r == [Trim(s)]
  {
    if Trim(s) != "" then [Trim(s)] else []
  }

  /** `values.forEach(explore)`: the explorations of each element, in
      order. `parent` is the array or object the values belong to; it only
      serves the termination argument. */
  function ExploreList(vs: seq<JS>, ghost parent: JS): (r: seq<string>)
    requires forall i :: 0 <= i < |vs| ==> vs[i] < parent
    ensures AllUsable(r)
    decreases parent, 0, |vs|
  {
    if |vs| == 0 then [] else Explore(vs[0]) + ExploreList(vs[1..], parent)
  }

  /** The results of `f` on each of `vs`, concatenated in order. */
  function Concat(f: JS -> seq<string>, vs: seq<JS>): (r: seq<string>)
    ensures vs == [] ==> r == []
  {
    if |vs| == 0 then [] else f(vs[0]) + Concat(f, vs[1..])
  }

  lemma {:induction false} ConcatAppend(f: JS -> seq<string>, a: seq<JS>, b: seq<JS>)
    ensures Concat(f, a + b) == Concat(f, a) + Concat(f, b)
    decreases |a|
  {
    if a != [] {
      assert (a + b)[0] == a[0] && (a + b)[1..] == a[1..] + b;
      ConcatAppend(f, a[1..], b);
    } else {
      assert a + b == b;
    }
  }

  /** `values.forEach(explore)` visits each value once, in order. */
  lemma {:induction false} ExploreListIsConcat(vs: seq<JS>, parent: JS)
    requires forall i :: 0 <= i < |vs| ==> vs[i] < parent
    ensures ExploreList(vs, parent) == Concat(Explore, vs)
    decreases |vs|
  {
    if vs != [] {
      ExploreListIsConcat(vs[1..], parent);
    }
  }

  /** Arrays are explored in index order: the leaves of `a + b` are the
      leaves of `a` followed by the leaves of `b`. */
  lemma ExploreArrayAppend(a: seq<JS>, b: seq<JS>)
    ensures Explore(Arr(a + b)) == Explore(Arr(a)) + Explore(Arr(b))
  {
    ExploreListIsConcat(a + b, Arr(a + b));
    ExploreListIsConcat(a, Arr(a));
    ExploreListIsConcat(b, Arr(b));
    ConcatAppend(Explore, a, b);
  }

  /** An object is explored exactly like the array of its values. */
  lemma ExploreObjectAsValues(fields: seq<(string, JS)>)
    ensures Explore(Obj(fields)) == Explore(Arr(Values(fields)))
  {
    var vs := Values(fields);
    ValuesBelow(fields);
    ExploreListIsConcat(vs, Obj(fields));
    ExploreListIsConcat(vs, Arr(vs));
  }

  /** Every element of `xs` differs from every other. */
  predicate NoDuplicates(xs: seq<string>) {
    forall i, j :: 0 <= i < j < |xs| ==> xs[i] != xs[j]
  }

  /** The position of the first occurrence of `x` in `xs`. */
  function FirstIndex(xs: seq<string>, x: string): (r: nat)
    requires x in xs
    ensures r < |xs| && xs[r] == x
    ensures forall j :: 0 <= j < r ==> xs[j] != x
  {
    if xs[0] == x then 0 else 1 + FirstIndex(xs[1..], x)
  }

  lemma {:induction false} FirstIndexPrefix(xs: seq<string>, n: nat, x: string)
    requires n <= |xs| && x in xs[..n]
    ensures FirstIndex(xs, x) == FirstIndex(xs[..n], x)
  {
    var p := xs[..n];
    var i := FirstIndex(p, x);
    var k := FirstIndex(xs, x);
    assert xs[i] == x;
  }

  /** `[...new Set(xs)]`: the distinct elements of `xs`, each at the
      position of its first occurrence. */
  function Dedup(xs: seq<string>): (r: seq<string>)
    ensures NoDuplicates(r)
    ensures forall x :: x in r <==> x in xs
    ensures forall i, j :: 0 <= i < j < |r| ==> FirstIndex(xs, r[i]) < FirstIndex(xs, r[j])
  {
    if |xs| == 0 then []
    else
      var p := xs[..|xs| - 1];
      var x := xs[|xs| - 1];
      var d := Dedup(p);
      assert xs == p + [x];
      forall y | y in d
        ensures FirstIndex(xs, y) == FirstIndex(p, y) < |xs| - 1
      {
        FirstIndexPrefix(xs, |xs| - 1, y);
      }
      if x in d then d
      else
        assert FirstIndex(xs, x) == |xs| - 1;
        d + [x]
  }

  /** A list that already has no repeats passes through unchanged. */
  lemma {:induction false} DedupOfDistinct(xs: seq<string>)
    requires NoDuplicates(xs)
    ensures Dedup(xs) == xs
  {
    if |xs| > 0 {
      var p := xs[..|xs| - 1];
      DedupOfDistinct(p);
      assert xs[|xs| - 1] !in p;
      assert xs == p + [xs[|xs| - 1]];
    }
  }

  /** `{ main, gallery }` as `collectImages` returns it. */
  datatype Collected = Collected(main: JS, gallery: seq<string>)

  /** The strings `collectImages` pushes, in visiting order: the first
      non-nullish of `image`, `image_url`, `imageUrl`, then `images`,
      `labels` and `photos`. */
  function ImageSources(payload: JS): seq<string> {
    var first := Coalesce(Coalesce(Get(payload, "image"), Get(payload, "image_url")), Get(payload, "imageUrl"));
    Explore(first) + Explore(Get(payload, "images")) + Explore(Get(payload, "labels")) + Explore(Get(payload, "photos"))
  }

  /** `collectImages(payload)`: a gallery of distinct, trimmed, non-empty
      strings holding every source in first-seen order, and `main` its
      first entry or `null` when it is empty. */
  function CollectImages(payload: JS): (r: Collected)
    ensures NoDuplicates(r.gallery) && AllUsable(r.gallery)
    ensures forall x :: x in r.gallery <==> x in ImageSources(payload)
    ensures forall i, j :: 0 <= i < j < |r.gallery| ==>
      FirstIndex(ImageSources(payload), r.gallery[i]) < FirstIndex(ImageSources(payload), r.gallery[j])
    ensures r.gallery == [] ==> r.main == Null
    ensures r.gallery != [] ==> r.main == Str(r.gallery[0])
  {
    var sources := ImageSources(payload);
    var unique := Dedup(sources);
    forall i | 0 <= i < |unique|
      ensures Usable(unique[i])
    {
      var j := FirstIndex(sources, unique[i]);
    }
    Collected(if |unique| > 0 then Str(unique[0]) else Null, unique)
  }

  /** When `image` is present (not nullish), `image_url` and `imageUrl`
      are never looked at: two payloads that agree on `image`, `images`,
      `labels` and `photos` yield the same images. */
  lemma ImageShadowsAliases(p: JS, q: JS)
    requires Get(p, "image") == Get(q, "image") && !Nullish(Get(p, "image"))
    requires Get(p, "images") == Get(q, "images")
    requires Get(p, "labels") == Get(q, "labels")
    requires Get(p, "photos") == Get(q, "photos")
    ensures CollectImages(p) == CollectImages(q)
  {
  }

  /** `collectImages({ images: ["a", "a", "b"] })` gives main `"a"` and
      gallery `["a", "b"]`. */
  lemma CollectImagesExample(xs: seq<string>)
    requires xs == ["a", "a", "b"]
    ensures CollectImages(Obj([("images", Arr(StrList(xs)))])) == Collected(Str("a"), ["a", "b"])
  {
    assert AllUsable(xs);
    ImagesOnly(xs);
    DedupExample(xs);
  }

  /** An object with the single property `k` has `v` under `k` and nothing
      under any other key. */
  lemma OnlyBindingGet(k: string, v: JS, key: string)
    ensures key == k ==> Get(Obj([(k, v)]), key) == v
    ensures key != k ==> Get(Obj([(k, v)]), key) == Undefined
  {
    var fields := [(k, v)];
    assert fields[0].0 == k && fields[1..] == [];
    assert Lookup(fields[1..], key) == Undefined;
  }

  /** A payload holding only an `images` array of trimmed, non-empty
      strings yields exactly those strings, in order. */
  lemma ImagesOnly(xs: seq<string>)
    requires AllUsable(xs)
    ensures ImageSources(Obj([("images", Arr(StrList(xs)))])) == xs
  {
    var p := Obj([("images", Arr(StrList(xs)))]);
    assert "image" != "images" && "image_url" != "images" && "imageUrl" != "images";
    assert "labels"[0] != "images"[0] && "photos"[0] != "images"[0];
    OnlyBindingGet("images", Arr(StrList(xs)), "image");
    OnlyBindingGet("images", Arr(StrList(xs)), "image_url");
    OnlyBindingGet("images", Arr(StrList(xs)), "imageUrl");
    OnlyBindingGet("images", Arr(StrList(xs)), "labels");
    OnlyBindingGet("images", Arr(StrList(xs)), "photos");
    OnlyBindingGet("images", Arr(StrList(xs)), "images");
    ExploreUsableStrings(xs);
  }

  /** Exploring an array of strings that are already trimmed and non-empty
      gives them back unchanged and in order. */
  lemma ExploreUsableStrings(xs: seq<string>)
    requires AllUsable(xs)
    ensures Explore(Arr(StrList(xs))) == xs
  {
    ExploreListUsable(xs, Arr(StrList(xs)));
  }

  lemma {:induction false} ExploreListUsable(xs: seq<string>, parent: JS)
    requires AllUsable(xs)
    requires forall i :: 0 <= i < |xs| ==> StrList(xs)[i] < parent
    ensures ExploreList(StrList(xs), parent) == xs
    decreases |xs|
  {
    if xs != [] {
      var l := StrList(xs);
      assert l[1..] == StrList(xs[1..]);
      TrimOfTrimmed(xs[0]);
      assert Explore(l[0]) == [xs[0]];
      ExploreListUsable(xs[1..], parent);
    }
  }

  lemma DedupExample(xs: seq<string>)
    requires xs == ["a", "a", "b"]
    ensures Dedup(xs) == ["a", "b"]
  {
    assert xs[..1] == ["a"] && xs[..2] == ["a", "a"];
    assert Dedup(xs[..1]) == ["a"];
    assert Dedup(xs[..2]) == ["a"];
  }
}

/** The field-extraction helpers of the backend: `firstNonEmpty`, which
    picks the first usable value among aliased candidates, and
    `ensureArray`, which coerces a value into a list (splitting
    comma-separated strings). */
module Fields {

  import opened Wrappers
  import opened Json
  import opened Text

  /** A candidate `firstNonEmpty` accepts: anything except `undefined`,
      `null` and the empty string, so `0` and `false` count as present. */
  predicate Present(v: JS) {
    !v.Undefined? && !v.Null? && v != Str("")
  }

  /** `vs[i]` is the first present candidate. */
  predicate FirstPresentAt(vs: seq<JS>, i: int) {
    0 <= i < |vs| && Present(vs[i]) && forall j :: 0 <= j < i ==> !Present(vs[j])
  }

  /** `firstNonEmpty(...values)`: the first present candidate, or
      `undefined` when no candidate is present. */
  function FirstNonEmpty(vs: seq<JS>): (r: JS)
    ensures r == Undefined <==> forall i :: 0 <= i < |vs| ==> !Present(vs[i])
    ensures r != Undefined ==> exists i :: FirstPresentAt(vs, i) && vs[i] == r
  {
    if |vs| == 0 then Undefined
    else if Present(vs[0]) then vs[0]
    else
      var r := FirstNonEmpty(vs[1..]);
      assert forall i :: 1 <= i < |vs| ==> vs[i] == vs[1..][i - 1];
      assert r != Undefined ==> exists i :: FirstPresentAt(vs, i) && vs[i] == r by {
        if r != Undefined {
          var i :| FirstPresentAt(vs[1..], i) && vs[1..][i] == r;
          assert FirstPresentAt(vs, i + 1);
        }
      }
      r
  }

  /** A present candidate is never `null` or `""`, so a `?? x` after
      `firstNonEmpty` only ever replaces `undefined`. */
  lemma FirstNonEmptyIsPresentOrUndefined(vs: seq<JS>)
    ensures FirstNonEmpty(vs) == Undefined || Present(FirstNonEmpty(vs))
  {
  }

  /** Priority: the first present candidate is the one picked. */
  lemma {:induction false} FirstNonEmptyAt(vs: seq<JS>, j: nat)
    requires FirstPresentAt(vs, j)
    ensures FirstNonEmpty(vs) == vs[j]
    decreases j
  {
    if j > 0 {
      assert !Present(vs[0]);
      assert FirstPresentAt(vs[1..], j - 1);
      FirstNonEmptyAt(vs[1..], j - 1);
    }
  }

  /** The value `firstNonEmpty` picks is determined by the first present
      candidate: whatever follows it is never consulted. */
  lemma {:induction false} FirstNonEmptyAppend(a: seq<JS>, b: seq<JS>)
    ensures FirstNonEmpty(a + b)
         == (if FirstNonEmpty(a) != Undefined then FirstNonEmpty(a) else FirstNonEmpty(b))
  {
    if |a| > 0 {
      assert (a + b)[0] == a[0];
      if !Present(a[0]) {
        assert (a + b)[1..] == a[1..] + b;
        FirstNonEmptyAppend(a[1..], b);
      }
    } else {
      assert a + b == b;
    }
  }

  /** The candidates of a priority list: `node.key` for each alias in turn. */
  function Aliases(node: JS, keys: seq<string>): (r: seq<JS>)
    ensures |r| == |keys|
    ensures forall i :: 0 <= i < |keys| ==> r[i] == Get(node, keys[i])
  {
    seq(|keys|, i requires 0 <= i < |keys| => Get(node, keys[i]))
  }

  // ---------------------------------------------------------------------
  // String splitting on /\s*,\s*/
  // ---------------------------------------------------------------------

  /** The end of the run of white space that starts at `i`. */
  function SkipSpaces(s: string, i: nat): (j: nat)
    requires i <= |s|
    ensures i <= j <= |s|
    ensures forall k :: i <= k < j ==> IsSpace(s[k])
    ensures j == |s| || !IsSpace(s[j])
    decreases |s| - i
  {
    if i < |s| && IsSpace(s[i]) then SkipSpaces(s, i + 1) else i
  }

  /** Where a match of the separator pattern `\s*,\s*` that starts at `q` ends,
      if there is one. The greedy leading `\s*` can only succeed by
      stopping at the comma, and the trailing `\s*` takes every space that
      follows. */
  function SeparatorAt(s: string, q: nat): (r: Option<nat>)
    requires q <= |s|
    ensures r.Some? ==> q < r.value <= |s|
  {
    var j := SkipSpaces(s, q);
    if j < |s| && s[j] == ',' then Some(SkipSpaces(s, j + 1)) else None
  }

  /** The leftmost separator match at or after `q`, as (start, end). */
  function FindSeparator(s: string, q: nat): (r: Option<(nat, nat)>)
    requires q <= |s|
    ensures r.None? <==> forall k :: q <= k <= |s| ==> SeparatorAt(s, k).None?
    ensures r.Some? ==> q <= r.value.0 < r.value.1 <= |s|
    ensures r.Some? ==> SeparatorAt(s, r.value.0) == Some(r.value.1)
    ensures r.Some? ==> forall k :: q <= k < r.value.0 ==> SeparatorAt(s, k).None?
    decreases |s| - q
  {
    match SeparatorAt(s, q)
    case Some(e) => Some((q, e))
    case None => if q == |s| then None else FindSeparator(s, q + 1)
  }

  /** `s.split` on the pattern `\s*,\s*`: the pieces between successive leftmost
      separator matches. */
  function SplitOnCommas(s: string): (r: seq<string>)
    ensures |r| > 0
    ensures forall i :: 0 <= i < |r| ==> ',' !in r[i]
    decreases |s|
  {
    match FindSeparator(s, 0)
    case None =>
      assert ',' !in s by {
        forall c | 0 <= c < |s|
          ensures s[c] != ','
        {
          assert SeparatorAt(s, c).None?;
        }
      }
      [s]
    case Some((q, e)) =>
      assert ',' !in s[..q] by {
        forall c | 0 <= c < q
          ensures s[c] != ','
        {
          assert SeparatorAt(s, c).None?;
        }
      }
      [s[..q]] + SplitOnCommas(s[e..])
  }

  /** `.filter(Boolean)` over the split pieces, each becoming a JS string. */
  function NonEmptyStrings(pieces: seq<string>): (r: seq<JS>)
    ensures forall i :: 0 <= i < |r| ==> r[i].Str? && r[i].s != [] && r[i].s in pieces
  {
    if |pieces| == 0 then []
    else if pieces[0] == "" then NonEmptyStrings(pieces[1..])
    else [Str(pieces[0])] + NonEmptyStrings(pieces[1..])
  }

  /** `ensureArray(value)`: arrays are returned as they are, `undefined` and
      `null` become `[]`, a string is split on commas (with the white space
      around each comma) keeping the non-empty pieces, and any other value
      becomes a one-element list. */
  function EnsureArray(v: JS): (r: seq<JS>)
    ensures v.Arr? ==> r == v.items
    ensures Nullish(v) ==> r == []
    ensures !v.Arr? && !Nullish(v) && !v.Str? ==> r == [v]
  {
    match v
    case Arr(items) => items
    case Undefined => []
    case Null => []
    case Str(s) => NonEmptyStrings(SplitOnCommas(s))
    case _ => [v]
  }

  /** A string becomes a list of non-empty, comma-free strings. */
  lemma EnsureArrayOfText(s: string)
    ensures forall i :: 0 <= i < |EnsureArray(Str(s))| ==>
      var x := EnsureArray(Str(s))[i]; x.Str? && x.s != [] && ',' !in x.s
  {
    var pieces := SplitOnCommas(s);
    var r := NonEmptyStrings(pieces);
    forall i | 0 <= i < |r|
      ensures ',' !in r[i].s
    {
      var k :| 0 <= k < |pieces| && pieces[k] == r[i].s;
    }
  }

  /** A list item that survives a round trip through a ", "-joined string:
      non-empty, comma-free, and not starting or ending with white space. */
  predicate CleanItem(x: string) {
    x != [] && ',' !in x && Trimmed(x)
  }

  /** Joining clean items with ", " and passing the text to `ensureArray`
      gives back exactly the items. */
  lemma {:induction false} EnsureArrayJoinRoundTrip(xs: seq<string>)
    requires forall i :: 0 <= i < |xs| ==> CleanItem(xs[i])
    ensures EnsureArray(Str(Join(xs, ", "))) == seq(|xs|, i requires 0 <= i < |xs| => Str(xs[i]))
  {
    if xs == [] {
      assert FindSeparator("", 0) == None;
    } else {
      SplitJoin(xs);
      NonEmptyOfClean(xs);
    }
  }

  lemma {:induction false} NonEmptyOfClean(xs: seq<string>)
    requires forall i :: 0 <= i < |xs| ==> CleanItem(xs[i])
    ensures NonEmptyStrings(xs) == seq(|xs|, i requires 0 <= i < |xs| => Str(xs[i]))
  {
    if xs != [] {
      NonEmptyOfClean(xs[1..]);
    }
  }

  /** Splitting a ", "-joined list of clean items recovers the items. */
  lemma {:induction false} SplitJoin(xs: seq<string>)
    requires |xs| > 0
    requires forall i :: 0 <= i < |xs| ==> CleanItem(xs[i])
    ensures SplitOnCommas(Join(xs, ", ")) == xs
  {
    if |xs| == 1 {
      NoSeparatorInClean(xs[0]);
    } else {
      var tail := xs[1..];
      var rest := Join(tail, ", ");
      assert Join(xs, ", ") == xs[0] + ", " + rest;
      JoinStartsWithFirst(tail);
      SplitAfterItem(xs[0], rest, tail[0]);
      SplitJoin(tail);
      assert xs == [xs[0]] + tail;
    }
  }

  lemma JoinStartsWithFirst(xs: seq<string>)
    requires |xs| > 0
    ensures |Join(xs, ", ")| >= |xs[0]| && Join(xs, ", ")[..|xs[0]|] == xs[0]
  {
    if |xs| > 1 {
      var x := xs[0];
      assert (x + ", " + Join(xs[1..], ", "))[..|x|] == x;
    }
  }

  /** Splitting `x + ", " + rest` gives `x` and then the pieces of `rest`. */
  lemma SplitAfterItem(x: string, rest: string, next: string)
    requires CleanItem(x) && CleanItem(next)
    requires |rest| >= |next| && rest[..|next|] == next
    ensures SplitOnCommas(x + ", " + rest) == [x] + SplitOnCommas(rest)
  {
    var s := x + ", " + rest;
    FirstSeparatorAfterItem(x, rest, next);
    assert s[..|x|] == x;
    assert s[|x| + 2..] == rest;
  }

  lemma NoSeparatorInClean(x: string)
    requires CleanItem(x)
    ensures FindSeparator(x, 0) == None
  {
    forall k | 0 <= k <= |x|
      ensures SeparatorAt(x, k).None?
    {
      var j := SkipSpaces(x, k);
      if j < |x| {
        assert x[j] in x;
      }
    }
  }

  /** In `x + ", " + rest`, the first separator is the one right after `x`. */
  lemma FirstSeparatorAfterItem(x: string, rest: string, next: string)
    requires CleanItem(x) && CleanItem(next)
    requires |rest| >= |next| && rest[..|next|] == next
    ensures FindSeparator(x + ", " + rest, 0) == Some((|x|, |x| + 2))
  {
    var s := x + ", " + rest;
    assert s[|x|] == ',';
    assert s[|x| + 1] == ' ';
    assert s[|x| + 2] == next[0];
    assert SkipSpaces(s, |x|) == |x|;
    assert SkipSpaces(s, |x| + 2) == |x| + 2;
    assert SkipSpaces(s, |x| + 1) == |x| + 2;
    assert SeparatorAt(s, |x|) == Some(|x| + 2);
    forall k | 0 <= k < |x|
      ensures SeparatorAt(s, k).None?
    {
      var j := SkipSpaces(s, k);
      assert s[|x| - 1] == x[|x| - 1];
      assert s[j] == x[j];
      assert x[j] in x;
    }
    FindSeparatorFirst(s, 0, |x|);
  }

  /** `FindSeparator` returns the first match: if none starts before `m`
      and one starts at `m`, it is that one. */
  lemma FindSeparatorFirst(s: string, q: nat, m: nat)
    requires q <= m <= |s|
    requires SeparatorAt(s, m).Some?
    requires forall k :: q <= k < m ==> SeparatorAt(s, k).None?
    ensures FindSeparator(s, q) == Some((m, SeparatorAt(s, m).value))
  {
    var r := FindSeparator(s, q);
    assert r.Some?;
  }

  /** `firstNonEmpty(undefined, null, "", "x", "y")` is `"x"`, and `0`
      counts as present. */
  lemma FirstNonEmptyExamples()
    ensures FirstNonEmpty([Undefined, Null, Str(""), Str("x"), Str("y")]) == Str("x")
    ensures FirstNonEmpty([Null, Num(0), Str("x")]) == Num(0)
    ensures FirstNonEmpty([Undefined, Null, Str("")]) == Undefined
  {
    FirstNonEmptyAt([Undefined, Null, Str(""), Str("x"), Str("y")], 3);
    FirstNonEmptyAt([Null, Num(0), Str("x")], 1);
  }

  /** `ensureArray("a, b ,c")` is `["a", "b", "c"]`. */
  lemma EnsureArrayExample(s: string)
    requires s == "a, b ,c"
    ensures EnsureArray(Str(s)) == [Str("a"), Str("b"), Str("c")]
  {
    var pieces := SplitOnCommas(s);
    assert EnsureArray(Str(s)) == NonEmptyStrings(pieces);
    SplitExample(s);
    NonEmptyExample(pieces);
  }

  lemma NonEmptyExample(xs: seq<string>)
    requires xs == ["a", "b", "c"]
    ensures NonEmptyStrings(xs) == [Str("a"), Str("b"), Str("c")]
  {
    assert NonEmptyStrings(xs[2..]) == [Str("c")] by {
      assert xs[2..][1..] == [];
    }
    assert xs[1..][1..] == xs[2..];
    assert NonEmptyStrings(xs[1..]) == [Str("b"), Str("c")];
  }

  lemma SplitExample(s: string)
    requires s == "a, b ,c"
    ensures SplitOnCommas(s) == ["a", "b", "c"]
  {
    SplitExampleFirst(s);
    assert s[..1] == "a";
    var t := s[3..];
    assert t == "b ,c";
    SplitExampleRest(t);
  }

  lemma SplitExampleFirst(s: string)
    requires s == "a, b ,c"
    ensures FindSeparator(s, 0) == Some((1, 3))
  {
    assert SeparatorAt(s, 0).None?;
    assert SkipSpaces(s, 2) == 3;
    FindSeparatorFirst(s, 0, 1);
  }

  lemma SplitExampleRest(t: string)
    requires t == "b ,c"
    ensures SplitOnCommas(t) == ["b", "c"]
  {
    assert SeparatorAt(t, 0).None?;
    assert SkipSpaces(t, 1) == 2;
    FindSeparatorFirst(t, 0, 1);
    var u := t[3..];
    assert u == "c";
    assert t[..1] == "b";
    NoSeparatorInClean(u);
  }
}

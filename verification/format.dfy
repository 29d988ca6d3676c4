/** The display formatters of the frontend: price, location, rating,
    vintage and bottle size, each turning an optional field of a search
    result into an optional line of text. */
module Format {

  import opened Wrappers
  import opened Text

  // ---------------------------------------------------------------------
  // Shapes of the search results as the frontend types them
  // ---------------------------------------------------------------------

  /** `NormalizedPrice`: every field optional. Amounts and bottle sizes are
      integral here. */
  datatype NormalizedPrice = NormalizedPrice(
    amount: Option<int>,
    currency: Option<string>,
    display: Option<string>,
    bottleSizeMl: Option<int>)

  /** `vintage?: string | number`. */
  datatype Vintage = NoVintage | YearNumber(n: int) | YearText(s: string)

  /** `rating?: number | string | null`; `NoRating` stands for both `null`
      and `undefined`. */
  datatype Rating = NoRating | RatingNumber(x: real) | RatingText(s: string)

  /** The part of `WineResult` the formatters read. */
  datatype WineResult = WineResult(
    appellation: Option<string>,
    subregion: Option<string>,
    region: Option<string>,
    country: Option<string>,
    vintage: Vintage,
    rating: Rating,
    ratingCount: Option<int>,
    price: Option<NormalizedPrice>)

  /** A string field holding a truthy (non-empty) string. */
  predicate Filled(o: Option<string>) {
    o.Some? && o.value != ""
  }

  // ---------------------------------------------------------------------
  // Number.prototype.toFixed
  // ---------------------------------------------------------------------

  function Pow10(f: nat): (p: nat)
    ensures p >= 1
  {
    if f == 0 then 1 else 10 * Pow10(f - 1)
  }

  /** `x * 10^f`. */
  function Scaled(x: real, f: nat): real {
    if f == 0 then x else Scaled(x, f - 1) * 10.0
  }

  lemma {:induction false} ScaledNegate(x: real, f: nat)
    ensures Scaled(-x, f) == -Scaled(x, f)
  {
    if f > 0 {
      ScaledNegate(x, f - 1);
    }
  }

  /** The integer `n` for which `n / 10^f - x` is closest to zero, the
      larger one on a tie (step 11.a of `toFixed`, section 21.1.3.3 of
      ECMA-262), for `x >= 0`. */
  function FixedDigits(x: real, f: nat): (n: nat)
    requires x >= 0.0
    ensures Scaled(x, f) - 0.5 < n as real <= Scaled(x, f) + 0.5
  {
    ScaledNonNegative(x, f);
    (Scaled(x, f) + 0.5).Floor
  }

  lemma {:induction false} ScaledNonNegative(x: real, f: nat)
    requires x >= 0.0
    ensures Scaled(x, f) >= 0.0
  {
    if f > 0 {
      ScaledNonNegative(x, f - 1);
    }
  }

  /** Exactly `f` decimal digits of `m`, zero-padded on the left. */
  function PadDigits(m: nat, f: nat): (r: string)
    requires m < Pow10(f)
    ensures |r| == f
    ensures forall i :: 0 <= i < |r| ==> IsDigit(r[i])
    ensures DigitsValue(r) == m
  {
    if f == 0 then ""
    else
      var r := PadDigits(m / 10, f - 1) + [DigitChar(m % 10)];
      assert r[..|r| - 1] == PadDigits(m / 10, f - 1);
      r
  }

  /** `n / 10^f` written with `f` digits after the decimal point (and no
      point when `f` is 0). */
  function DecimalText(n: nat, f: nat): string {
    if f == 0 then NatToString(n)
    else
      var p := Pow10(f);
      DivMod(n, p);
      NatToString(n / p) + "." + PadDigits(n % p, f)
  }

  lemma DivMod(n: nat, p: nat)
    requires p > 0
    ensures 0 <= n / p && 0 <= n % p < p && n == n / p * p + n % p
  {
  }

  /** `x.toFixed(f)`: a minus sign for negative `x`, then the magnitude
      rounded to `f` decimals. */
  function ToFixed(x: real, f: nat): string {
    if x < 0.0 then "-" + DecimalText(FixedDigits(-x, f), f)
    else DecimalText(FixedDigits(x, f), f)
  }

  /** The position of the first `c` in `t`, if any. */
  function IndexOfChar(t: string, c: char): (r: Option<nat>)
    ensures r.Some? ==> r.value < |t| && t[r.value] == c && c !in t[..r.value]
    ensures r.None? ==> c !in t
  {
    if |t| == 0 then None
    else if t[0] == c then Some(0)
    else
      match IndexOfChar(t[1..], c)
      case None => None
      case Some(k) =>
        assert t[..k + 1] == [t[0]] + t[1..][..k];
        Some(k + 1)
  }

  predicate AllDigits(s: string) {
    forall i :: 0 <= i < |s| ==> IsDigit(s[i])
  }

  /** Reads a decimal text back as `(n, f)`, denoting `n / 10^f`: an
      optional minus sign, one or more digits, then optionally a point and
      one or more digits. */
  function ParseDecimal(t: string): Option<(int, nat)> {
    if |t| > 0 && t[0] == '-' then
      match ParseUnsigned(t[1..])
      case None => None
      case Some((n, f)) => Some((-n, f))
    else ParseUnsigned(t)
  }

  function ParseUnsigned(t: string): Option<(int, nat)> {
    match IndexOfChar(t, '.')
    case None =>
      if t != [] && AllDigits(t) then Some((DigitsValue(t) as int, 0)) else None
    case Some(k) =>
      var a, b := t[..k], t[k + 1..];
      if a != [] && b != [] && AllDigits(a) && AllDigits(b) then
        Some(((DigitsValue(a) * Pow10(|b|) + DigitsValue(b)) as int, |b|))
      else None
  }

  /** The text of `DecimalText(n, f)` denotes exactly `n / 10^f`. */
  lemma DecimalTextRoundTrip(n: nat, f: nat)
    ensures ParseUnsigned(DecimalText(n, f)) == Some((n as int, f))
  {
    if f == 0 {
      var whole := NatToString(n);
      NatToStringRoundTrip(n);
      NoPointInDigits(whole);
    } else {
      var p := Pow10(f);
      DivMod(n, p);
      var q, m := n / p, n % p;
      var whole, frac := NatToString(q), PadDigits(m, f);
      var t := whole + "." + frac;
      assert DecimalText(n, f) == t;
      NatToStringRoundTrip(q);
      NoPointInDigits(whole);
      assert t[|whole|] == '.' && t[..|whole|] == whole;
      IndexOfCharAt(t, '.', |whole|);
      assert t[|whole| + 1..] == frac;
      assert DigitsValue(whole) * Pow10(|frac|) + DigitsValue(frac) == n;
    }
  }

  lemma NoPointInDigits(s: string)
    requires AllDigits(s)
    ensures '.' !in s
  {
    forall i | 0 <= i < |s|
      ensures s[i] != '.'
    {
      assert IsDigit(s[i]);
    }
  }

  /** The first occurrence is where the character appears first. */
  lemma {:induction false} IndexOfCharAt(t: string, c: char, k: nat)
    requires k < |t| && t[k] == c && c !in t[..k]
    ensures IndexOfChar(t, c) == Some(k)
  {
    if k > 0 {
      assert t[0] in t[..k];
      assert t[1..][..k - 1] == t[1..k];
      assert c !in t[1..][..k - 1] by {
        var u := t[1..][..k - 1];
        assert forall i :: 0 <= i < |u| ==> u[i] == t[..k][i + 1];
      }
      IndexOfCharAt(t[1..], c, k - 1);
    }
  }

  /** `toFixed` is faithful: its text reads back as a number with `f`
      decimals that lies within half a unit of the last place of `x`. */
  lemma ToFixedValue(x: real, f: nat)
    ensures ParseDecimal(ToFixed(x, f)).Some?
    ensures ParseDecimal(ToFixed(x, f)).value.1 == f
    ensures var n := ParseDecimal(ToFixed(x, f)).value.0;
      n as real - 0.5 <= Scaled(x, f) <= n as real + 0.5
  {
    if x < 0.0 {
      ToFixedNegative(x, f);
    } else {
      ToFixedNonNegative(x, f);
    }
  }

  lemma ToFixedNonNegative(x: real, f: nat)
    requires x >= 0.0
    ensures ParseDecimal(ToFixed(x, f)) == Some((FixedDigits(x, f) as int, f))
    ensures |ToFixed(x, f)| > 0 && IsDigit(ToFixed(x, f)[0])
  {
    var d := DecimalText(FixedDigits(x, f), f);
    assert ToFixed(x, f) == d;
    DecimalTextStartsWithDigit(FixedDigits(x, f), f);
    DecimalTextRoundTrip(FixedDigits(x, f), f);
  }

  lemma ToFixedNegative(x: real, f: nat)
    requires x < 0.0
    ensures ParseDecimal(ToFixed(x, f)) == Some((-(FixedDigits(-x, f) as int), f))
    ensures Scaled(-x, f) == -Scaled(x, f)
    ensures |ToFixed(x, f)| > 1 && ToFixed(x, f)[0] == '-' && IsDigit(ToFixed(x, f)[1])
  {
    var d := DecimalText(FixedDigits(-x, f), f);
    assert ToFixed(x, f) == "-" + d;
    assert ("-" + d)[1..] == d;
    DecimalTextStartsWithDigit(FixedDigits(-x, f), f);
    DecimalTextRoundTrip(FixedDigits(-x, f), f);
    ScaledNegate(x, f);
  }

  lemma DecimalTextStartsWithDigit(n: nat, f: nat)
    ensures |DecimalText(n, f)| > 0 && IsDigit(DecimalText(n, f)[0])
  {
    if f > 0 {
      var p := Pow10(f);
      DivMod(n, p);
      var whole := NatToString(n / p);
      assert DecimalText(n, f)[0] == whole[0];
    }
  }

  // ---------------------------------------------------------------------
  // formatPrice
  // ---------------------------------------------------------------------

  const DefaultCurrency := "EUR"

  /** The currency handed to `Intl.NumberFormat`: the price's own when it
      is a non-empty string, otherwise euros. */
  function CurrencyOf(p: NormalizedPrice): (c: string)
    ensures c != ""
    ensures Filled(p.currency) ==> c == p.currency.value
    ensures !Filled(p.currency) ==> c == DefaultCurrency
  {
    if Filled(p.currency) then p.currency.value else DefaultCurrency
  }

  /** `formatPrice(price)`. `intl(amount, currency)` stands for
      `new Intl.NumberFormat("fr-FR", { style: "currency", currency,
      maximumFractionDigits: 0 }).format(amount)`, `None` meaning it threw
      (an invalid currency code). */
  function FormatPrice(price: Option<NormalizedPrice>, intl: (int, string) -> Option<string>): (r: Option<string>)
    ensures price.None? ==> r.None?
    ensures price.Some? && Filled(price.value.display) ==> r == price.value.display
    ensures price.Some? && !Filled(price.value.display) ==> (r.Some? <==> price.value.amount.Some?)
  {
    match price
    case None => None
    case Some(p) =>
      if Filled(p.display) then p.display
      else
        match p.amount
        case None => None
        case Some(a) =>
          var currency := CurrencyOf(p);
          match intl(a, currency)
          case Some(text) => Some(text)
          case None => Some(Trim(IntToString(a) + " " + currency))
  }

  /** Without a display text, an amount is formatted by `Intl` in the
      price's currency (euros by default), and when `Intl` throws the text
      still starts with the amount, which `parseInt` reads back. */
  lemma PriceFromAmount(p: NormalizedPrice, a: int, intl: (int, string) -> Option<string>)
    requires !Filled(p.display) && p.amount == Some(a)
    ensures intl(a, CurrencyOf(p)).Some? ==> FormatPrice(Some(p), intl) == intl(a, CurrencyOf(p))
    ensures intl(a, CurrencyOf(p)).None? ==>
      && FormatPrice(Some(p), intl).Some?
      && ParseIntPrefix(FormatPrice(Some(p), intl).value) == Some(a)
  {
    if intl(a, CurrencyOf(p)).None? {
      var text := Trim(IntToString(a) + " " + CurrencyOf(p));
      assert FormatPrice(Some(p), intl) == Some(text);
      FallbackPriceReadsBack(a, CurrencyOf(p));
    }
  }

  /** When `Intl` throws, the text is the amount and the currency (euros
      by default) separated by a space, or the amount alone when the
      currency is blank. */
  lemma PriceFallback(p: NormalizedPrice, a: int, intl: (int, string) -> Option<string>)
    requires !Filled(p.display) && p.amount == Some(a) && intl(a, CurrencyOf(p)).None?
    ensures Trimmed(CurrencyOf(p)) ==> FormatPrice(Some(p), intl) == Some(IntToString(a) + " " + CurrencyOf(p))
    ensures Blank(CurrencyOf(p)) ==> FormatPrice(Some(p), intl) == Some(IntToString(a))
    ensures !Filled(p.currency) ==> FormatPrice(Some(p), intl) == Some(IntToString(a) + " " + DefaultCurrency)
  {
    var c := CurrencyOf(p);
    FallbackUsed(p, a, intl);
    FallbackPriceText(a, c);
    if !Filled(p.currency) {
      assert Trimmed(DefaultCurrency) by {
        assert DefaultCurrency[0] == 'E' && DefaultCurrency[2] == 'R';
      }
    }
  }

  lemma FallbackUsed(p: NormalizedPrice, a: int, intl: (int, string) -> Option<string>)
    requires !Filled(p.display) && p.amount == Some(a) && intl(a, CurrencyOf(p)).None?
    ensures FormatPrice(Some(p), intl) == Some(Trim(IntToString(a) + " " + CurrencyOf(p)))
  {
  }

  /** The fallback text `${amount} ${currency}`, trimmed, still starts with
      the amount: `parseInt` reads it back whatever the currency. */
  lemma FallbackPriceReadsBack(a: int, currency: string)
    ensures ParseIntPrefix(Trim(IntToString(a) + " " + currency)) == Some(a)
  {
    var head := IntToString(a);
    var tail := " " + currency;
    assert head + " " + currency == head + tail;
    TrimKeepsNumber(head, tail);
    var rest := Trim(head + tail)[|head|..];
    NumberThenSpace(a, rest);
  }

  /** The fallback text is the amount, a space and the currency when the
      currency has no white space at either end, and the amount alone when
      the currency is blank. */
  lemma FallbackPriceText(a: int, currency: string)
    ensures currency != "" && Trimmed(currency) ==>
      Trim(IntToString(a) + " " + currency) == IntToString(a) + " " + currency
    ensures Blank(currency) ==> Trim(IntToString(a) + " " + currency) == IntToString(a)
  {
    var head := IntToString(a);
    var pad := " " + currency;
    assert head + " " + currency == head + pad;
    if currency != "" && Trimmed(currency) {
      var t := head + pad;
      assert t[0] == head[0] && t[|t| - 1] == currency[|currency| - 1];
      TrimOfTrimmed(t);
    }
    if Blank(currency) {
      assert Blank(pad) by {
        forall i | 0 <= i < |pad|
          ensures IsSpace(pad[i])
        {
          if i > 0 {
            assert pad[i] == currency[i - 1];
          }
        }
      }
      assert "" + head + pad == head + pad;
      TrimPadded("", head, pad);
    }
  }

  /** `parseInt` reads an integer's decimal text back when it is followed
      by nothing or by a space. */
  lemma NumberThenSpace(a: int, rest: string)
    requires rest == [] || rest[0] == ' '
    ensures ParseIntPrefix(IntToString(a) + rest) == Some(a)
  {
    var body := IntToString(a) + rest;
    assert body[0] == IntToString(a)[0];
    assert TrimStart(body) == body;
    assert rest == [] || !IsDigit(rest[0]);
    ParseIntPrefixUnpadded(a, rest);
  }

  /** Trimming `head + tail`, where `head` is trimmed text and `tail`
      starts with a space, leaves `head` followed by a prefix of `tail`
      that is empty or still starts with that space. */
  lemma TrimKeepsNumber(head: string, tail: string)
    requires head != [] && Trimmed(head)
    requires tail != [] && tail[0] == ' '
    ensures |head| <= |Trim(head + tail)|
    ensures Trim(head + tail) == head + Trim(head + tail)[|head|..]
    ensures |Trim(head + tail)| == |head| || Trim(head + tail)[|head|] == ' '
  {
    var s := head + tail;
    assert s[0] == head[0];
    assert TrimStart(s) == s;
    var t := TrimEnd(s);
    assert Trim(s) == t;
    TrimEndKeeps(head, tail);
    assert t[..|head|] == head by {
      assert t[..|head|] == s[..|head|];
      assert s[..|head|] == head;
    }
    if |t| > |head| {
      assert t[|head|] == s[|head|] == tail[0];
    }
    assert t == t[..|head|] + t[|head|..];
  }

  lemma {:induction false} TrimEndKeeps(head: string, tail: string)
    requires head != [] && !IsSpace(head[|head| - 1])
    ensures |head| <= |TrimEnd(head + tail)|
    decreases |tail|
  {
    var s := head + tail;
    if |tail| == 0 {
      assert s == head;
      assert TrimEnd(s) == s;
    } else if IsSpace(s[|s| - 1]) {
      assert s[..|s| - 1] == head + tail[..|tail| - 1];
      TrimEndKeeps(head, tail[..|tail| - 1]);
      assert TrimEnd(s) == TrimEnd(head + tail[..|tail| - 1]);
    } else {
      assert TrimEnd(s) == s;
    }
  }

  // ---------------------------------------------------------------------
  // formatLocation
  // ---------------------------------------------------------------------

  /** `Boolean(part && part.trim())`. */
  predicate NonBlank(o: Option<string>) {
    o.Some? && Trim(o.value) != ""
  }

  /** One location field after the filter and the map: its trimmed text
      when it is not blank, and nothing otherwise. */
  function KeepOne(o: Option<string>): (r: seq<string>)
    ensures |r| <= 1
    ensures r == [] <==> !NonBlank(o)
    ensures |r| == 1 ==> r[0] != "" && Trimmed(r[0])
  {
    if NonBlank(o) then [Trim(o.value)] else []
  }

  /** `.filter(part => Boolean(part && part.trim())).map(part => part.trim())`. */
  function KeepNonBlank(parts: seq<Option<string>>): (r: seq<string>)
    ensures |r| <= |parts|
  {
    if |parts| == 0 then [] else KeepOne(parts[0]) + KeepNonBlank(parts[1..])
  }

  /** Every kept part is non-empty and trimmed. */
  lemma {:induction false} KeepNonBlankClean(parts: seq<Option<string>>)
    ensures forall i :: 0 <= i < |KeepNonBlank(parts)| ==>
      KeepNonBlank(parts)[i] != "" && Trimmed(KeepNonBlank(parts)[i])
  {
    if |parts| > 0 {
      KeepNonBlankClean(parts[1..]);
      assert KeepNonBlank(parts) == KeepOne(parts[0]) + KeepNonBlank(parts[1..]);
      CleanAppend(KeepOne(parts[0]), KeepNonBlank(parts[1..]));
    }
  }

  lemma CleanAppend(a: seq<string>, b: seq<string>)
    requires forall i :: 0 <= i < |a| ==> a[i] != "" && Trimmed(a[i])
    requires forall i :: 0 <= i < |b| ==> b[i] != "" && Trimmed(b[i])
    ensures forall i :: 0 <= i < |a + b| ==> (a + b)[i] != "" && Trimmed((a + b)[i])
  {
    forall i | 0 <= i < |a + b|
      ensures (a + b)[i] != "" && Trimmed((a + b)[i])
    {
      if i >= |a| {
        assert (a + b)[i] == b[i - |a|];
      }
    }
  }

  /** Nothing is kept exactly when every part is missing or blank. */
  lemma {:induction false} KeepNonBlankEmpty(parts: seq<Option<string>>)
    ensures KeepNonBlank(parts) == [] <==> forall i :: 0 <= i < |parts| ==> !NonBlank(parts[i])
  {
    if |parts| > 0 {
      var tail := parts[1..];
      KeepNonBlankEmpty(tail);
      assert KeepNonBlank(parts) == KeepOne(parts[0]) + KeepNonBlank(tail);
      if forall i :: 0 <= i < |parts| ==> !NonBlank(parts[i]) {
        assert forall i :: 0 <= i < |tail| ==> !NonBlank(tail[i]) by {
          forall i | 0 <= i < |tail| ensures !NonBlank(tail[i]) {
            assert tail[i] == parts[i + 1];
          }
        }
      } else {
        var k :| 0 <= k < |parts| && NonBlank(parts[k]);
        if k > 0 {
          assert tail[k - 1] == parts[k];
        }
      }
    }
  }

  /** The location fields from the most to the least specific. */
  function LocationParts(w: WineResult): seq<Option<string>> {
    [w.appellation, w.subregion, w.region, w.country]
  }

  const LocationSeparator := " · "

  /** `formatLocation(wine)`: the trimmed non-blank location fields joined
      by a middle dot, or `null` when there are none. */
  function FormatLocation(w: WineResult): (r: Option<string>)
    ensures r.None? <==> forall i :: 0 <= i < 4 ==> !NonBlank(LocationParts(w)[i])
    ensures r.Some? ==> r.value != "" && Trimmed(r.value)
  {
    var parts := KeepNonBlank(LocationParts(w));
    KeepNonBlankEmpty(LocationParts(w));
    if parts == [] then None
    else
      KeepNonBlankClean(LocationParts(w));
      JoinTrimmed(parts, LocationSeparator);
      Some(Join(parts, LocationSeparator))
  }

  /** Joining non-empty trimmed pieces gives non-empty trimmed text,
      whatever the separator. */
  lemma {:induction false} JoinTrimmed(parts: seq<string>, sep: string)
    requires |parts| > 0
    requires forall i :: 0 <= i < |parts| ==> parts[i] != "" && Trimmed(parts[i])
    ensures var j := Join(parts, sep);
      && |j| >= |parts[0]| && j[..|parts[0]|] == parts[0]
      && j != "" && Trimmed(j)
  {
    if |parts| > 1 {
      var rest := Join(parts[1..], sep);
      JoinTrimmed(parts[1..], sep);
      var j := parts[0] + sep + rest;
      assert j[0] == parts[0][0];
      assert j[|j| - 1] == rest[|rest| - 1];
      assert j[..|parts[0]|] == parts[0];
    }
  }

  /** Blank fields are skipped: the text starts with the first non-blank
      field, trimmed, in appellation, subregion, region, country order. */
  lemma LocationStartsWithFirst(w: WineResult, k: nat)
    requires k < 4 && NonBlank(LocationParts(w)[k])
    requires forall i :: 0 <= i < k ==> !NonBlank(LocationParts(w)[i])
    ensures var head := Trim(LocationParts(w)[k].value);
      var r := FormatLocation(w);
      && r.Some? && |head| <= |r.value| && r.value[..|head|] == head
  {
    var ps := LocationParts(w);
    KeepNonBlankFirst(ps, k);
    var parts := KeepNonBlank(ps);
    KeepNonBlankClean(ps);
    JoinTrimmed(parts, LocationSeparator);
  }

  lemma {:induction false} KeepNonBlankFirst(ps: seq<Option<string>>, k: nat)
    requires k < |ps| && NonBlank(ps[k])
    requires forall i :: 0 <= i < k ==> !NonBlank(ps[i])
    ensures var r := KeepNonBlank(ps); |r| > 0 && r[0] == Trim(ps[k].value)
    decreases k
  {
    if k > 0 {
      assert !NonBlank(ps[0]);
      KeepNonBlankFirst(ps[1..], k - 1);
    }
  }

  /** A wine with a single non-blank location field shows just that
      field, trimmed. */
  lemma LocationOfOne(w: WineResult, k: nat)
    requires k < 4 && NonBlank(LocationParts(w)[k])
    requires forall i :: 0 <= i < 4 && i != k ==> !NonBlank(LocationParts(w)[i])
    ensures FormatLocation(w) == Some(Trim(LocationParts(w)[k].value))
  {
    var ps := LocationParts(w);
    KeepNonBlankOnly(ps, k);
  }

  lemma {:induction false} KeepNonBlankOnly(ps: seq<Option<string>>, k: nat)
    requires k < |ps| && NonBlank(ps[k])
    requires forall i :: 0 <= i < |ps| && i != k ==> !NonBlank(ps[i])
    ensures KeepNonBlank(ps) == [Trim(ps[k].value)]
    decreases k
  {
    if k > 0 {
      assert !NonBlank(ps[0]);
      KeepNonBlankOnly(ps[1..], k - 1);
    } else {
      var rest := ps[1..];
      assert forall i :: 0 <= i < |rest| ==> !NonBlank(rest[i]) by {
        forall i | 0 <= i < |rest| ensures !NonBlank(rest[i]) {
          assert rest[i] == ps[i + 1];
        }
      }
      KeepNonBlankEmpty(rest);
    }
  }

  /** Which location fields pass the filter. */
  function Flags(parts: seq<Option<string>>): (r: seq<bool>)
    ensures |r| == |parts|
  {
    seq(|parts|, j requires 0 <= j < |parts| => NonBlank(parts[j]))
  }

  /** The positions, from `i` on, of the set flags, in increasing order. */
  function KeptFrom(flags: seq<bool>, i: nat): (r: seq<nat>)
    requires i <= |flags|
    ensures forall k :: 0 <= k < |r| ==> i <= r[k] < |flags| && flags[r[k]]
    decreases |flags| - i
  {
    if i == |flags| then []
    else
      var rest := KeptFrom(flags, i + 1);
      if flags[i] then
        assert forall k :: 1 <= k <= |rest| ==> ([i] + rest)[k] == rest[k - 1];
        [i] + rest
      else rest
  }

  /** The positions `KeptFrom` lists come in increasing order, and every
      set flag's position is listed. */
  lemma {:induction false} KeptFromIncreasing(flags: seq<bool>, i: nat)
    requires i <= |flags|
    ensures forall k, l :: 0 <= k < l < |KeptFrom(flags, i)| ==> KeptFrom(flags, i)[k] < KeptFrom(flags, i)[l]
    decreases |flags| - i
  {
    if i < |flags| {
      KeptFromIncreasing(flags, i + 1);
      var rest := KeptFrom(flags, i + 1);
      if flags[i] {
        var r := [i] + rest;
        assert KeptFrom(flags, i) == r;
        forall k, l | 0 <= k < l < |r|
          ensures r[k] < r[l]
        {
          assert r[l] == rest[l - 1];
          if k > 0 {
            assert r[k] == rest[k - 1];
          }
        }
      }
    }
  }

  lemma {:induction false} KeptFromComplete(flags: seq<bool>, i: nat)
    requires i <= |flags|
    ensures forall j :: i <= j < |flags| && flags[j] ==> j in KeptFrom(flags, i)
    decreases |flags| - i
  {
    if i < |flags| {
      KeptFromComplete(flags, i + 1);
      var rest := KeptFrom(flags, i + 1);
      if flags[i] {
        assert KeptFrom(flags, i) == [i] + rest;
      } else {
        assert KeptFrom(flags, i) == rest;
      }
    }
  }

  /** The trimmed texts of the non-blank fields, in field order. */
  function KeptTexts(parts: seq<Option<string>>): seq<string> {
    var ks := KeptFrom(Flags(parts), 0);
    seq(|ks|, k requires 0 <= k < |ks| => Shown(parts)[ks[k]])
  }

  lemma {:induction false} KeepNonBlankFrom(parts: seq<Option<string>>, i: nat)
    requires i <= |parts|
    ensures Picks(KeepNonBlank(parts[i..]), KeptFrom(Flags(parts), i), Shown(parts))
    decreases |parts| - i
  {
    if i < |parts| {
      KeepNonBlankFrom(parts, i + 1);
      KeepNonBlankStep(parts, i);
      var flags := Flags(parts);
      var r', ks' := KeepNonBlank(parts[i + 1..]), KeptFrom(flags, i + 1);
      if flags[i] {
        assert KeptFrom(flags, i) == [i] + ks';
        assert KeepOne(parts[i]) == [Shown(parts)[i]];
        PicksCons(r', ks', i, Shown(parts));
      } else {
        assert KeptFrom(flags, i) == ks';
        assert KeepOne(parts[i]) == [];
        assert KeepNonBlank(parts[i..]) == r';
      }
    }
  }

  /** Each field's trimmed text, or `""` when it is missing. */
  function Shown(parts: seq<Option<string>>): (r: seq<string>)
    ensures |r| == |parts|
  {
    seq(|parts|, j requires 0 <= j < |parts| => if parts[j].Some? then Trim(parts[j].value) else "")
  }

  /** `r` is `src` read at the positions `ks`. */
  ghost predicate Picks<T>(r: seq<T>, ks: seq<nat>, src: seq<T>) {
    && |r| == |ks|
    && forall k :: 0 <= k < |ks| ==> ks[k] < |src| && r[k] == src[ks[k]]
  }

  lemma PicksCons<T>(r: seq<T>, ks: seq<nat>, i: nat, src: seq<T>)
    requires Picks(r, ks, src) && i < |src|
    ensures Picks([src[i]] + r, [i] + ks, src)
  {
    var r2, ks2 := [src[i]] + r, [i] + ks;
    forall k | 0 <= k < |ks2|
      ensures ks2[k] < |src| && r2[k] == src[ks2[k]]
    {
      if k > 0 {
        assert r2[k] == r[k - 1] && ks2[k] == ks[k - 1];
      }
    }
  }

  lemma KeepNonBlankStep(parts: seq<Option<string>>, i: nat)
    requires i < |parts|
    ensures KeepNonBlank(parts[i..]) == KeepOne(parts[i]) + KeepNonBlank(parts[i + 1..])
  {
    var tail := parts[i..];
    assert tail[0] == parts[i] && tail[1..] == parts[i + 1..];
  }

  /** The filter and the map keep exactly the non-blank fields, trimmed,
      in field order. */
  lemma KeepNonBlankIsKeptTexts(parts: seq<Option<string>>)
    ensures KeepNonBlank(parts) == KeptTexts(parts)
  {
    KeepNonBlankFrom(parts, 0);
    assert parts[0..] == parts;
    var r, ks := KeepNonBlank(parts), KeptFrom(Flags(parts), 0);
    forall k | 0 <= k < |ks|
      ensures r[k] == KeptTexts(parts)[k]
    {
      assert r[k] == Shown(parts)[ks[k]];
    }
  }

  /** `formatLocation` joins with `" · "` the trimmed non-blank fields,
      in the order appellation, subregion, region, country, and gives
      nothing when there are none. */
  lemma LocationText(w: WineResult)
    ensures KeptTexts(LocationParts(w)) == [] ==> FormatLocation(w).None?
    ensures KeptTexts(LocationParts(w)) != [] ==>
      FormatLocation(w) == Some(Join(KeptTexts(LocationParts(w)), LocationSeparator))
  {
    KeepNonBlankIsKeptTexts(LocationParts(w));
  }

  // ---------------------------------------------------------------------
  // formatRating
  // ---------------------------------------------------------------------

  /** The number a rating stands for: itself, or `Number.parseFloat` of
      the text. `parseFloat` is a parameter; `None` stands for a result
      that is not finite (`NaN` or an infinity). */
  function RatingValue(rating: Rating, parseFloat: string -> Option<real>): Option<real> {
    match rating
    case NoRating => None
    case RatingNumber(x) => Some(x)
    case RatingText(s) => if s == "" then None else parseFloat(s)
  }

  const OutOfFive := "/5"
  const CountSeparator := " · "
  const ReviewsWord := " avis"

  /** `formatRating(rating, ratingCount)`: the value to one decimal out of
      5, followed by the number of reviews when that is a positive number. */
  function FormatRating(rating: Rating, count: Option<int>, parseFloat: string -> Option<real>): (r: Option<string>)
    ensures r.None? <==> RatingValue(rating, parseFloat).None?
    ensures rating.NoRating? || rating == RatingText("") ==> r.None?
  {
    match RatingValue(rating, parseFloat)
    case None => None
    case Some(x) =>
      var base := ToFixed(x, 1) + OutOfFive;
      if count.Some? && count.value > 0 then Some(base + CountSeparator + IntToString(count.value) + ReviewsWord)
      else Some(base)
  }

  predicate EndsWith(s: string, suffix: string) {
    |suffix| <= |s| && s[|s| - |suffix|..] == suffix
  }

  /** The review count is shown exactly when it is a positive number, and
      the text always starts with the rating to one decimal. */
  lemma RatingShape(rating: Rating, count: Option<int>, parseFloat: string -> Option<real>)
    requires RatingValue(rating, parseFloat).Some?
    ensures var r := FormatRating(rating, count, parseFloat).value;
      var x := RatingValue(rating, parseFloat).value;
      && |ToFixed(x, 1)| <= |r| && r[..|ToFixed(x, 1)|] == ToFixed(x, 1)
      && (EndsWith(r, ReviewsWord) <==> count.Some? && count.value > 0)
  {
    var x := RatingValue(rating, parseFloat).value;
    var fixed := ToFixed(x, 1);
    var base := fixed + OutOfFive;
    var r := FormatRating(rating, count, parseFloat).value;
    assert r[..|fixed|] == fixed;
    if !(count.Some? && count.value > 0) {
      assert r == base;
      assert r[|r| - 1] == '5';
    }
  }

  /** `base · count avis`: the rating out of five, the separator, a text
      that `parseInt` reads as the count, and the word for reviews. */
  predicate CountedRating(r: string, fixed: string, count: int) {
    && |fixed + OutOfFive + CountSeparator| + |ReviewsWord| <= |r|
    && r[..|fixed + OutOfFive + CountSeparator|] == fixed + OutOfFive + CountSeparator
    && EndsWith(r, ReviewsWord)
    && ParseInt(r[|fixed + OutOfFive + CountSeparator|..|r| - |ReviewsWord|]) == Some(count)
  }

  /** The whole rating text: the value to one decimal and `"/5"`, then,
      for a positive count, `" · "`, the count and `" avis"`. */
  lemma RatingFullText(rating: Rating, count: Option<int>, parseFloat: string -> Option<real>)
    requires RatingValue(rating, parseFloat).Some?
    ensures !(count.Some? && count.value > 0) ==>
      FormatRating(rating, count, parseFloat) == Some(ToFixed(RatingValue(rating, parseFloat).value, 1) + OutOfFive)
    ensures count.Some? && count.value > 0 ==>
      CountedRating(FormatRating(rating, count, parseFloat).value, ToFixed(RatingValue(rating, parseFloat).value, 1), count.value)
  {
    if count.Some? && count.value > 0 {
      var head := ToFixed(RatingValue(rating, parseFloat).value, 1) + OutOfFive + CountSeparator;
      var t := IntToString(count.value);
      var r := FormatRating(rating, count, parseFloat).value;
      assert r == head + t + ReviewsWord;
      assert r[..|head|] == head;
      assert r[|head|..|r| - |ReviewsWord|] == t;
      assert r[|r| - |ReviewsWord|..] == ReviewsWord;
      IntToStringRoundTrip(count.value);
    }
  }

  /** A numeric rating and a text that `parseFloat` reads as the same
      number are shown identically. */
  lemma RatingTextAsNumber(s: string, x: real, count: Option<int>, parseFloat: string -> Option<real>)
    requires s != "" && parseFloat(s) == Some(x)
    ensures FormatRating(RatingText(s), count, parseFloat) == FormatRating(RatingNumber(x), count, parseFloat)
  {
  }

  // ---------------------------------------------------------------------
  // formatVintage
  // ---------------------------------------------------------------------

  const VintagePrefix := "Millésime "

  /** `/^\d{4}$/`: exactly four ASCII digits. */
  predicate IsYear(t: string) {
    |t| == 4 && AllDigits(t)
  }

  /** `formatVintage(wine)`: a non-zero number or a four-digit text gets
      the "Millésime" prefix, other non-blank text is shown trimmed, and a
      missing, zero or blank vintage shows nothing. */
  function FormatVintage(v: Vintage): (r: Option<string>)
    ensures r.None? <==> v.NoVintage? || v == YearNumber(0) || (v.YearText? && Blank(v.s))
    ensures r.Some? ==> r.value != "" && Trimmed(r.value)
    ensures v.YearText? && !Blank(v.s) && IsYear(Trim(v.s)) ==> r == Some(VintagePrefix + Trim(v.s))
    ensures v.YearText? && !Blank(v.s) && !IsYear(Trim(v.s)) ==> r == Some(Trim(v.s))
  {
    match v
    case NoVintage => None
    case YearNumber(n) => if n == 0 then None else Some(VintagePrefix + IntToString(n))
    case YearText(s) =>
      if s == "" then None
      else
        var t := Trim(s);
        if t == "" then None
        else if IsYear(t) then Some(VintagePrefix + t)
        else Some(t)
  }

  /** A numeric vintage can be read back from its text. */
  lemma VintageNumberRoundTrip(n: int)
    requires n != 0
    ensures var r := FormatVintage(YearNumber(n)).value;
      && |VintagePrefix| <= |r| && r[..|VintagePrefix|] == VintagePrefix
      && ParseInt(r[|VintagePrefix|..]) == Some(n)
  {
    var r := VintagePrefix + IntToString(n);
    assert r[|VintagePrefix|..] == IntToString(n);
    IntToStringRoundTrip(n);
  }

  /** A four-digit year shows the same whether it arrives as a number or
      as text. */
  lemma VintageTextAgreesWithNumber(n: int)
    requires 1000 <= n <= 9999
    ensures FormatVintage(YearText(IntToString(n))) == FormatVintage(YearNumber(n))
  {
    var t := IntToString(n);
    FourDigits(n);
    TrimOfTrimmed(t);
  }

  lemma FourDigits(n: nat)
    requires 1000 <= n <= 9999
    ensures |NatToString(n)| == 4
  {
    assert NatToString(n / 1000) == [DigitChar(n / 1000)];
    assert |NatToString(n / 100)| == 2;
    assert |NatToString(n / 10)| == 3;
  }

  /** White space around a vintage text does not change how it shows. */
  lemma VintageIgnoresPadding(a: string, t: string, b: string)
    requires Blank(a) && Blank(b) && t != "" && Trimmed(t)
    ensures FormatVintage(YearText(a + t + b)) == FormatVintage(YearText(t))
  {
    var s := a + t + b;
    assert |s| >= |t|;
    TrimPadded(a, t, b);
    TrimOfTrimmed(t);
    VintageTextByTrim(s);
  }

  /** A non-empty vintage text shows according to its trimmed content
      alone. */
  lemma VintageTextByTrim(s: string)
    requires s != ""
    ensures FormatVintage(YearText(s)) == FormatVintage(YearText(Trim(s)))
  {
    var t := Trim(s);
    if t != "" {
      TrimOfTrimmed(t);
      assert FormatVintage(YearText(s)) == if IsYear(t) then Some(VintagePrefix + t) else Some(t);
    }
  }

  // ---------------------------------------------------------------------
  // formatBottleSize
  // ---------------------------------------------------------------------

  /** Decimals shown for a volume in litres: two below one litre, one from
      one litre up. */
  function LitreDecimals(litres: real): nat {
    if litres < 1.0 then 2 else 1
  }

  /** `formatBottleSize(price)`: the bottle size in litres, `"0.75 L"`
      for 750 ml; nothing when the size is missing or zero. */
  function FormatBottleSize(price: Option<NormalizedPrice>): (r: Option<string>)
    ensures r.None? <==> price.None? || price.value.bottleSizeMl.None? || price.value.bottleSizeMl == Some(0)
    ensures r.Some? ==> EndsWith(r.value, " L")
  {
    if price.None? || price.value.bottleSizeMl.None? || price.value.bottleSizeMl == Some(0) then None
    else
      var litres := price.value.bottleSizeMl.value as real / 1000.0;
      Some(ToFixed(litres, LitreDecimals(litres)) + " L")
  }

  /** The number shown is the size in litres rounded to two decimals
      below one litre and to one decimal from one litre up. */
  lemma BottleSizeValue(p: NormalizedPrice, ml: int)
    requires p.bottleSizeMl == Some(ml) && ml != 0
    ensures var r := FormatBottleSize(Some(p)).value;
      var f := if ml < 1000 then 2 else 1;
      && ParseDecimal(r[..|r| - 2]).Some?
      && var (n, g) := ParseDecimal(r[..|r| - 2]).value;
      && g == f
      && n as real - 0.5 <= Scaled(ml as real / 1000.0, f) <= n as real + 0.5
  {
    var litres := ml as real / 1000.0;
    var f := if ml < 1000 then 2 else 1;
    assert litres < 1.0 <==> ml < 1000;
    assert LitreDecimals(litres) == f;
    var text := ToFixed(litres, f);
    var r := FormatBottleSize(Some(p)).value;
    assert r == text + " L";
    assert r[..|r| - 2] == text;
    ToFixedValue(litres, f);
  }

  // ---------------------------------------------------------------------
  // Examples
  // ---------------------------------------------------------------------

  /** 750 ml shows as `"0.75 L"`. */
  lemma BottleSizeExample750(p: NormalizedPrice)
    requires p == NormalizedPrice(None, None, None, Some(750))
    ensures FormatBottleSize(Some(p)) == Some("0.75 L")
  {
    var litres := 750 as real / 1000.0;
    assert litres == 0.75;
    assert LitreDecimals(litres) == 2;
    ToFixedExample750();
    assert "0.75" + " L" == "0.75 L";
  }

  /** 1500 ml shows as `"1.5 L"`. */
  lemma BottleSizeExample1500(p: NormalizedPrice)
    requires p == NormalizedPrice(None, None, None, Some(1500))
    ensures FormatBottleSize(Some(p)) == Some("1.5 L")
  {
    var litres := 1500 as real / 1000.0;
    assert litres == 1.5;
    assert LitreDecimals(litres) == 1;
    ToFixedExample1500();
    assert "1.5" + " L" == "1.5 L";
  }

  /** A rating of 4 with 12 reviews shows as `"4.0/5 · 12 avis"`. */
  lemma RatingExample(rating: Rating, count: Option<int>, parseFloat: string -> Option<real>)
    requires rating == RatingNumber(4.0) && count == Some(12)
    ensures FormatRating(rating, count, parseFloat) == Some("4.0/5 · 12 avis")
  {
    ToFixedExample4();
    assert NatToString(1) == "1" && NatToString(12) == NatToString(1) + "2";
    assert IntToString(12) == "12";
    assert "4.0" + "/5" + " · " + "12" + ReviewsWord == "4.0/5 · 12 avis";
  }

  lemma ToFixedExample750()
    ensures ToFixed(0.75, 2) == "0.75"
  {
    assert Scaled(0.75, 1) == 7.5;
    assert Scaled(0.75, 2) == 75.0;
    assert FixedDigits(0.75, 2) == 75;
    assert Pow10(2) == 100;
    assert PadDigits(7, 1) == "7";
    assert PadDigits(75, 2) == "75";
    assert NatToString(0) == "0";
  }

  lemma ToFixedExample1500()
    ensures ToFixed(1.5, 1) == "1.5"
  {
    assert Scaled(1.5, 1) == 15.0;
    assert FixedDigits(1.5, 1) == 15;
    assert Pow10(1) == 10;
    assert PadDigits(5, 1) == "5";
    assert NatToString(1) == "1";
  }

  lemma ToFixedExample4()
    ensures ToFixed(4.0, 1) == "4.0"
  {
    assert Scaled(4.0, 1) == 40.0;
    assert FixedDigits(4.0, 1) == 40;
    assert Pow10(1) == 10;
    assert PadDigits(0, 1) == "0";
    assert NatToString(4) == "4";
  }
}

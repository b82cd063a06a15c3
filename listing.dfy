/** The listing endpoint `GET /api/articles`: query defaults, `parseInt` of the page
    and limit, the choice between an HTML fragment for HTMX and JSON, and the
    decisions inside the fragment (no-more message, featured card, end marker, the
    category colour class). The card markup itself is not modelled. */
module ListingEndpoint {
  import opened Wrappers
  import Text
  import Articles

  /** `params.get(name) || fallback`: an absent or empty parameter takes the default. */
  function ParamOr(raw: Option<string>, fallback: string): (r: string)
    ensures Text.Truthy(raw) ==> r == raw.value
    ensures !Text.Truthy(raw) ==> r == fallback
  {
    if Text.Truthy(raw) then raw.value else fallback
  }

  // ---------------------------------------------------------------------------
  // parseInt with no radix argument

  function DigitValue(c: char, radix: nat): (r: Option<nat>)
    ensures r.Some? ==> r.value < radix
  {
    if '0' <= c <= '9' && (c as int - '0' as int) < radix then Some(c as int - '0' as int)
    else if 'a' <= c <= 'z' && (c as int - 'a' as int) + 10 < radix then Some(c as int - 'a' as int + 10)
    else if 'A' <= c <= 'Z' && (c as int - 'A' as int) + 10 < radix then Some(c as int - 'A' as int + 10)
    else None
  }

  predicate IsDigit(c: char, radix: nat) { DigitValue(c, radix).Some? }

  /** The value of the leading run of digits, accumulated onto `acc`. */
  function Accumulate(s: string, radix: nat, acc: nat): nat {
    if s == [] || !IsDigit(s[0], radix) then acc
    else Accumulate(s[1..], radix, acc * radix + DigitValue(s[0], radix).value)
  }

  function StripSign(t: string): string {
    if t != [] && (t[0] == '-' || t[0] == '+') then t[1..] else t
  }

  predicate HexPrefixed(u: string) {
    |u| >= 2 && u[0] == '0' && (u[1] == 'x' || u[1] == 'X')
  }

  /** The digits after the sign: in radix 16 after a `0x`/`0X` prefix, else in
      radix 10; `None` when the first character is no digit. */
  function ParseUnsigned(u: string): Option<nat> {
    var radix := if HexPrefixed(u) then 16 else 10;
    var v := if HexPrefixed(u) then u[2..] else u;
    if v == [] || !IsDigit(v[0], radix) then None else Some(Accumulate(v, radix, 0))
  }

  /** `parseInt(s)`: leading white space skipped, an optional sign, then the longest
      run of digits; no digit gives NaN, written `None`. */
  function ParseInt(s: string): Option<int> {
    var t := Text.TrimStart(s);
    match ParseUnsigned(StripSign(t))
    case None => None
    case Some(n) =>
      var m: int := n;
      Some(if t != [] && t[0] == '-' then -m else m)
  }

  /** The decimal numeral of `n`, as `String(n)` writes it. */
  function Decimal(n: nat): (r: string)
    ensures r != [] && forall i :: 0 <= i < |r| ==> '0' <= r[i] <= '9'
  {
    var d := ['0' + ((n % 10) as char)];
    if n < 10 then d else Decimal(n / 10) + d
  }

  lemma {:induction false} AccumulateAppend(a: string, b: string, radix: nat, acc: nat)
    requires forall i :: 0 <= i < |a| ==> IsDigit(a[i], radix)
    ensures Accumulate(a + b, radix, acc) == Accumulate(b, radix, Accumulate(a, radix, acc))
  {
    if a == [] {
      assert a + b == b;
    } else {
      assert (a + b)[0] == a[0];
      assert (a + b)[1..] == a[1..] + b;
      AccumulateAppend(a[1..], b, radix, acc * radix + DigitValue(a[0], radix).value);
    }
  }

  lemma {:induction false} AccumulateDecimal(n: nat)
    ensures Accumulate(Decimal(n), 10, 0) == n
  {
    var d := ['0' + ((n % 10) as char)];
    assert d[1..] == [];
    if n >= 10 {
      AccumulateDecimal(n / 10);
      AccumulateAppend(Decimal(n / 10), d, 10, 0);
    }
  }

  /** A string that starts with a digit is left alone by the white-space skip, the
      sign strip and the hex-prefix test. */
  lemma DigitLead(s: string)
    requires s != [] && '0' <= s[0] <= '9'
    requires |s| >= 2 ==> '0' <= s[1] <= '9'
    ensures Text.TrimStart(s) == s
    ensures StripSign(s) == s
    ensures !HexPrefixed(s)
  {
    assert !Text.IsJsSpace(s[0]);
    assert Text.SpaceEnd(s, 0) == 0;
    assert s[0..] == s;
  }

  /** `parseInt` of a string that starts with two decimal digits (or is one) is the
      value of its leading run of digits. */
  lemma ParseDigits(s: string)
    requires s != [] && '0' <= s[0] <= '9'
    requires |s| >= 2 ==> '0' <= s[1] <= '9'
    ensures ParseInt(s) == Some(Accumulate(s, 10, 0))
  {
    DigitLead(s);
    UnsignedDigits(s);
  }

  lemma UnsignedDigits(s: string)
    requires s != [] && '0' <= s[0] <= '9'
    requires !HexPrefixed(s)
    ensures ParseUnsigned(s) == Some(Accumulate(s, 10, 0))
  {
    assert IsDigit(s[0], 10);
  }

  /** `parseInt` reads back every decimal numeral. */
  lemma ParseDecimal(n: nat)
    ensures ParseInt(Decimal(n)) == Some(n)
  {
    var s := Decimal(n);
    assert '0' <= s[0] <= '9';
    assert |s| >= 2 ==> '0' <= s[1] <= '9';
    ParseDigits(s);
    AccumulateDecimal(n);
  }

  /** A minus sign before a numeral negates it. */
  lemma ParseNegative(n: nat)
    ensures ParseInt("-" + Decimal(n)) == Some(-(n as int))
  {
    var d := Decimal(n);
    assert '0' <= d[0] <= '9';
    assert |d| >= 2 ==> '0' <= d[1] <= '9';
    AccumulateDecimal(n);
    ParseMinusDigits(d, n);
  }

  /** `parseInt` of a minus sign and digits worth `n` is `-n`. */
  lemma ParseMinusDigits(d: string, n: nat)
    requires d != [] && '0' <= d[0] <= '9'
    requires |d| >= 2 ==> '0' <= d[1] <= '9'
    requires Accumulate(d, 10, 0) == n
    ensures ParseInt("-" + d) == Some(-(n as int))
  {
    MinusLead(d);
    DigitLead(d);
    UnsignedDigits(d);
    var s := "-" + d;
    var t := Text.TrimStart(s);
    assert t == s && t != [] && t[0] == '-';
    assert ParseUnsigned(StripSign(t)) == Some(n);
  }

  lemma MinusLead(d: string)
    ensures Text.TrimStart("-" + d) == "-" + d
    ensures StripSign("-" + d) == d
  {
    var s := "-" + d;
    assert s[0] == '-' && s[1..] == d;
    assert !Text.IsJsSpace(s[0]);
    assert Text.SpaceEnd(s, 0) == 0;
    assert s[0..] == s;
  }

  /** Leading white space plays no part in `parseInt`. */
  lemma ParseSkipsSpace(c: char, s: string)
    requires Text.IsJsSpace(c)
    ensures ParseInt([c] + s) == ParseInt(s)
  {
    Text.TrimStartSkips(c, s);
  }

  // ---------------------------------------------------------------------------
  // Query

  const DefaultPage := "1"
  const DefaultCategory := "all"
  const DefaultLimit := "6"

  datatype Query = Query(page: Option<string>, category: Option<string>, limit: Option<string>)

  function PageOf(q: Query): Option<int> { ParseInt(ParamOr(q.page, DefaultPage)) }
  function LimitOf(q: Query): Option<int> { ParseInt(ParamOr(q.limit, DefaultLimit)) }
  function CategoryOf(q: Query): string { ParamOr(q.category, DefaultCategory) }

  /** The page and the limit both parse to positive numbers. */
  predicate Supported(q: Query) {
    PageOf(q).Some? && PageOf(q).value >= 1 && LimitOf(q).Some? && LimitOf(q).value >= 1
  }

  /** Missing parameters give page 1 of all categories, six articles to a page. */
  lemma QueryDefaults(q: Query)
    requires !Text.Truthy(q.page) && !Text.Truthy(q.category) && !Text.Truthy(q.limit)
    ensures Supported(q)
    ensures PageOf(q) == Some(1) && LimitOf(q) == Some(6) && CategoryOf(q) == "all"
  {
    assert Decimal(1) == DefaultPage;
    assert Decimal(6) == DefaultLimit;
    ParseDecimal(1);
    ParseDecimal(6);
  }

  // ---------------------------------------------------------------------------
  // Colour class

  const DefaultColor := "category-default"

  const CategoryColors: map<string, string> := map[
    "technology" := "category-tech",
    "science" := "category-science",
    "business" := "category-business",
    "culture" := "category-culture",
    "default" := DefaultColor]

  /** `getCategoryColor`: the class of the lowercased category, else the default. */
  function CategoryColor(category: string): (r: string)
    ensures r == DefaultColor <==>
      Text.ToLower(category) !in {"technology", "science", "business", "culture"}
    ensures r in CategoryColors.Values
  {
    var key := Text.ToLower(category);
    if key in CategoryColors && CategoryColors[key] != "" then CategoryColors[key] else CategoryColors["default"]
  }

  lemma {:induction false} ToLowerIdempotent(s: string)
    ensures Text.ToLower(Text.ToLower(s)) == Text.ToLower(s)
  {
    var t := Text.ToLower(s);
    forall i | 0 <= i < |t| ensures !Text.IsAsciiUpper(t[i]) {
      assert t[i] == Text.LowerChar(s[i]);
    }
    Text.ToLowerFixes(t);
  }

  /** The colour does not depend on letter case. */
  lemma CategoryColorIgnoresCase(category: string)
    ensures CategoryColor(Text.ToLower(category)) == CategoryColor(category)
  {
    ToLowerIdempotent(category);
  }

  /** "topics", a category of the store, has no colour of its own. */
  lemma TopicsHaveDefaultColor()
    ensures CategoryColor("topics") == DefaultColor
  {
    Text.ToLowerFixes("topics");
    assert Text.ToLower("topics") == "topics";
  }

  // ---------------------------------------------------------------------------
  // Response

  /** The parts of the HTML fragment; a card stands for `generateArticleCardHtml`. */
  datatype Fragment = NoMoreArticles | Card(article: Articles.Article, featured: bool, colorClass: string) | EndMarker

  datatype Listing =
    | Html(fragments: seq<Fragment>)
    | Json(articles: seq<Articles.Article>, page: int, hasMore: bool, category: string)

  /** HTML goes only to a request whose `HX-Request` header is exactly "true". */
  predicate IsHtmx(hxRequest: Option<string>) { hxRequest == Some("true") }

  function Cards(articles: seq<Articles.Article>, page: int): (r: seq<Fragment>)
    ensures |r| == |articles|
    ensures forall i :: 0 <= i < |r| ==>
      r[i].Card? && r[i].article == articles[i] && r[i].colorClass == CategoryColor(articles[i].category) &&
      (r[i].featured <==> page == 1 && i == 0)
  {
    seq(|articles|, i requires 0 <= i < |articles| =>
      Card(articles[i], page == 1 && i == 0, CategoryColor(articles[i].category)))
  }

  /** `GET /api/articles`. */
  function Get(st: Articles.Store, q: Query, hxRequest: Option<string>): (r: Listing)
    requires Supported(q)
    ensures r.Html? <==> IsHtmx(hxRequest)
    ensures var pg := Articles.GetPaginatedArticles(st, PageOf(q).value, LimitOf(q).value, CategoryOf(q));
      && (r.Json? ==> r == Json(pg.articles, PageOf(q).value, pg.hasMore, CategoryOf(q)))
      && (r.Html? && pg.articles == [] ==> r.fragments == [NoMoreArticles])
      && (r.Html? && pg.articles != [] ==>
            |r.fragments| == |pg.articles| + (if pg.hasMore then 0 else 1) &&
            (forall i :: 0 <= i < |pg.articles| ==>
               r.fragments[i] == Card(pg.articles[i], PageOf(q).value == 1 && i == 0,
                                      CategoryColor(pg.articles[i].category))) &&
            (r.fragments[|r.fragments| - 1] == EndMarker <==> !pg.hasMore))
  {
    var page, limit, category := PageOf(q).value, LimitOf(q).value, CategoryOf(q);
    var pg := Articles.GetPaginatedArticles(st, page, limit, category);
    if IsHtmx(hxRequest) then
      if |pg.articles| == 0 then Html([NoMoreArticles])
      else Html(Cards(pg.articles, page) + (if !pg.hasMore then [EndMarker] else []))
    else Json(pg.articles, page, pg.hasMore, category)
  }

  /** At most one card is featured: the first card of page 1, and only that one. */
  lemma FeaturedOnlyFirst(st: Articles.Store, q: Query, hxRequest: Option<string>, i: nat)
    requires Supported(q) && IsHtmx(hxRequest)
    requires i < |Get(st, q, hxRequest).fragments|
    requires Get(st, q, hxRequest).fragments[i].Card?
    ensures Get(st, q, hxRequest).fragments[i].featured <==> PageOf(q) == Some(1) && i == 0
  {
  }
}

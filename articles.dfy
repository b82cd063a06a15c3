/** The article repository: the category collections, flattened, sorted newest
    first, filtered by category, searched by slug and paginated. */
module Articles {
  import opened Wrappers
  import Text
  import Seqs

  /** Publication times are instants as integers; a larger value is more recent. */
  datatype Article = Article(
    slug: string,
    title: string,
    excerpt: string,
    content: string,
    category: string,
    publishedAt: int,
    readingTime: int,
    imageUrl: string,
    author: string,
    tags: seq<string>)

  /** One category's JSON document. */
  datatype CategoryData = CategoryData(category: string, labelText: string, description: string, articles: seq<Article>)

  /** One property of the category map: the lookup key and the document behind it. */
  datatype Entry = Entry(key: string, data: CategoryData)

  /** The category map, in its property order (the order `Object.values` visits). */
  type Store = seq<Entry>

  /** The keys of the site's category map, in declaration order. */
  const SourceKeys: seq<string> := ["technology", "topics", "science", "business", "culture"]

  predicate SourceShaped(st: Store) {
    |st| == |SourceKeys| && forall i :: 0 <= i < |st| ==> st[i].key == SourceKeys[i]
  }

  /** Every document names the key it is stored under. */
  predicate KeysMatchData(st: Store) {
    forall i :: 0 <= i < |st| ==> st[i].data.category == st[i].key
  }

  predicate KeysDistinct(st: Store) {
    forall i, j :: 0 <= i < j < |st| ==> st[i].key != st[j].key
  }

  /** `{ ...article, category: key }`. */
  function Stamp(a: Article, key: string): Article {
    a.(category := key)
  }

  /** Articles in their given order, each stamped with `key`. */
  function StampAll(s: seq<Article>, key: string): (r: seq<Article>)
    ensures |r| == |s|
    ensures forall k :: 0 <= k < |r| ==> r[k] == Stamp(s[k], key)
  {
    if s == [] then [] else [Stamp(s[0], key)] + StampAll(s[1..], key)
  }

  /** A collection's articles in stored order, each stamped with the collection's key. */
  function Stamped(cd: CategoryData): seq<Article> {
    StampAll(cd.articles, cd.category)
  }

  /** Every collection's stamped articles, collections in map order. */
  function Flatten(es: Store): seq<Article> {
    if es == [] then [] else Flatten(es[..|es| - 1]) + Stamped(es[|es| - 1].data)
  }

  function TotalArticles(es: Store): nat {
    if es == [] then 0 else TotalArticles(es[..|es| - 1]) + |es[|es| - 1].data.articles|
  }

  // ---------------------------------------------------------------------------
  // Sorting: `Array.prototype.sort` with the newest-first comparator. The engine's
  // sort is stable; it is modelled by a stable insertion sort.

  /** Puts `x` before the first element that is not more recent than it. */
  function InsertNewest(x: Article, s: seq<Article>): (r: seq<Article>)
    ensures multiset(r) == multiset(s) + multiset{x}
    ensures |r| == |s| + 1
  {
    if s == [] || x.publishedAt >= s[0].publishedAt then [x] + s
    else
      assert s == [s[0]] + s[1..];
      [s[0]] + InsertNewest(x, s[1..])
  }

  function SortNewestFirst(s: seq<Article>): (r: seq<Article>)
    ensures multiset(r) == multiset(s)
    ensures |r| == |s|
  {
    if s == [] then []
    else
      assert s == [s[0]] + s[1..];
      InsertNewest(s[0], SortNewestFirst(s[1..]))
  }

  predicate NewestFirst(s: seq<Article>) {
    forall i, j :: 0 <= i < j < |s| ==> s[i].publishedAt >= s[j].publishedAt
  }

  /** The articles published at instant `t`, in the order they appear in `s`. */
  function PublishedAt(s: seq<Article>, t: int): seq<Article> {
    if s == [] then []
    else (if s[0].publishedAt == t then [s[0]] else []) + PublishedAt(s[1..], t)
  }

  lemma {:induction false} InsertKeepsNewestFirst(x: Article, s: seq<Article>)
    requires NewestFirst(s)
    ensures NewestFirst(InsertNewest(x, s))
  {
    if s != [] && x.publishedAt < s[0].publishedAt {
      InsertKeepsNewestFirst(x, s[1..]);
      var r := InsertNewest(x, s[1..]);
      forall k | 0 <= k < |r|
        ensures s[0].publishedAt >= r[k].publishedAt
      {
        assert r[k] in multiset(s[1..]) + multiset{x};
        if r[k] in multiset(s[1..]) {
          var m :| 0 <= m < |s[1..]| && s[1..][m] == r[k];
          assert s[1 + m] == r[k];
        }
      }
    }
  }

  /** The sort puts newer articles first. */
  lemma {:induction false} SortIsNewestFirst(s: seq<Article>)
    ensures NewestFirst(SortNewestFirst(s))
  {
    if s != [] {
      SortIsNewestFirst(s[1..]);
      InsertKeepsNewestFirst(s[0], SortNewestFirst(s[1..]));
    }
  }

  lemma {:induction false} InsertStable(x: Article, s: seq<Article>, t: int)
    ensures PublishedAt(InsertNewest(x, s), t) ==
            (if x.publishedAt == t then [x] else []) + PublishedAt(s, t)
  {
    var r := InsertNewest(x, s);
    var hx := if x.publishedAt == t then [x] else [];
    if s == [] || x.publishedAt >= s[0].publishedAt {
      assert r == [x] + s;
      assert r[0] == x && r[1..] == s;
    } else {
      var rest := InsertNewest(x, s[1..]);
      InsertStable(x, s[1..], t);
      assert r == [s[0]] + rest;
      assert r[0] == s[0] && r[1..] == rest;
      var h0 := if s[0].publishedAt == t then [s[0]] else [];
      assert PublishedAt(r, t) == h0 + (hx + PublishedAt(s[1..], t));
      assert PublishedAt(s, t) == h0 + PublishedAt(s[1..], t);
      if x.publishedAt == t {
        assert h0 == [];
      } else {
        assert hx == [];
      }
    }
  }

  /** The sort is stable: the articles sharing a publication instant keep their
      relative order. */
  lemma {:induction false} SortIsStable(s: seq<Article>, t: int)
    ensures PublishedAt(SortNewestFirst(s), t) == PublishedAt(s, t)
  {
    if s != [] {
      SortIsStable(s[1..], t);
      InsertStable(s[0], SortNewestFirst(s[1..]), t);
    }
  }

  // ---------------------------------------------------------------------------
  // getAllArticles

  /** What `getAllArticles` returns. */
  function AllArticles(st: Store): seq<Article> {
    SortNewestFirst(Flatten(st))
  }

  /** `getAllArticles`: the nested `forEach` loops push every stamped article, then the
      accumulated array is sorted. */
  method GetAllArticles(st: Store) returns (all: seq<Article>)
    ensures all == AllArticles(st)
  {
    var acc: seq<Article> := [];
    var i := 0;
    while i < |st|
      invariant 0 <= i <= |st|
      invariant acc == Flatten(st[..i])
    {
      var cd := st[i].data;
      var j := 0;
      while j < |cd.articles|
        invariant 0 <= j <= |cd.articles|
        invariant acc == Flatten(st[..i]) + Stamped(cd)[..j]
      {
        acc := acc + [Stamp(cd.articles[j], cd.category)];
        assert Stamped(cd)[..j + 1] == Stamped(cd)[..j] + [Stamp(cd.articles[j], cd.category)];
        j := j + 1;
      }
      assert Stamped(cd)[..j] == Stamped(cd);
      assert st[..i + 1][..i] == st[..i];
      i := i + 1;
    }
    assert st[..i] == st;
    all := SortNewestFirst(acc);
  }

  /** The flattened list holds as many articles as all collections together. */
  lemma {:induction false} FlattenLength(es: Store)
    ensures |Flatten(es)| == TotalArticles(es)
  {
    if es != [] {
      FlattenLength(es[..|es| - 1]);
    }
  }

  /** An article is in the flattened list iff it is a stored article of some
      collection, stamped with that collection's key. */
  lemma {:induction false} InFlatten(es: Store, x: Article)
    ensures x in Flatten(es) <==>
      exists e, k :: 0 <= e < |es| && 0 <= k < |es[e].data.articles| &&
                     x == Stamp(es[e].data.articles[k], es[e].data.category)
  {
    if es != [] {
      var init := es[..|es| - 1];
      var last := es[|es| - 1].data;
      InFlatten(init, x);
      assert Flatten(es) == Flatten(init) + Stamped(last);
      if x in Flatten(es) {
        if x in Flatten(init) {
          var e, k :| 0 <= e < |init| && 0 <= k < |init[e].data.articles| &&
                      x == Stamp(init[e].data.articles[k], init[e].data.category);
          assert es[e] == init[e];
        } else {
          var k :| 0 <= k < |Stamped(last)| && Stamped(last)[k] == x;
          assert x == Stamp(es[|es| - 1].data.articles[k], es[|es| - 1].data.category);
        }
      } else {
        forall e, k | 0 <= e < |es| && 0 <= k < |es[e].data.articles|
          ensures x != Stamp(es[e].data.articles[k], es[e].data.category)
        {
          if e < |es| - 1 {
            assert es[e] == init[e];
          } else {
            assert Stamped(last)[k] == Stamp(es[e].data.articles[k], es[e].data.category);
          }
        }
      }
    }
  }

  /** `getAllArticles` returns exactly the stamped articles of all collections (as a
      multiset), as many as there are in all collections, newest first, and articles
      published at the same instant appear in collection order, then stored order. */
  lemma AllArticlesSpec(st: Store, t: int)
    ensures multiset(AllArticles(st)) == multiset(Flatten(st))
    ensures |AllArticles(st)| == TotalArticles(st)
    ensures NewestFirst(AllArticles(st))
    ensures PublishedAt(AllArticles(st), t) == PublishedAt(Flatten(st), t)
  {
    FlattenLength(st);
    SortIsNewestFirst(Flatten(st));
    SortIsStable(Flatten(st), t);
  }

  /** Every article `getAllArticles` returns is a stored article whose only change is
      the owning collection's key in `category`, and every stored article is returned. */
  lemma AllArticlesStamped(st: Store, x: Article)
    ensures x in AllArticles(st) <==>
      exists e, k :: 0 <= e < |st| && 0 <= k < |st[e].data.articles| &&
                     x == Stamp(st[e].data.articles[k], st[e].data.category)
  {
    assert x in AllArticles(st) <==> x in multiset(AllArticles(st));
    assert x in Flatten(st) <==> x in multiset(Flatten(st));
    InFlatten(st, x);
  }

  // ---------------------------------------------------------------------------
  // Category lookup, filtering and slug search

  /** `categoryDataMap[key]`. */
  function Lookup(st: Store, key: string): (r: Option<CategoryData>)
    ensures r.None? <==> forall i :: 0 <= i < |st| ==> st[i].key != key
    ensures r.Some? ==>
      exists i :: 0 <= i < |st| && st[i].key == key && st[i].data == r.value &&
                  (forall j :: 0 <= j < i ==> st[j].key != key)
    ensures r.Some? && KeysDistinct(st) ==> forall i :: 0 <= i < |st| && st[i].key == key ==> st[i].data == r.value
  {
    match Seqs.FindIndex(st, (e: Entry) => e.key == key)
    case Some(i) => Some(st[i].data)
    case None => None
  }

  /** `getCategoryInfo`: the collection stored under the lower-cased key. */
  function GetCategoryInfo(st: Store, category: string): (r: Option<CategoryData>)
    ensures r.None? <==> forall i :: 0 <= i < |st| ==> st[i].key != Text.ToLower(category)
    ensures r.Some? ==> exists i :: 0 <= i < |st| && st[i].key == Text.ToLower(category) && st[i].data == r.value
  {
    Lookup(st, Text.ToLower(category))
  }

  /** `getArticlesByCategory`: every article for "all"; otherwise the collection under
      the lower-cased key, in stored order and stamped, or nothing for an unknown key. */
  function GetArticlesByCategory(st: Store, category: string): (r: seq<Article>)
    ensures category == "all" ==> r == AllArticles(st)
    ensures category != "all" && (forall i :: 0 <= i < |st| ==> st[i].key != Text.ToLower(category)) ==> r == []
    ensures category != "all" && KeysMatchData(st) ==>
      forall k :: 0 <= k < |r| ==> r[k].category == Text.ToLower(category)
    ensures category != "all" ==>
      forall i :: 0 <= i < |st| && st[i].key == Text.ToLower(category) && KeysDistinct(st) ==>
        |r| == |st[i].data.articles| &&
        forall k :: 0 <= k < |r| ==> r[k] == Stamp(st[i].data.articles[k], st[i].data.category)
  {
    if category == "all" then AllArticles(st)
    else
      match Lookup(st, Text.ToLower(category))
      case None => []
      case Some(cd) => Stamped(cd)
  }

  /** Only the exact string "all" selects everything: "ALL" lower-cases to a key the
      site's map does not have, so it selects nothing. */
  lemma UpperCaseAllIsEmpty(st: Store)
    requires SourceShaped(st)
    ensures GetArticlesByCategory(st, "ALL") == []
  {
    assert Text.ToLower("ALL") == "all";
    forall i | 0 <= i < |st| ensures st[i].key != "all" {
      assert st[i].key == SourceKeys[i];
    }
  }

  /** `getArticleBySlug`: the first article of the sorted list with exactly that slug. */
  function GetArticleBySlug(st: Store, slug: string): (r: Option<Article>)
    ensures r.Some? ==> r.value.slug == slug
    ensures r.Some? ==> exists i :: 0 <= i < |AllArticles(st)| && AllArticles(st)[i] == r.value &&
                                   forall j :: 0 <= j < i ==> AllArticles(st)[j].slug != slug
    ensures r.None? <==> forall j :: 0 <= j < |AllArticles(st)| ==> AllArticles(st)[j].slug != slug
  {
    var all := AllArticles(st);
    match Seqs.FindIndex(all, (a: Article) => a.slug == slug)
    case Some(i) => Some(all[i])
    case None => None
  }

  /** A slug is found iff some collection stores an article with it. */
  lemma SlugFoundIffStored(st: Store, slug: string)
    ensures GetArticleBySlug(st, slug).Some? <==>
      exists e, k :: 0 <= e < |st| && 0 <= k < |st[e].data.articles| && st[e].data.articles[k].slug == slug
  {
    var all := AllArticles(st);
    if GetArticleBySlug(st, slug).Some? {
      var x := GetArticleBySlug(st, slug).value;
      AllArticlesStamped(st, x);
    } else {
      forall e, k | 0 <= e < |st| && 0 <= k < |st[e].data.articles|
        ensures st[e].data.articles[k].slug != slug
      {
        var x := Stamp(st[e].data.articles[k], st[e].data.category);
        AllArticlesStamped(st, x);
        var j :| 0 <= j < |all| && all[j] == x;
      }
    }
  }

  /** Slugs that are unique across the whole corpus. */
  predicate UniqueSlugs(st: Store) {
    forall e1, k1, e2, k2 ::
      (0 <= e1 < |st| && 0 <= k1 < |st[e1].data.articles| &&
       0 <= e2 < |st| && 0 <= k2 < |st[e2].data.articles| &&
       st[e1].data.articles[k1].slug == st[e2].data.articles[k2].slug) ==> (e1 == e2 && k1 == k2)
  }

  /** With unique slugs, the lookup returns the one stored article with that slug,
      stamped with its collection's key. */
  lemma SlugLookupUnique(st: Store, e: nat, k: nat)
    requires UniqueSlugs(st)
    requires e < |st| && k < |st[e].data.articles|
    ensures GetArticleBySlug(st, st[e].data.articles[k].slug) ==
            Some(Stamp(st[e].data.articles[k], st[e].data.category))
  {
    var slug := st[e].data.articles[k].slug;
    SlugFoundIffStored(st, slug);
    var x := GetArticleBySlug(st, slug).value;
    AllArticlesStamped(st, x);
    var e2, k2 :| 0 <= e2 < |st| && 0 <= k2 < |st[e2].data.articles| &&
                  x == Stamp(st[e2].data.articles[k2], st[e2].data.category);
    assert st[e2].data.articles[k2].slug == slug;
  }

  // ---------------------------------------------------------------------------
  // Pagination

  datatype Page = Page(articles: seq<Article>, hasMore: bool)

  /** `(page - 1) * limit`, the index of a page's first article. */
  function PageStart(page: int, limit: int): (r: nat)
    requires page >= 1 && limit >= 1
    ensures r == (page - 1) * limit && r + limit == page * limit
  {
    var p: nat := page - 1;
    assert p * limit >= 0;
    assert page * limit == p * limit + limit;
    p * limit
  }

  /** One page of `s`: 1-indexed, `limit` per page. */
  function Paginate(s: seq<Article>, page: int, limit: int): (r: Page)
    requires page >= 1 && limit >= 1
    ensures |r.articles| <= limit
    ensures r.hasMore <==> page * limit < |s|
    ensures PageStart(page, limit) >= |s| ==> r.articles == [] && !r.hasMore
    ensures PageStart(page, limit) < |s| ==> |r.articles| == Seqs.Min(limit, |s| - PageStart(page, limit))
    ensures forall k :: 0 <= k < |r.articles| ==>
      PageStart(page, limit) + k < |s| && r.articles[k] == s[PageStart(page, limit) + k]
  {
    var startIndex := PageStart(page, limit);
    var endIndex := startIndex + limit;
    Page(Seqs.Slice(s, startIndex, endIndex), endIndex < |s|)
  }

  /** `getPaginatedArticles`. */
  function GetPaginatedArticles(st: Store, page: int, limit: int, category: string): (r: Page)
    requires page >= 1 && limit >= 1
    ensures r.hasMore <==> page * limit < |GetArticlesByCategory(st, category)|
    ensures |r.articles| <= limit
  {
    Paginate(GetArticlesByCategory(st, category), page, limit)
  }

  /** Pages 1 to `k`, concatenated. */
  function PagesUpTo(s: seq<Article>, limit: int, k: nat): seq<Article>
    requires limit >= 1
  {
    if k == 0 then [] else PagesUpTo(s, limit, k - 1) + Paginate(s, k, limit).articles
  }

  lemma {:induction false} PagesUpToPrefix(s: seq<Article>, limit: int, k: nat)
    requires limit >= 1
    ensures PagesUpTo(s, limit, k) == s[..Seqs.Min(k * limit, |s|)]
  {
    if k > 0 {
      PagesUpToPrefix(s, limit, k - 1);
      var m := PageStart(k, limit);
      assert (k - 1) * limit == m && k * limit == m + limit;
      PageIsSlice(s, k, limit);
      var lo, hi := Seqs.Min(m, |s|), Seqs.Min(m + limit, |s|);
      var prev, page := PagesUpTo(s, limit, k - 1), Paginate(s, k, limit).articles;
      assert PagesUpTo(s, limit, k) == prev + page;
      JoinSlices(s, prev, page, lo, hi);
    }
  }

  lemma JoinSlices(s: seq<Article>, a: seq<Article>, b: seq<Article>, lo: nat, hi: nat)
    requires lo <= hi <= |s| && a == s[..lo] && b == s[lo..hi]
    ensures a + b == s[..hi]
  {
  }

  /** A page is the slice between its clamped bounds. */
  lemma PageIsSlice(s: seq<Article>, page: int, limit: int)
    requires page >= 1 && limit >= 1
    ensures var m := PageStart(page, limit);
      Paginate(s, page, limit).articles == s[Seqs.Min(m, |s|)..Seqs.Min(m + limit, |s|)]
  {
    var m := PageStart(page, limit);
    var p := Paginate(s, page, limit).articles;
    if m < |s| {
      assert p == s[m..Seqs.Min(m + limit, |s|)];
    }
  }

  /** Concatenating pages 1 to ceil(n / limit) gives back the list, with no article
      lost or repeated; every page before the last reports more, the last does not. */
  lemma PagesReconstruct(s: seq<Article>, limit: int)
    requires limit >= 1
    ensures PagesUpTo(s, limit, Seqs.CeilDiv(|s|, limit)) == s
    ensures forall p :: 1 <= p < Seqs.CeilDiv(|s|, limit) ==> Paginate(s, p, limit).hasMore
    ensures Seqs.CeilDiv(|s|, limit) >= 1 ==> !Paginate(s, Seqs.CeilDiv(|s|, limit), limit).hasMore
  {
    var n := Seqs.CeilDiv(|s|, limit);
    Seqs.CeilDivBounds(|s|, limit);
    PagesUpToPrefix(s, limit, n);
    assert Seqs.Min(n * limit, |s|) == |s|;
    assert s[..|s|] == s;
    forall p | 1 <= p < n
      ensures Paginate(s, p, limit).hasMore
    {
      MulMonotone(p, n - 1, limit);
    }
  }

  lemma MulMonotone(a: int, b: int, c: int)
    requires a <= b && c >= 0
    ensures a * c <= b * c
  {
    assert b * c - a * c == (b - a) * c;
  }

  /** A page that starts past the end is empty and reports no more. */
  lemma PastTheEnd(s: seq<Article>, page: int, limit: int)
    requires page >= 1 && limit >= 1
    requires page > Seqs.CeilDiv(|s|, limit)
    ensures Paginate(s, page, limit) == Page([], false)
  {
    Seqs.CeilDivBounds(|s|, limit);
    assert (page - 1) * limit >= Seqs.CeilDiv(|s|, limit) * limit;
  }

  // ---------------------------------------------------------------------------
  // Category list

  datatype CategorySummary = CategorySummary(slug: string, labelText: string, description: string)

  const AllCategory := CategorySummary("all", "All", "All news and articles")

  function Summarize(cd: CategoryData): CategorySummary {
    CategorySummary(cd.category, cd.labelText, cd.description)
  }

  /** `getAllCategories`: the synthetic "all" entry, then every collection's key,
      label and description in map order, without articles. */
  function GetAllCategories(st: Store): (r: seq<CategorySummary>)
    ensures |r| == |st| + 1 && r[0] == AllCategory
    ensures forall i :: 0 <= i < |st| ==> r[i + 1] == Summarize(st[i].data)
  {
    [AllCategory] + seq(|st|, i requires 0 <= i < |st| => Summarize(st[i].data))
  }

  /** On the site's store the list's slugs are "all" followed by the five keys, and
      "all" names no collection. */
  lemma CategorySlugs(st: Store)
    requires SourceShaped(st) && KeysMatchData(st)
    ensures |GetAllCategories(st)| == 6
    ensures forall i :: 0 <= i < |st| ==> GetAllCategories(st)[i + 1].slug == SourceKeys[i]
    ensures forall i :: 1 <= i < 6 ==> GetAllCategories(st)[i].slug != "all"
  {
    forall i | 1 <= i < 6 ensures GetAllCategories(st)[i].slug != "all" {
      assert GetAllCategories(st)[i].slug == SourceKeys[i - 1];
    }
  }
}

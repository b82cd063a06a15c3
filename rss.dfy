/** The RSS feed: the five-step XML escape, its inverse, and the per-article items
    of the feed in repository order. */
module Rss {
  import opened Wrappers
  import Text
  import Articles

  // ---------------------------------------------------------------------------
  // Escaping

  /** `s.replace(/c/g, rep)` for a one-character pattern. */
  function ReplaceAll(s: string, c: char, rep: string): (r: string)
    ensures c !in s ==> r == s
  {
    if s == [] then []
    else (if s[0] == c then rep else [s[0]]) + ReplaceAll(s[1..], c, rep)
  }

  lemma {:induction false} ReplaceAllAppend(a: string, b: string, c: char, rep: string)
    ensures ReplaceAll(a + b, c, rep) == ReplaceAll(a, c, rep) + ReplaceAll(b, c, rep)
  {
    if a == [] {
      assert a + b == b;
    } else {
      assert (a + b)[0] == a[0];
      assert (a + b)[1..] == a[1..] + b;
      ReplaceAllAppend(a[1..], b, c, rep);
    }
  }

  predicate IsSpecial(c: char) {
    c == '&' || c == '<' || c == '>' || c == '"' || c == '\''
  }

  /** `escapeXml`: the five replacements, `&` first. Text with none of the five
      characters comes back unchanged. */
  function EscapeXml(text: string): (r: string)
    ensures (forall i :: 0 <= i < |text| ==> !IsSpecial(text[i])) ==> r == text
  {
    ReplaceAll(ReplaceAll(ReplaceAll(ReplaceAll(ReplaceAll(
      text, '&', "&amp;"), '<', "&lt;"), '>', "&gt;"), '"', "&quot;"), '\'', "&apos;")
  }

  /** The reference definition: each character replaced by its own escape. */
  function EscapeChar(c: char): string {
    if c == '&' then "&amp;"
    else if c == '<' then "&lt;"
    else if c == '>' then "&gt;"
    else if c == '"' then "&quot;"
    else if c == '\'' then "&apos;"
    else [c]
  }

  function EscapeEach(text: string): string {
    if text == [] then [] else EscapeChar(text[0]) + EscapeEach(text[1..])
  }

  lemma EscapeXmlAppend(a: string, b: string)
    ensures EscapeXml(a + b) == EscapeXml(a) + EscapeXml(b)
  {
    var a1, b1 := ReplaceAll(a, '&', "&amp;"), ReplaceAll(b, '&', "&amp;");
    ReplaceAllAppend(a, b, '&', "&amp;");
    var a2, b2 := ReplaceAll(a1, '<', "&lt;"), ReplaceAll(b1, '<', "&lt;");
    ReplaceAllAppend(a1, b1, '<', "&lt;");
    var a3, b3 := ReplaceAll(a2, '>', "&gt;"), ReplaceAll(b2, '>', "&gt;");
    ReplaceAllAppend(a2, b2, '>', "&gt;");
    var a4, b4 := ReplaceAll(a3, '"', "&quot;"), ReplaceAll(b3, '"', "&quot;");
    ReplaceAllAppend(a3, b3, '"', "&quot;");
    ReplaceAllAppend(a4, b4, '\'', "&apos;");
  }

  lemma ReplaceAllOne(x: char, c: char, rep: string)
    ensures ReplaceAll([x], c, rep) == if x == c then rep else [x]
  {
    assert [x][1..] == [];
  }

  // Each special character meets its own replacement; the later ones pass over the
  // entity it became.

  lemma EscapeAmp()
    ensures EscapeXml("&") == "&amp;"
  {
    var s1 := ReplaceAll("&", '&', "&amp;");
    ReplaceAllOne('&', '&', "&amp;");
    assert '<' !in s1 && '>' !in s1 && '"' !in s1 && '\'' !in s1;
  }

  lemma EscapeLt()
    ensures EscapeXml("<") == "&lt;"
  {
    ReplaceAllOne('<', '&', "&amp;");
    var s2 := ReplaceAll("<", '<', "&lt;");
    ReplaceAllOne('<', '<', "&lt;");
    assert '>' !in s2 && '"' !in s2 && '\'' !in s2;
  }

  lemma EscapeGt()
    ensures EscapeXml(">") == "&gt;"
  {
    ReplaceAllOne('>', '&', "&amp;");
    ReplaceAllOne('>', '<', "&lt;");
    var s3 := ReplaceAll(">", '>', "&gt;");
    ReplaceAllOne('>', '>', "&gt;");
    assert '"' !in s3 && '\'' !in s3;
  }

  lemma EscapeQuot()
    ensures EscapeXml("\"") == "&quot;"
  {
    ReplaceAllOne('"', '&', "&amp;");
    ReplaceAllOne('"', '<', "&lt;");
    ReplaceAllOne('"', '>', "&gt;");
    var s4 := ReplaceAll("\"", '"', "&quot;");
    ReplaceAllOne('"', '"', "&quot;");
    assert '\'' !in s4;
  }

  lemma EscapeApos()
    ensures EscapeXml("'") == "&apos;"
  {
    ReplaceAllOne('\'', '&', "&amp;");
    ReplaceAllOne('\'', '<', "&lt;");
    ReplaceAllOne('\'', '>', "&gt;");
    ReplaceAllOne('\'', '"', "&quot;");
    ReplaceAllOne('\'', '\'', "&apos;");
  }

  lemma EscapeXmlOne(x: char)
    ensures EscapeXml([x]) == EscapeChar(x)
  {
    if x == '&' {
      EscapeAmp();
    } else if x == '<' {
      EscapeLt();
    } else if x == '>' {
      EscapeGt();
    } else if x == '"' {
      EscapeQuot();
    } else if x == '\'' {
      EscapeApos();
    }
  }

  /** The chain of replacements escapes each character independently: no
      replacement touches the text an earlier one inserted. */
  lemma {:induction false} EscapeXmlIsPerChar(text: string)
    ensures EscapeXml(text) == EscapeEach(text)
  {
    if text != [] {
      assert text == [text[0]] + text[1..];
      EscapeXmlAppend([text[0]], text[1..]);
      EscapeXmlOne(text[0]);
      EscapeXmlIsPerChar(text[1..]);
    }
  }

  /** Entity decoding, left to right, of the five entities `escapeXml` produces. */
  function Unescape(s: string): string
    decreases |s|
  {
    if s == [] then []
    else if Text.StartsWith(s, "&amp;") then "&" + Unescape(s[5..])
    else if Text.StartsWith(s, "&lt;") then "<" + Unescape(s[4..])
    else if Text.StartsWith(s, "&gt;") then ">" + Unescape(s[4..])
    else if Text.StartsWith(s, "&quot;") then "\"" + Unescape(s[6..])
    else if Text.StartsWith(s, "&apos;") then "'" + Unescape(s[6..])
    else [s[0]] + Unescape(s[1..])
  }

  lemma UnescapeHead(c: char, tail: string)
    ensures Unescape(EscapeChar(c) + tail) == [c] + Unescape(tail)
  {
    var e := EscapeChar(c);
    var s := e + tail;
    assert s[..|e|] == e;
    assert s[|e|..] == tail;
    if !IsSpecial(c) {
      assert s[0] == c;
      assert !Text.StartsWith(s, "&amp;") && !Text.StartsWith(s, "&lt;") && !Text.StartsWith(s, "&gt;");
      assert !Text.StartsWith(s, "&quot;") && !Text.StartsWith(s, "&apos;");
    } else if c == '&' {
      assert Text.StartsWith(s, "&amp;");
    } else {
      assert s[1] == e[1] && s[2] == e[2];
      assert !Text.StartsWith(s, "&amp;");
      if c != '<' {
        assert !Text.StartsWith(s, "&lt;");
        if c != '>' {
          assert !Text.StartsWith(s, "&gt;");
          if c != '"' {
            assert !Text.StartsWith(s, "&quot;");
          }
        }
      }
    }
  }

  lemma {:induction false} UnescapeEscapeEach(text: string)
    ensures Unescape(EscapeEach(text)) == text
  {
    if text != [] {
      UnescapeHead(text[0], EscapeEach(text[1..]));
      UnescapeEscapeEach(text[1..]);
      assert text == [text[0]] + text[1..];
    }
  }

  /** Decoding the entities of the escaped text gives back the text exactly. */
  lemma UnescapeEscape(text: string)
    ensures Unescape(EscapeXml(text)) == text
  {
    EscapeXmlIsPerChar(text);
    UnescapeEscapeEach(text);
  }

  /** `&` at `i` begins one of the five entities. */
  predicate EntityAt(s: string, i: nat) {
    Text.OccursAt(s, "&amp;", i) || Text.OccursAt(s, "&lt;", i) || Text.OccursAt(s, "&gt;", i) ||
    Text.OccursAt(s, "&quot;", i) || Text.OccursAt(s, "&apos;", i)
  }

  /** Well-escaped text: none of `<`, `>`, `"`, `'`, and every `&` begins an entity. */
  predicate XmlSafe(s: string) {
    forall i :: 0 <= i < |s| ==>
      s[i] != '<' && s[i] != '>' && s[i] != '"' && s[i] != '\'' && (s[i] == '&' ==> EntityAt(s, i))
  }

  lemma EntityShift(a: string, b: string, j: nat)
    requires EntityAt(b, j)
    ensures EntityAt(a + b, |a| + j)
  {
    var s := a + b;
    forall p: string | Text.OccursAt(b, p, j) ensures Text.OccursAt(s, p, |a| + j) {
      assert s[|a| + j..|a| + j + |p|] == b[j..j + |p|];
    }
  }

  lemma EscapeCharSafe(c: char, tail: string)
    ensures forall i :: 0 <= i < |EscapeChar(c)| ==>
      var s := EscapeChar(c) + tail;
      s[i] != '<' && s[i] != '>' && s[i] != '"' && s[i] != '\'' && (s[i] == '&' ==> i == 0 && EntityAt(s, i))
  {
    var e := EscapeChar(c);
    var s := e + tail;
    assert s[..|e|] == e;
  }

  lemma {:induction false} EscapeEachSafe(text: string)
    ensures XmlSafe(EscapeEach(text))
  {
    if text != [] {
      var e := EscapeChar(text[0]);
      var rest := EscapeEach(text[1..]);
      var s := e + rest;
      EscapeEachSafe(text[1..]);
      EscapeCharSafe(text[0], rest);
      forall i | |e| <= i < |s| && s[i] == '&' ensures EntityAt(s, i) {
        assert rest[i - |e|] == s[i];
        EntityShift(e, rest, i - |e|);
      }
    }
  }

  /** The output of `escapeXml` holds no raw `<`, `>`, `"` or `'`, and each of its `&`
      is the start of an entity, so no entity is escaped twice. */
  lemma EscapeXmlSafe(text: string)
    ensures XmlSafe(EscapeXml(text))
  {
    EscapeXmlIsPerChar(text);
    EscapeEachSafe(text);
  }

  // ---------------------------------------------------------------------------
  // Feed items

  const DefaultSiteUrl := "https://news-hub.example.com"

  /** `import.meta.env.SITE_URL || default`. */
  function SiteUrl(env: Option<string>): (r: string)
    ensures r != ""
    ensures Text.Truthy(env) ==> r == env.value
    ensures !Text.Truthy(env) ==> r == DefaultSiteUrl
  {
    if Text.Truthy(env) then env.value else DefaultSiteUrl
  }

  /** The element texts of one `<item>`, `category` the article's own and `tagCategories`
      one per tag. */
  datatype Item = Item(
    title: string,
    description: string,
    link: string,
    guid: string,
    pubDate: string,
    author: string,
    category: string,
    tagCategories: seq<string>,
    content: string)

  function EscapeAll(tags: seq<string>): (r: seq<string>)
    ensures |r| == |tags|
    ensures forall k :: 0 <= k < |tags| ==> r[k] == EscapeXml(tags[k])
  {
    if tags == [] then [] else [EscapeXml(tags[0])] + EscapeAll(tags[1..])
  }

  /** The item of one article. `utcDate` stands for `new Date(publishedAt).toUTCString()`. */
  function ItemOf(a: Articles.Article, siteUrl: string, utcDate: int -> string): (it: Item)
    ensures it.link == it.guid == siteUrl + "/news/" + a.slug
    ensures it.pubDate == utcDate(a.publishedAt)
    ensures Unescape(it.title) == a.title && XmlSafe(it.title)
    ensures Unescape(it.description) == a.excerpt && XmlSafe(it.description)
    ensures Unescape(it.author) == a.author && XmlSafe(it.author)
    ensures Unescape(it.category) == a.category && XmlSafe(it.category)
    ensures |it.tagCategories| == |a.tags|
    ensures forall k :: 0 <= k < |a.tags| ==>
              Unescape(it.tagCategories[k]) == a.tags[k] && XmlSafe(it.tagCategories[k])
    ensures it.content == a.content
  {
    UnescapeEscape(a.title); EscapeXmlSafe(a.title);
    UnescapeEscape(a.excerpt); EscapeXmlSafe(a.excerpt);
    UnescapeEscape(a.author); EscapeXmlSafe(a.author);
    UnescapeEscape(a.category); EscapeXmlSafe(a.category);
    var tagCategories := EscapeAll(a.tags);
    assert forall k :: 0 <= k < |a.tags| ==>
      Unescape(tagCategories[k]) == a.tags[k] && XmlSafe(tagCategories[k]) by {
      forall k | 0 <= k < |a.tags|
        ensures Unescape(tagCategories[k]) == a.tags[k] && XmlSafe(tagCategories[k])
      {
        UnescapeEscape(a.tags[k]);
        EscapeXmlSafe(a.tags[k]);
      }
    }
    var link := siteUrl + "/news/" + a.slug;
    Item(EscapeXml(a.title), EscapeXml(a.excerpt), link, link, utcDate(a.publishedAt),
         EscapeXml(a.author), EscapeXml(a.category), tagCategories, a.content)
  }

  const ItemOpen := "\n    <item>\n      <title>"
  const CdataOpen := "<content:encoded><![CDATA["
  const ItemClose := "]]></content:encoded>\n    </item>"

  function Concat(parts: seq<string>): string {
    if parts == [] then "" else parts[0] + Concat(parts[1..])
  }

  function TagElements(tags: seq<string>): string {
    if tags == [] then "" else "<category>" + tags[0] + "</category>" + TagElements(tags[1..])
  }

  /** The elements between the title and the content: description, link, guid,
      date, author, category and one element per tag. */
  function ItemFields(it: Item): string {
    "\n      <description>" + it.description + "</description>\n      <link>" +
    it.link + "</link>\n      <guid isPermaLink=\"true\">" + it.guid + "</guid>\n      <pubDate>" +
    it.pubDate + "</pubDate>\n      <author>news@newshub.com (" + it.author + ")</author>\n      <category>" +
    it.category + "</category>\n      " + TagElements(it.tagCategories) + "\n      "
  }

  /** The item's text: the escaped fields in their elements and the content verbatim
      inside CDATA at the end of the item. */
  function RenderItem(it: Item): string {
    (ItemOpen + it.title + "</title>") + ItemFields(it) + (CdataOpen + it.content + ItemClose)
  }

  /** An item opens with its title and closes with its content, unescaped, in CDATA. */
  lemma RenderItemShape(it: Item)
    ensures Text.StartsWith(RenderItem(it), ItemOpen + it.title + "</title>")
    ensures Text.EndsWith(RenderItem(it), CdataOpen + it.content + ItemClose)
  {
    Text.Affixes(ItemOpen + it.title + "</title>", ItemFields(it), CdataOpen + it.content + ItemClose);
  }

  /** The rendered items, one string each. */
  function Rendered(items: seq<Item>): (r: seq<string>)
    ensures |r| == |items|
    ensures forall i :: 0 <= i < |items| ==> r[i] == RenderItem(items[i])
  {
    seq(|items|, i requires 0 <= i < |items| => RenderItem(items[i]))
  }

  /** `items.map(render).join('')`. */
  function RenderFeed(items: seq<Item>): string {
    Concat(Rendered(items))
  }

  lemma {:induction false} ConcatAppend(a: seq<string>, b: seq<string>)
    ensures Concat(a + b) == Concat(a) + Concat(b)
  {
    if a == [] {
      assert a + b == b;
    } else {
      assert (a + b)[0] == a[0];
      assert (a + b)[1..] == a[1..] + b;
      ConcatAppend(a[1..], b);
    }
  }

  lemma OccursBetween(pre: string, x: string, post: string)
    ensures Text.OccursAt(pre + x + post, x, |pre|)
  {
    var s := pre + x + post;
    assert s[|pre|..|pre| + |x|] == x;
  }

  /** Part `i` of a concatenation follows the parts before it. */
  lemma ConcatInOrder(parts: seq<string>, i: nat)
    requires i < |parts|
    ensures Text.OccursAt(Concat(parts), parts[i], |Concat(parts[..i])|)
  {
    var before, after := parts[..i], parts[i..];
    assert parts == before + after;
    ConcatAppend(before, after);
    assert Concat(after) == parts[i] + Concat(after[1..]);
    OccursBetween(Concat(before), parts[i], Concat(after[1..]));
  }

  /** Item `i` of the rendered feed follows the items before it. */
  lemma RenderFeedInOrder(items: seq<Item>, i: nat)
    requires i < |items|
    ensures Text.OccursAt(RenderFeed(items), RenderItem(items[i]), |RenderFeed(items[..i])|)
  {
    var parts := Rendered(items);
    ConcatInOrder(parts, i);
    assert Rendered(items[..i]) == parts[..i];
  }

  /** The feed's items: one per article of `getAllArticles`, in that order. */
  function FeedItems(st: Articles.Store, siteUrl: string, utcDate: int -> string): (r: seq<Item>)
    ensures |r| == |Articles.AllArticles(st)|
    ensures forall i :: 0 <= i < |r| ==> r[i] == ItemOf(Articles.AllArticles(st)[i], siteUrl, utcDate)
  {
    var all := Articles.AllArticles(st);
    seq(|all|, i requires 0 <= i < |all| => ItemOf(all[i], siteUrl, utcDate))
  }

  /** The `<item>` elements of the feed body. */
  function FeedBody(st: Articles.Store, siteUrl: string, utcDate: int -> string): string {
    RenderFeed(FeedItems(st, siteUrl, utcDate))
  }

  /** For every article of `getAllArticles`, its item appears in the feed body after
      the items of the articles before it. */
  lemma FeedFollowsRepository(st: Articles.Store, siteUrl: string, utcDate: int -> string, i: nat)
    requires i < |Articles.AllArticles(st)|
    ensures var items := FeedItems(st, siteUrl, utcDate);
            Text.OccursAt(FeedBody(st, siteUrl, utcDate),
                          RenderItem(ItemOf(Articles.AllArticles(st)[i], siteUrl, utcDate)),
                          |RenderFeed(items[..i])|)
  {
    RenderFeedInOrder(FeedItems(st, siteUrl, utcDate), i);
  }
}

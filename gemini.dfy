/** The generation client: the model-fallback loop, extraction of the JSON reply,
    validation of the parsed article and the fields filled in by default. The HTTP
    call is an oracle giving one reply per model, `JSON.parse` is an uninterpreted
    partial function, and the clock and the random image index are parameters. */
module Gemini {
  import opened Wrappers
  import Text
  import Seqs

  /** The models, in order of preference. */
  const GeminiModels: seq<string> :=
    ["gemini-2.0-flash", "gemini-1.5-flash-latest", "gemini-1.5-pro-latest", "gemini-pro"]

  const Byline := "News Hub AI"
  const WordsPerMinute := 200
  const NoContentError := "No content generated"
  const ParseError := "Failed to parse generated content"
  const AllModelsFailedError := "All Gemini models failed"

  /** The article handed back to the generation endpoint. `category` is copied from
      the model's JSON, which may not have it. */
  datatype GeneratedArticle = GeneratedArticle(
    slug: string,
    title: string,
    excerpt: string,
    content: string,
    category: Option<string>,
    publishedAt: int,
    readingTime: int,
    imageUrl: string,
    author: string,
    tags: seq<string>)

  /** What `JSON.parse` yields for the reply: every field may be missing. */
  datatype ParsedArticle = ParsedArticle(
    slug: Option<string>,
    title: Option<string>,
    excerpt: Option<string>,
    content: Option<string>,
    category: Option<string>,
    imageUrl: Option<string>,
    tags: Option<seq<string>>)

  /** How one call to a model ends: the request is rejected with an error, the
      response is not OK (its body text is kept), or the response is OK and may or
      may not carry the reply text at `candidates[0].content.parts[0].text`. */
  datatype ApiReply = Rejected(message: string) | NotOk(body: string) | Delivered(text: Option<string>)

  /** A property key as JavaScript forms it: `undefined` becomes "undefined". */
  function KeyOf(o: Option<string>): string {
    o.GetOr("undefined")
  }

  // ---------------------------------------------------------------------------
  // Extracting the JSON candidate: /```json\n?([\s\S]*?)\n?```/

  const OpenFence := "```json"
  const CloseFence := "```"

  /** The first capture of the fence pattern, if the text matches it. The match
      starts at the first "```json" (a later one cannot match when this one does
      not, since it holds a "```" the lazy body would have stopped at, as
      `FencedBodyAnyOpen` shows); one newline
      after the opening fence is skipped, and the body runs to the first "```"
      after it, without the newline just before that fence. */
  function FencedBody(text: string): Option<string> {
    match Text.IndexOfFrom(text, OpenFence, 0)
    case None => None
    case Some(p) =>
      var start := BodyStart(text, p);
      match Text.IndexOfFrom(text, CloseFence, start)
      case None => None
      case Some(f) => Some(text[start..BodyEnd(text, start, f)])
  }

  /** Just after the opening fence at `p`, and after one newline there if any. */
  function BodyStart(text: string, p: nat): nat {
    var q := p + |OpenFence|;
    if q < |text| && text[q] == '\n' then q + 1 else q
  }

  /** The closing fence at `f`, or the newline just before it if there is one. */
  function BodyEnd(text: string, start: nat, f: nat): (end: nat)
    requires start <= f <= |text|
    ensures start <= end <= f
  {
    if f > start && text[f - 1] == '\n' then f - 1 else f
  }

  /** The string handed to `JSON.parse`: the fenced body if there is one, otherwise
      the whole text, trimmed. */
  function JsonCandidate(text: string): string {
    Text.Trim(FencedBody(text).GetOr(text))
  }

  /** Text without an opening fence is parsed whole, after trimming. */
  lemma UnfencedIsWhole(text: string)
    requires forall i: nat :: !Text.OccursAt(text, OpenFence, i)
    ensures JsonCandidate(text) == Text.Trim(text)
  {
  }

  /** An occurrence inside a slice is an occurrence in the whole string. */
  lemma OccursInSlice(text: string, pat: string, lo: nat, hi: nat, i: nat)
    requires lo <= hi <= |text|
    requires Text.OccursAt(text[lo..hi], pat, i)
    ensures Text.OccursAt(text, pat, lo + i)
  {
    var sub := text[lo..hi];
    var a := sub[i..i + |pat|];
    var b := text[lo + i..lo + i + |pat|];
    forall k | 0 <= k < |a| ensures a[k] == b[k] {
      assert a[k] == sub[i + k];
    }
    assert a == b;
  }

  /** An occurrence in the whole string that lies inside a slice is an occurrence in
      the slice. */
  lemma OccursInSliceBack(text: string, pat: string, lo: nat, hi: nat, j: nat)
    requires lo <= j && j + |pat| <= hi <= |text|
    requires Text.OccursAt(text, pat, j)
    ensures Text.OccursAt(text[lo..hi], pat, j - lo)
  {
    var sub := text[lo..hi];
    var a := sub[j - lo..j - lo + |pat|];
    var b := text[j..j + |pat|];
    forall k | 0 <= k < |a| ensures a[k] == b[k] {
      assert a[k] == sub[j - lo + k];
    }
    assert a == b;
  }

  /** The fence pattern, stated on occurrences: it matches iff the text has an
      opening fence and, after the first one (and its newline), a closing fence. The
      body then runs from there to the first such closing fence, without the newline
      just before it; and with no match the whole text is trimmed and parsed. */
  lemma FencedBodyMatch(text: string)
    ensures FencedBody(text).Some? <==>
      exists p: nat, f: nat :: Text.FirstAt(text, OpenFence, 0, p) &&
        BodyStart(text, p) <= f && Text.OccursAt(text, CloseFence, f)
    ensures forall p: nat, f: nat ::
      Text.FirstAt(text, OpenFence, 0, p) && Text.FirstAt(text, CloseFence, BodyStart(text, p), f) ==>
        FencedBody(text) == Some(text[BodyStart(text, p)..BodyEnd(text, BodyStart(text, p), f)])
    ensures FencedBody(text).None? ==> JsonCandidate(text) == Text.Trim(text)
  {
    match Text.IndexOfFrom(text, OpenFence, 0)
    case None =>
      Text.FirstIsIndexOf(text, OpenFence, 0);
    case Some(p) =>
      Text.FirstIsIndexOf(text, OpenFence, 0);
      var start := BodyStart(text, p);
      Text.FirstIsIndexOf(text, CloseFence, start);
      match Text.IndexOfFrom(text, CloseFence, start)
      case None =>
      case Some(f) =>
        assert Text.FirstAt(text, OpenFence, 0, p) && start <= f && Text.OccursAt(text, CloseFence, f);
  }

  /** Two opening fences never overlap, and a later one starts at or after the body
      of an earlier one. */
  lemma OpenFenceApart(text: string, p: nat, q: nat)
    requires Text.OccursAt(text, OpenFence, p) && Text.OccursAt(text, OpenFence, q) && p < q
    ensures BodyStart(text, p) <= q
  {
    var a, b := text[p..p + 7], text[q..q + 7];
    assert a == OpenFence && b == OpenFence;
    assert text[q] == b[0] == '`' && text[q + 1] == b[1] == '`' && text[q + 2] == b[2] == '`';
  }

  /** The pattern matches iff some "```json", not only the first, is followed by a
      closing fence after its body start: a later opening fence is itself a closing
      fence for an earlier one. */
  lemma FencedBodyAnyOpen(text: string)
    ensures FencedBody(text).Some? <==>
      exists p: nat, f: nat :: Text.OccursAt(text, OpenFence, p) &&
        BodyStart(text, p) <= f && Text.OccursAt(text, CloseFence, f)
  {
    FencedBodyMatch(text);
    forall p: nat, f: nat | Text.OccursAt(text, OpenFence, p) &&
        BodyStart(text, p) <= f && Text.OccursAt(text, CloseFence, f)
      ensures FencedBody(text).Some?
    {
      LaterOpenMatches(text, p, f);
    }
  }

  lemma LaterOpenMatches(text: string, p: nat, f: nat)
    requires Text.OccursAt(text, OpenFence, p)
    requires BodyStart(text, p) <= f && Text.OccursAt(text, CloseFence, f)
    ensures FencedBody(text).Some?
  {
    var first := Text.IndexOfFrom(text, OpenFence, 0);
    assert first.Some?;
    var p0 := first.value;
    var g := f;
    if p0 < p {
      OpenFenceApart(text, p0, p);
      assert text[p..p + 3] == text[p..p + 7][..3];
      g := p;
    }
    assert BodyStart(text, p0) <= g && Text.OccursAt(text, CloseFence, g);
    assert Text.IndexOfFrom(text, CloseFence, BodyStart(text, p0)).Some?;
  }

  /** A fenced body never holds a closing fence. */
  lemma FencedBodyHasNoFence(text: string)
    requires FencedBody(text).Some?
    ensures forall i: nat :: !Text.OccursAt(FencedBody(text).value, CloseFence, i)
  {
    var p := Text.IndexOfFrom(text, OpenFence, 0).value;
    var start := BodyStart(text, p);
    var f := Text.IndexOfFrom(text, CloseFence, start).value;
    var end := BodyEnd(text, start, f);
    var b := text[start..end];
    assert FencedBody(text) == Some(b);
    forall i: nat | Text.OccursAt(b, CloseFence, i)
      ensures false
    {
      OccursInSlice(text, CloseFence, start, end, i);
    }
  }

  /** The reply shape the prompt asks for: whatever the model writes before the fence
      (without backticks), "```json", a newline, the JSON, a newline and "```". Its
      body is extracted exactly, whatever follows. */
  lemma FencedRoundTrip(pre: string, body: string, post: string)
    requires '`' !in pre
    requires forall i: nat :: !Text.OccursAt(body, CloseFence, i)
    ensures FencedBody(pre + OpenFence + "\n" + body + "\n" + CloseFence + post) == Some(body)
  {
    var head := pre + OpenFence + "\n";
    var tail := "\n" + CloseFence + post;
    var text := head + body + tail;
    assert text == pre + OpenFence + "\n" + body + "\n" + CloseFence + post;
    var p := |pre|;
    var start := p + 8;
    var f := start + |body| + 1;
    assert text[..p] == pre by { assert text[..p] == head[..p]; }
    assert text[p..p + 7] == OpenFence by { assert text[p..p + 7] == head[p..p + 7]; }
    assert text[p + 7] == '\n' by { assert text[p + 7] == head[p + 7]; }
    assert text[start..f - 1] == body;
    assert text[f - 1] == '\n' by { assert text[f - 1] == tail[0]; }
    assert text[f..f + 3] == CloseFence by { assert text[f..f + 3] == tail[1..4]; }
    OpenFenceFirst(text, pre);
    assert BodyStart(text, p) == start by { assert |OpenFence| == 7; }
    CloseFenceFirst(text, start, body, f);
    assert BodyEnd(text, start, f) == f - 1;
    FencedBodyAt(text, p, f);
  }

  /** One unfolding of `FencedBody` at known fence positions. */
  lemma FencedBodyAt(text: string, p: nat, f: nat)
    requires Text.IndexOfFrom(text, OpenFence, 0) == Some(p)
    requires Text.IndexOfFrom(text, CloseFence, BodyStart(text, p)) == Some(f)
    ensures FencedBody(text) == Some(text[BodyStart(text, p)..BodyEnd(text, BodyStart(text, p), f)])
  {
  }

  lemma OpenFenceFirst(text: string, pre: string)
    requires |pre| + |OpenFence| <= |text| && text[..|pre|] == pre && '`' !in pre
    requires text[|pre|..|pre| + |OpenFence|] == OpenFence
    ensures Text.IndexOfFrom(text, OpenFence, 0) == Some(|pre|)
  {
    assert |OpenFence| == 7 && OpenFence[0] == '`';
    assert Text.OccursAt(text, OpenFence, |pre|);
    forall j: nat | j < |pre| ensures !Text.OccursAt(text, OpenFence, j) {
      assert text[j] == pre[j];
    }
    var r := Text.IndexOfFrom(text, OpenFence, 0);
    assert r.Some?;
  }

  lemma CloseFenceFirst(text: string, start: nat, body: string, f: nat)
    requires f == start + |body| + 1 && f + 3 <= |text|
    requires text[start..f - 1] == body && text[f - 1] == '\n' && text[f..f + 3] == CloseFence
    requires forall i: nat :: !Text.OccursAt(body, CloseFence, i)
    ensures Text.IndexOfFrom(text, CloseFence, start) == Some(f)
  {
    assert Text.OccursAt(text, CloseFence, f);
    forall j: nat | start <= j < f ensures !Text.OccursAt(text, CloseFence, j) {
      if Text.OccursAt(text, CloseFence, j) && j + 3 <= f - 1 {
        OccursInSliceBack(text, CloseFence, start, f - 1, j);
      }
    }
  }

  // ---------------------------------------------------------------------------
  // Validation and defaults

  /** `article.slug && article.title && article.content`. */
  predicate HasRequiredFields(p: ParsedArticle) {
    Text.Truthy(p.slug) && Text.Truthy(p.title) && Text.Truthy(p.content)
  }

  /** `Math.ceil(content.split(' ').length / 200)`: the least number of minutes whose
      200 words per minute cover every space-separated piece. */
  function ReadingTime(content: string): (r: int)
    ensures r >= 1
    ensures (r - 1) * WordsPerMinute < |Text.Split(content, ' ')| <= r * WordsPerMinute
  {
    var pieces := |Text.Split(content, ' ')|;
    var r := Seqs.CeilDiv(pieces, WordsPerMinute);
    assert r * 200 + (pieces + 199) % 200 == pieces + 199;
    r
  }

  /** The reading time counts the spaces: one piece more than there are spaces. */
  lemma ReadingTimeCountsSpaces(content: string)
    ensures ReadingTime(content) == Seqs.CeilDiv(multiset(content)[' '] + 1, WordsPerMinute)
  {
    Text.SplitCount(content, ' ');
  }

  const UnsplashPrefix := "https://images.unsplash.com/"
  const UnsplashSuffix := "?w=800&h=450&fit=crop"
  const PoolSize := 5

  const CategoryImages: map<string, seq<string>> := map[
    "technology" := [
      "photo-1518770660439-4636190af475",
      "photo-1461749280684-dccba630e2f6",
      "photo-1488590528505-98d2b5aba04b",
      "photo-1550751827-4bd374c3f58b",
      "photo-1526374965328-7f61d4dc18c5"],
    "topics" := [
      "photo-1522071820081-009f0129c71c",
      "photo-1497032628192-86f99bcd76bc",
      "photo-1552664730-d307ca884978",
      "photo-1517245386807-bb43f82c33c4",
      "photo-1542744173-8e7e53415bb0"],
    "science" := [
      "photo-1507413245164-6160d8298b31",
      "photo-1532094349884-543bc11b234d",
      "photo-1451187580459-43490279c0fa",
      "photo-1628595351029-c2bf17511435",
      "photo-1507003211169-0a1dd7228f2d"],
    "business" := [
      "photo-1460925895917-afdab827c52f",
      "photo-1611974789855-9c2a0a7236a3",
      "photo-1507679799987-c73779587ccf",
      "photo-1454165804606-c3d57bc86b40",
      "photo-1486406146926-c627a92ad1ab"],
    "culture" := [
      "photo-1514320291840-2e0a9bf2a9ae",
      "photo-1493225457124-a3eb161ffa5f",
      "photo-1459749411175-04bf5292ceea",
      "photo-1499364615650-ec38552f4f34",
      "photo-1478147427282-58a87a120781"]
  ]

  /** The category's image pool, or the topics pool for an unknown category. */
  function ImagePool(category: string): (pool: seq<string>)
    ensures |pool| == PoolSize
    ensures category in CategoryImages ==> pool == CategoryImages[category]
    ensures category !in CategoryImages ==> pool == CategoryImages["topics"]
  {
    if category in CategoryImages then CategoryImages[category] else CategoryImages["topics"]
  }

  /** `getCategoryImageUrl`, with `pick` standing for `Math.floor(Math.random() * 5)`:
      an Unsplash URL for the picked photo of the category's pool. */
  function CategoryImageUrl(category: string, pick: nat): (url: string)
    requires pick < PoolSize
    ensures Text.StartsWith(url, "http")
    ensures url == UnsplashPrefix + ImagePool(category)[pick] + UnsplashSuffix
  {
    var url := UnsplashPrefix + ImagePool(category)[pick] + UnsplashSuffix;
    assert url[..4] == "http";
    url
  }

  /** The article built from a validated parse: slug, title, content and category
      copied, the excerpt falling back to the title, no tags when there are none, the
      fixed byline, the computed reading time and a stock image when none is given. */
  function BuildArticle(p: ParsedArticle, now: int, pick: nat): (a: GeneratedArticle)
    requires HasRequiredFields(p) && pick < PoolSize
    ensures a.slug == p.slug.value && a.title == p.title.value && a.content == p.content.value
    ensures a.category == p.category && a.publishedAt == now && a.author == Byline
    ensures a.excerpt == if Text.Truthy(p.excerpt) then p.excerpt.value else p.title.value
    ensures a.excerpt != ""
    ensures a.tags == p.tags.GetOr([])
    ensures a.readingTime >= 1 && a.readingTime == ReadingTime(p.content.value)
    ensures Text.Truthy(p.imageUrl) ==> a.imageUrl == p.imageUrl.value
    ensures !Text.Truthy(p.imageUrl) ==> a.imageUrl == CategoryImageUrl(KeyOf(p.category), pick)
    ensures a.imageUrl != ""
  {
    GeneratedArticle(
      slug := p.slug.value,
      title := p.title.value,
      excerpt := if Text.Truthy(p.excerpt) then p.excerpt.value else p.title.value,
      content := p.content.value,
      category := p.category,
      publishedAt := now,
      readingTime := ReadingTime(p.content.value),
      imageUrl := if Text.Truthy(p.imageUrl) then p.imageUrl.value else CategoryImageUrl(KeyOf(p.category), pick),
      author := Byline,
      tags := p.tags.GetOr([]))
  }

  /** `callGeminiAPI` after the request: the error for a rejected or failed request,
      none for an empty reply, the parse error for a reply `JSON.parse` refuses or
      one missing a required field, otherwise the built article. */
  function CallGemini(model: string, reply: ApiReply, parse: string -> Option<ParsedArticle>, now: int, pick: nat)
    : (r: Result<GeneratedArticle, string>)
    requires pick < PoolSize
    ensures r.Success? <==>
      reply.Delivered? && Text.Truthy(reply.text) &&
      parse(JsonCandidate(reply.text.value)).Some? && HasRequiredFields(parse(JsonCandidate(reply.text.value)).value)
    ensures r.Success? ==> r.value == BuildArticle(parse(JsonCandidate(reply.text.value)).value, now, pick)
    ensures reply.Rejected? ==> r == Failure(reply.message)
    ensures reply.NotOk? ==> r == Failure("Gemini API error (" + model + "): " + reply.body)
    ensures reply.Delivered? && !Text.Truthy(reply.text) ==> r == Failure(NoContentError)
    ensures reply.Delivered? && Text.Truthy(reply.text) && r.Failure? ==> r == Failure(ParseError)
  {
    match reply
    case Rejected(message) => Failure(message)
    case NotOk(body) => Failure("Gemini API error (" + model + "): " + body)
    case Delivered(text) =>
      if !Text.Truthy(text) then Failure(NoContentError)
      else
        match parse(JsonCandidate(text.value))
        case None => Failure(ParseError)
        case Some(article) =>
          if !HasRequiredFields(article) then Failure(ParseError)
          else Success(BuildArticle(article, now, pick))
  }

  // ---------------------------------------------------------------------------
  // The fallback loop

  /** One attempt per model: `callGeminiAPI` with that model's reply. */
  function Attempts(replyFor: string -> ApiReply, parse: string -> Option<ParsedArticle>, now: int, pick: nat)
    : (attempt: string -> Result<GeneratedArticle, string>)
    requires pick < PoolSize
    ensures forall m :: attempt(m) == CallGemini(m, replyFor(m), parse, now, pick)
  {
    (m: string) => CallGemini(m, replyFor(m), parse, now, pick)
  }

  /** The loop over the remaining models, as a fold: the first success, otherwise
      the last error, and the generic error only when nothing was tried. */
  function Fallback(models: seq<string>, lastError: Option<string>,
                    attempt: string -> Result<GeneratedArticle, string>)
    : Result<GeneratedArticle, string>
  {
    if models == [] then Failure(lastError.GetOr(AllModelsFailedError))
    else
      var result := attempt(models[0]);
      if result.Success? then result
      else Fallback(models[1..], Some(result.error), attempt)
  }

  /** Over a non-empty model list the fold gives the first model that succeeds, or the
      last model's error when every model fails; the generic error never appears. */
  lemma {:induction false} FallbackFirstSuccess(models: seq<string>, lastError: Option<string>,
                                                attempt: string -> Result<GeneratedArticle, string>)
    requires |models| >= 1
    ensures var r := Fallback(models, lastError, attempt);
            match Seqs.FindIndex(models, (m: string) => attempt(m).Success?)
            case Some(k) => r == attempt(models[k])
            case None => r == attempt(models[|models| - 1])
  {
    var first := attempt(models[0]);
    if first.Failure? && |models| > 1 {
      FallbackFirstSuccess(models[1..], Some(first.error), attempt);
      assert models[1..][|models| - 2] == models[|models| - 1];
    }
  }

  /** The loop of `generateArticleContent` for any attempt function: tries the
      models in order, returns the first result that succeeds and tries no model
      after it, and otherwise fails with the last model's error. `tried` records the
      models called, in order. */
  method TryInOrder(models: seq<string>, attempt: string -> Result<GeneratedArticle, string>)
    returns (r: Result<GeneratedArticle, string>, ghost tried: seq<string>)
    requires |models| >= 1
    ensures 1 <= |tried| <= |models| && tried == models[..|tried|]
    ensures forall j :: 0 <= j < |tried| - 1 ==> attempt(tried[j]).Failure?
    ensures r == attempt(tried[|tried| - 1])
    ensures r.Failure? ==> tried == models
    ensures r == Fallback(models, None, attempt)
  {
    var lastError: Option<string> := None;
    tried := [];
    for i := 0 to |models|
      invariant tried == models[..i]
      invariant forall j :: 0 <= j < i ==> attempt(tried[j]).Failure?
      invariant i > 0 ==> lastError == Some(attempt(tried[i - 1]).error)
      invariant Fallback(models, None, attempt) == Fallback(models[i..], lastError, attempt)
    {
      var model := models[i];
      tried := tried + [model];
      var result := attempt(model);
      if result.Success? {
        r := result;
        return;
      }
      lastError := Some(result.error);
      assert models[i..][1..] == models[i + 1..];
    }
    r := Failure(lastError.GetOr(AllModelsFailedError));
  }

  /** `generateArticleContent`: the loop over the four models, each attempt being
      `callGeminiAPI` with that model's reply. */
  method GenerateArticleContent(replyFor: string -> ApiReply, parse: string -> Option<ParsedArticle>,
                                now: int, pick: nat)
    returns (r: Result<GeneratedArticle, string>, ghost tried: seq<string>)
    requires pick < PoolSize
    ensures 1 <= |tried| <= |GeminiModels| && tried == GeminiModels[..|tried|]
    ensures forall j :: 0 <= j < |tried| - 1 ==>
      CallGemini(tried[j], replyFor(tried[j]), parse, now, pick).Failure?
    ensures r == CallGemini(tried[|tried| - 1], replyFor(tried[|tried| - 1]), parse, now, pick)
    ensures r.Failure? ==> tried == GeminiModels
    ensures r == Fallback(GeminiModels, None, Attempts(replyFor, parse, now, pick))
  {
    r, tried := TryInOrder(GeminiModels, Attempts(replyFor, parse, now, pick));
  }

  // ---------------------------------------------------------------------------
  // Prompt context

  const CategoryDescriptions: map<string, string> := map[
    "technology" := "technology, software, AI, gadgets, digital innovation",
    "topics" := "trending topics, current affairs, lifestyle, work trends",
    "science" := "scientific discoveries, research, space, nature, environment",
    "business" := "business news, markets, economy, entrepreneurship, finance",
    "culture" := "arts, entertainment, music, movies, cultural trends"
  ]

  /** The topic the prompt names: the category's description for a known key (an
      exact match), otherwise the category string itself. */
  function CategoryContext(category: string): (r: string)
    ensures category in CategoryDescriptions ==> r == CategoryDescriptions[category]
    ensures category !in CategoryDescriptions ==> r == category
    ensures r == "" <==> category == ""
  {
    if category in CategoryDescriptions && CategoryDescriptions[category] != "" then CategoryDescriptions[category]
    else category
  }
}

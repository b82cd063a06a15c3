/** The generation endpoint: the guards of `POST`, the image repair, the mapping of
    errors to responses, and `saveArticleToJson`, which upserts the generated article
    by slug into its category's document. The data directory is a map from file name
    (without ".json") to the parsed document; a failed read or write is a flag. */
module GenerateEndpoint {
  import opened Wrappers
  import Text
  import Seqs
  import Gemini

  type GeneratedArticle = Gemini.GeneratedArticle

  /** A category's JSON document as the writer reads and writes it. */
  datatype Document = Document(category: string, labelText: string, description: string, articles: seq<GeneratedArticle>)

  /** The file the article goes to: `${article.category}.json`, chosen by the
      generated article's own category. */
  function TargetFile(article: GeneratedArticle): string {
    Gemini.KeyOf(article.category)
  }

  function SlugIndex(list: seq<GeneratedArticle>, slug: string): Option<nat> {
    Seqs.FindIndex(list, (a: GeneratedArticle) => a.slug == slug)
  }

  /** The list after the upsert: the first article with the same slug replaced in
      place, or the article put first when no article has its slug. */
  function Upserted(list: seq<GeneratedArticle>, article: GeneratedArticle): seq<GeneratedArticle> {
    match SlugIndex(list, article.slug)
    case Some(i) => list[i := article]
    case None => [article] + list
  }

  /** `SlugIndex` finds exactly the first article with the slug. */
  lemma SlugIndexIsFirst(list: seq<GeneratedArticle>, slug: string, i: nat)
    requires i < |list| && list[i].slug == slug
    requires forall j :: 0 <= j < i ==> list[j].slug != slug
    ensures SlugIndex(list, slug) == Some(i)
  {
  }

  /** With the slug present: the first article with it is replaced by the new one, and
      the length and every other position are unchanged. */
  lemma UpsertExisting(list: seq<GeneratedArticle>, article: GeneratedArticle, i: nat)
    requires i < |list| && list[i].slug == article.slug
    requires forall j :: 0 <= j < i ==> list[j].slug != article.slug
    ensures |Upserted(list, article)| == |list|
    ensures Upserted(list, article)[i] == article
    ensures forall j :: 0 <= j < |list| && j != i ==> Upserted(list, article)[j] == list[j]
  {
    SlugIndexIsFirst(list, article.slug, i);
  }

  /** With a fresh slug: the list grows by one, the new article is first and the old
      list follows unchanged. */
  lemma UpsertFresh(list: seq<GeneratedArticle>, article: GeneratedArticle)
    requires forall j :: 0 <= j < |list| ==> list[j].slug != article.slug
    ensures Upserted(list, article) == [article] + list
    ensures |Upserted(list, article)| == |list| + 1 && Upserted(list, article)[0] == article
  {
  }

  /** Upserting the same article twice leaves the list as upserting it once. */
  lemma UpsertIdempotent(list: seq<GeneratedArticle>, article: GeneratedArticle)
    ensures Upserted(Upserted(list, article), article) == Upserted(list, article)
  {
    var once := Upserted(list, article);
    match SlugIndex(list, article.slug)
    case Some(i) =>
      SlugIndexIsFirst(once, article.slug, i);
      assert once[i := article] == once;
    case None =>
      SlugIndexIsFirst(once, article.slug, 0);
      assert once[0 := article] == once;
  }

  predicate SlugsUnique(list: seq<GeneratedArticle>) {
    forall i, j :: 0 <= i < j < |list| ==> list[i].slug != list[j].slug
  }

  /** The upsert keeps slugs unique within a document, and afterwards the article is
      the one entry with its slug. */
  lemma UpsertKeepsSlugsUnique(list: seq<GeneratedArticle>, article: GeneratedArticle)
    requires SlugsUnique(list)
    ensures SlugsUnique(Upserted(list, article))
    ensures article in Upserted(list, article)
    ensures forall j :: 0 <= j < |Upserted(list, article)| && Upserted(list, article)[j].slug == article.slug ==>
              Upserted(list, article)[j] == article
  {
    var r := Upserted(list, article);
    match SlugIndex(list, article.slug)
    case Some(i) =>
      assert r[i] == article;
    case None =>
      assert r[0] == article;
      forall j | 1 <= j < |r| ensures r[j].slug != article.slug {
        assert r[j] == list[j - 1];
      }
  }

  /** The parsed document `data` while `saveArticleToJson` works on it. */
  class CategoryFile {
    var category: string
    var labelText: string
    var description: string
    var articles: seq<GeneratedArticle>

    function Contents(): Document
      reads this
    {
      Document(category, labelText, description, articles)
    }

    /** `JSON.parse` of the file's text. */
    constructor (doc: Document)
      ensures Contents() == doc
    {
      category := doc.category;
      labelText := doc.labelText;
      description := doc.description;
      articles := doc.articles;
    }

    /** `findIndex` by slug, then the element assignment or the `unshift`. */
    method Upsert(article: GeneratedArticle)
      modifies this
      ensures Contents() == old(Contents()).(articles := Upserted(old(articles), article))
    {
      var existingIndex := SlugIndex(articles, article.slug);
      if existingIndex.Some? {
        articles := articles[existingIndex.value := article];
      } else {
        articles := [article] + articles;
      }
    }
  }

  /** What a save does to the directory: it succeeds iff the target file exists and is
      read and written without error, and then only that file changes, by the upsert. */
  predicate SaveEffect(before: map<string, Document>, after: map<string, Document>,
                       article: GeneratedArticle, readOk: bool, writeOk: bool, saved: bool)
  {
    var key := TargetFile(article);
    (saved <==> readOk && writeOk && key in before) &&
    after == if saved then before[key := before[key].(articles := Upserted(before[key].articles, article))]
             else before
  }

  class DataDirectory {
    var files: map<string, Document>

    constructor (files: map<string, Document>)
      ensures this.files == files
    {
      this.files := files;
    }

    /** `saveArticleToJson`: `readOk` is false when reading or parsing the file fails,
        `writeOk` when writing it fails; either failure, or a missing file, gives
        false and leaves the directory as it was. */
    method SaveArticleToJson(article: GeneratedArticle, readOk: bool, writeOk: bool) returns (saved: bool)
      modifies this
      ensures SaveEffect(old(files), files, article, readOk, writeOk, saved)
    {
      var key := TargetFile(article);
      if !readOk || key !in files {
        return false;
      }
      var data := new CategoryFile(files[key]);
      data.Upsert(article);
      if !writeOk {
        return false;
      }
      files := files[key := data.Contents()];
      return true;
    }
  }

  // ---------------------------------------------------------------------------
  // POST

  /** The request body: `request.json()` failing with a message, or the fields read
      from it. */
  datatype RequestBody = Unreadable(message: string) | Body(category: Option<string>, description: Option<string>)

  datatype ResponseBody = Failed(error: string) | Generated(article: GeneratedArticle, saved: bool)

  datatype Response = Response(status: int, body: ResponseBody)

  const MissingKeyError := "GEMINI_API_KEY not configured"
  const MissingCategoryError := "Category is required"

  /** The image check after generation: an image URL that is empty or does not start
      with "http" is replaced by a stock image for the requested category. */
  function RepairImageUrl(article: GeneratedArticle, category: string, pick: nat): (r: GeneratedArticle)
    requires pick < Gemini.PoolSize
    ensures Text.StartsWith(r.imageUrl, "http")
    ensures r == article.(imageUrl := r.imageUrl)
    ensures Text.StartsWith(article.imageUrl, "http") ==> r == article
    ensures !Text.StartsWith(article.imageUrl, "http") ==> r.imageUrl == Gemini.CategoryImageUrl(category, pick)
  {
    if article.imageUrl == "" || !Text.StartsWith(article.imageUrl, "http") then
      article.(imageUrl := Gemini.CategoryImageUrl(category, pick))
    else article
  }

  /** `POST /api/generate`. `pick` is the random image index inside generation,
      `repairPick` the one of the image repair. The API key is checked before the body
      is read, the category before anything is generated; a failure of reading the
      body or of generation is a 500 with its message; on success the repaired
      article is saved to the file its own category names. */
  method Post(dir: DataDirectory, apiKey: Option<string>, body: RequestBody,
              replyFor: string -> Gemini.ApiReply, parse: string -> Option<Gemini.ParsedArticle>,
              now: int, pick: nat, repairPick: nat, readOk: bool, writeOk: bool)
    returns (resp: Response)
    requires pick < Gemini.PoolSize && repairPick < Gemini.PoolSize
    modifies dir
    ensures !Text.Truthy(apiKey) ==>
      resp == Response(500, Failed(MissingKeyError)) && dir.files == old(dir.files)
    ensures Text.Truthy(apiKey) && body.Unreadable? ==>
      resp == Response(500, Failed(body.message)) && dir.files == old(dir.files)
    ensures Text.Truthy(apiKey) && body.Body? && !Text.Truthy(body.category) ==>
      resp == Response(400, Failed(MissingCategoryError)) && dir.files == old(dir.files)
    ensures Text.Truthy(apiKey) && body.Body? && Text.Truthy(body.category) ==>
      var g := Gemini.Fallback(Gemini.GeminiModels, None, Gemini.Attempts(replyFor, parse, now, pick));
      (g.Failure? ==> resp == Response(500, Failed(g.error)) && dir.files == old(dir.files)) &&
      (g.Success? ==>
        resp.status == 200 && resp.body.Generated? &&
        resp.body.article == RepairImageUrl(g.value, body.category.value, repairPick) &&
        SaveEffect(old(dir.files), dir.files, resp.body.article, readOk, writeOk, resp.body.saved))
  {
    if !Text.Truthy(apiKey) {
      return Response(500, Failed(MissingKeyError));
    }
    if body.Unreadable? {
      return Response(500, Failed(body.message));
    }
    var category := body.category;
    if !Text.Truthy(category) {
      return Response(400, Failed(MissingCategoryError));
    }
    var generated, tried := Gemini.GenerateArticleContent(replyFor, parse, now, pick);
    if generated.Failure? {
      return Response(500, Failed(generated.error));
    }
    var article := RepairImageUrl(generated.value, category.value, repairPick);
    var saved := dir.SaveArticleToJson(article, readOk, writeOk);
    return Response(200, Generated(article, saved));
  }
}

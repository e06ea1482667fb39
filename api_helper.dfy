/**
 * The frontend helper: it flattens the backend's nested response shape into the
 * display records, builds the article query, shapes the article result, and
 * renders code blocks. JSON values that may be missing or `null` are `Option`s;
 * JavaScript's `a || b` on a string takes `b` exactly when `a` is missing or "".
 */
module ApiHelper {
  import opened Wrappers
  import JsNumbers
  import HtmlEscape
  import opened Strings

  // ----- Response shapes

  /** `{ attributes: ... }`, the attributes possibly missing. */
  datatype Entry<T> = Entry(attributes: Option<T>)

  /** A relation or media field: `{ data: Entry | null }`. */
  datatype Relation<T> = Relation(data: Option<Entry<T>>)

  datatype MediaAttributes = MediaAttributes(url: Option<string>)

  datatype AuthorAttributes = AuthorAttributes(
    name: Option<string>,
    email: Option<string>,
    avatar: Option<Relation<MediaAttributes>>)

  datatype CategoryAttributes = CategoryAttributes(
    name: Option<string>,
    slug: Option<string>,
    description: Option<string>,
    color: Option<string>,
    image: Option<Relation<MediaAttributes>>)

  datatype ArticleAttributes = ArticleAttributes(
    title: Option<string>,
    description: Option<string>,
    content: Option<string>,
    slug: Option<string>,
    author: Option<Relation<AuthorAttributes>>,
    category: Option<Relation<CategoryAttributes>>,
    publishedAt: Option<string>,
    createdAt: Option<string>,
    image: Option<Relation<MediaAttributes>>)

  datatype RawArticle = RawArticle(id: int, attributes: ArticleAttributes)
  datatype RawCategory = RawCategory(id: int, attributes: CategoryAttributes)
  datatype RawAuthor = RawAuthor(id: int, attributes: AuthorAttributes)

  // ----- Display shapes

  datatype MediaRef = MediaRef(url: string)

  datatype DisplayArticle = DisplayArticle(
    id: int,
    title: Option<string>,
    description: Option<string>,
    content: Option<string>,
    slug: Option<string>,
    author: string,
    category: string,
    publishedAt: Option<string>,
    image: MediaRef,
    authorImage: MediaRef)

  datatype DisplayCategory = DisplayCategory(
    id: int,
    name: Option<string>,
    slug: Option<string>,
    description: Option<string>,
    color: Option<string>,
    image: MediaRef)

  datatype DisplayAuthor = DisplayAuthor(
    id: int,
    name: Option<string>,
    email: Option<string>,
    avatar: MediaRef)

  const DefaultAuthorName := "Daniel Alvarez"
  const DefaultCategoryName := "General"
  const DefaultAvatarUrl := "/default-avatar.png"
  const NoImageUrl := ""

  // ----- Optional chains and fallbacks

  predicate Truthy(s: Option<string>) {
    s.Some? && s.value != ""
  }

  /** `s || fallback` */
  function OrElse(s: Option<string>, fallback: string): string {
    if Truthy(s) then s.value else fallback
  }

  /** `rel?.data?.attributes` */
  function Resolve<T>(rel: Option<Relation<T>>): Option<T> {
    if rel.Some? && rel.value.data.Some? then rel.value.data.value.attributes else None
  }

  /** `media?.data?.attributes?.url` */
  function UrlOf(media: Option<Relation<MediaAttributes>>): Option<string> {
    match Resolve(media)
    case Some(m) => m.url
    case None => None
  }

  /** `attributes.author?.data?.attributes?.name` */
  function AuthorNameOf(attributes: ArticleAttributes): Option<string> {
    match Resolve(attributes.author)
    case Some(a) => a.name
    case None => None
  }

  /** `attributes.author?.data?.attributes?.avatar?.data?.attributes?.url` */
  function AvatarUrlOf(attributes: ArticleAttributes): Option<string> {
    match Resolve(attributes.author)
    case Some(a) => UrlOf(a.avatar)
    case None => None
  }

  /** `attributes.category?.data?.attributes?.name` */
  function CategoryNameOf(attributes: ArticleAttributes): Option<string> {
    match Resolve(attributes.category)
    case Some(c) => c.name
    case None => None
  }

  // ----- Array.prototype.map

  function MapEach<A, B>(f: A -> B, xs: seq<A>): (r: seq<B>)
    ensures |r| == |xs|
    ensures forall i :: 0 <= i < |xs| ==> r[i] == f(xs[i])
  {
    if xs == [] then [] else [f(xs[0])] + MapEach(f, xs[1..])
  }

  // ----- transformStrapiArticle / transformStrapiArticles

  /** Flattens one article; every display string that has a default is never empty. */
  function TransformArticle(raw: RawArticle): (r: DisplayArticle)
    ensures r.id == raw.id && r.title == raw.attributes.title && r.description == raw.attributes.description
    ensures r.content == raw.attributes.content && r.slug == raw.attributes.slug
    ensures Truthy(AuthorNameOf(raw.attributes)) ==> r.author == AuthorNameOf(raw.attributes).value
    ensures !Truthy(AuthorNameOf(raw.attributes)) ==> r.author == DefaultAuthorName
    ensures Truthy(CategoryNameOf(raw.attributes)) ==> r.category == CategoryNameOf(raw.attributes).value
    ensures !Truthy(CategoryNameOf(raw.attributes)) ==> r.category == DefaultCategoryName
    ensures r.publishedAt == if Truthy(raw.attributes.publishedAt) then raw.attributes.publishedAt else raw.attributes.createdAt
    ensures Truthy(UrlOf(raw.attributes.image)) ==> r.image.url == UrlOf(raw.attributes.image).value
    ensures !Truthy(UrlOf(raw.attributes.image)) ==> r.image.url == NoImageUrl
    ensures Truthy(AvatarUrlOf(raw.attributes)) ==> r.authorImage.url == AvatarUrlOf(raw.attributes).value
    ensures !Truthy(AvatarUrlOf(raw.attributes)) ==> r.authorImage.url == DefaultAvatarUrl
    ensures r.author != "" && r.category != "" && r.authorImage.url != ""
  {
    var a := raw.attributes;
    DisplayArticle(
      raw.id,
      a.title,
      a.description,
      a.content,
      a.slug,
      OrElse(AuthorNameOf(a), DefaultAuthorName),
      OrElse(CategoryNameOf(a), DefaultCategoryName),
      if Truthy(a.publishedAt) then a.publishedAt else a.createdAt,
      MediaRef(OrElse(UrlOf(a.image), NoImageUrl)),
      MediaRef(OrElse(AvatarUrlOf(a), DefaultAvatarUrl)))
  }

  /** A missing relation anywhere along a chain falls back to the documented default. */
  lemma MissingFieldsFallBack(raw: RawArticle)
    ensures var a := raw.attributes;
      (a.author.None? || a.author.value.data.None?) ==>
        TransformArticle(raw).author == DefaultAuthorName && TransformArticle(raw).authorImage.url == DefaultAvatarUrl
    ensures var a := raw.attributes;
      (a.category.None? || a.category.value.data.None?) ==> TransformArticle(raw).category == DefaultCategoryName
    ensures var a := raw.attributes;
      (a.image.None? || a.image.value.data.None?) ==> TransformArticle(raw).image.url == NoImageUrl
    ensures raw.attributes.publishedAt.None? ==> TransformArticle(raw).publishedAt == raw.attributes.createdAt
  {
  }

  /** Flattens a list of articles element by element, keeping length and order. */
  function TransformArticles(raws: seq<RawArticle>): (r: seq<DisplayArticle>)
    ensures |r| == |raws|
    ensures forall i :: 0 <= i < |raws| ==> r[i] == TransformArticle(raws[i])
  {
    MapEach(TransformArticle, raws)
  }

  // ----- the record mappings of fetchCategories and fetchAuthors

  function DisplayCategoryOf(raw: RawCategory): (r: DisplayCategory)
    ensures r.id == raw.id && r.name == raw.attributes.name && r.slug == raw.attributes.slug
    ensures r.description == raw.attributes.description && r.color == raw.attributes.color
    ensures Truthy(UrlOf(raw.attributes.image)) ==> r.image.url == UrlOf(raw.attributes.image).value
    ensures !Truthy(UrlOf(raw.attributes.image)) ==> r.image.url == NoImageUrl
  {
    var a := raw.attributes;
    DisplayCategory(raw.id, a.name, a.slug, a.description, a.color, MediaRef(OrElse(UrlOf(a.image), NoImageUrl)))
  }

  function DisplayAuthorOf(raw: RawAuthor): (r: DisplayAuthor)
    ensures r.id == raw.id && r.name == raw.attributes.name && r.email == raw.attributes.email
    ensures Truthy(UrlOf(raw.attributes.avatar)) ==> r.avatar.url == UrlOf(raw.attributes.avatar).value
    ensures !Truthy(UrlOf(raw.attributes.avatar)) ==> r.avatar.url == DefaultAvatarUrl
    ensures r.avatar.url != ""
  {
    var a := raw.attributes;
    DisplayAuthor(raw.id, a.name, a.email, MediaRef(OrElse(UrlOf(a.avatar), DefaultAvatarUrl)))
  }

  /** `data.data.map(...)` in `fetchCategories`. */
  function CategoriesOf(data: seq<RawCategory>): (r: seq<DisplayCategory>)
    ensures |r| == |data|
    ensures forall i :: 0 <= i < |data| ==> r[i] == DisplayCategoryOf(data[i])
  {
    MapEach(DisplayCategoryOf, data)
  }

  /** `data.data.map(...)` in `fetchAuthors`. */
  function AuthorsOf(data: seq<RawAuthor>): (r: seq<DisplayAuthor>)
    ensures |r| == |data|
    ensures forall i :: 0 <= i < |data| ==> r[i] == DisplayAuthorOf(data[i])
  {
    MapEach(DisplayAuthorOf, data)
  }

  // ----- fetchArticles: the query it sends and the result it returns

  /** The `options` argument; a member left undefined takes its destructuring default. */
  datatype FetchOptions = FetchOptions(
    page: Option<int>,
    pageSize: Option<int>,
    category: Option<string>,
    slug: Option<string>,
    published: Option<bool>)

  function PageOf(o: FetchOptions): int {
    o.page.GetOr(1)
  }

  function PageSizeOf(o: FetchOptions): int {
    o.pageSize.GetOr(25)
  }

  predicate PublishedOnly(o: FetchOptions) {
    o.published.GetOr(true)
  }

  /** One `URLSearchParams` entry, name and value. */
  type Param = (string, string)

  const PublishedKey := "filters[publishedAt][$notNull]"
  const CategoryKey := "filters[category][$eq]"
  const SlugKey := "filters[slug][$eq]"

  /** The entries the parameter list is created with. */
  function BaseParams(o: FetchOptions): seq<Param> {
    [ ("populate[image]", "*"),
      ("populate[author][populate][avatar]", "*"),
      ("populate[category]", "*"),
      ("pagination[page]", JsNumbers.ShowInt(PageOf(o))),
      ("pagination[pageSize]", JsNumbers.ShowInt(PageSizeOf(o))) ]
  }

  /** The filters appended after the base entries, each only when its option is set. */
  function Filters(o: FetchOptions): (r: seq<Param>)
    ensures |r| <= 3
  {
    (if PublishedOnly(o) then [(PublishedKey, "true")] else [])
    + (if Truthy(o.category) then [(CategoryKey, o.category.value)] else [])
    + (if Truthy(o.slug) then [(SlugKey, o.slug.value)] else [])
  }

  /** The whole parameter list. */
  function QueryParams(o: FetchOptions): (r: seq<Param>)
    ensures 5 <= |r| <= 8
  {
    BaseParams(o) + Filters(o)
  }

  /** Builds the parameter list as `fetchArticles` does, appending one filter at a time. */
  method BuildQueryParams(o: FetchOptions) returns (params: seq<Param>)
    ensures params == QueryParams(o)
  {
    params := BaseParams(o);
    if PublishedOnly(o) {
      params := params + [(PublishedKey, "true")];
    }
    if Truthy(o.category) {
      params := params + [(CategoryKey, o.category.value)];
    }
    if Truthy(o.slug) {
      params := params + [(SlugKey, o.slug.value)];
    }
  }

  ghost predicate HasKey(params: seq<Param>, key: string) {
    exists v :: (key, v) in params
  }

  /** Position of a filter among the appended entries; 3 for anything else. */
  function FilterRank(key: string): nat {
    if key == PublishedKey then 0
    else if key == CategoryKey then 1
    else if key == SlugKey then 2
    else 3
  }

  lemma FilterKeysDistinct()
    ensures FilterRank(PublishedKey) == 0 && FilterRank(CategoryKey) == 1 && FilterRank(SlugKey) == 2
  {
    assert CategoryKey[8] != PublishedKey[8];
    assert SlugKey[8] != PublishedKey[8] && SlugKey[8] != CategoryKey[8];
  }

  /** Keys starting with `p` (the populate and pagination keys) are no filter keys. */
  lemma NotFilterKey(key: string)
    requires |key| > 0 && key[0] == 'p'
    ensures FilterRank(key) == 3
  {
    assert PublishedKey[0] == 'f' && CategoryKey[0] == 'f' && SlugKey[0] == 'f';
  }

  /**
   * The query always starts with the three populate entries and the two
   * pagination entries, whose values read back as the page and page size asked
   * for (1 and 25 by default); the filters follow.
   */
  lemma QueryParamsBase(o: FetchOptions)
    ensures var r := QueryParams(o); |r| >= 5 && r[..5] == BaseParams(o) && r[5..] == Filters(o)
    ensures var r := QueryParams(o);
      JsNumbers.ParseInt(r[3].1) == Some(PageOf(o)) && JsNumbers.ParseInt(r[4].1) == Some(PageSizeOf(o))
    ensures forall i :: 0 <= i < 5 ==> FilterRank(BaseParams(o)[i].0) == 3
  {
    var base := BaseParams(o);
    forall i | 0 <= i < 5 ensures FilterRank(base[i].0) == 3 {
      NotFilterKey(base[i].0);
    }
    var page, size := JsNumbers.ShowInt(PageOf(o)), JsNumbers.ShowInt(PageSizeOf(o));
    JsNumbers.ParseIntShowInt(PageOf(o), "");
    JsNumbers.ParseIntShowInt(PageSizeOf(o), "");
    assert page + "" == page && size + "" == size;
  }

  /** An entry under a filter key is one of the appended filters, never a base entry. */
  lemma FilterKeyInQuery(o: FetchOptions, key: string, v: string)
    requires FilterRank(key) < 3
    ensures (key, v) in QueryParams(o) <==> (key, v) in Filters(o)
  {
    QueryParamsBase(o);
    var base := BaseParams(o);
    assert QueryParams(o) == base + Filters(o);
  }

  /** The appended filters: each entry is present exactly when its option is set, with the option's value. */
  lemma FilterEntries(o: FetchOptions, key: string, v: string)
    ensures (key, v) in Filters(o) <==>
      || (key == PublishedKey && v == "true" && PublishedOnly(o))
      || (key == CategoryKey && Truthy(o.category) && v == o.category.value)
      || (key == SlugKey && Truthy(o.slug) && v == o.slug.value)
  {
    FilterKeysDistinct();
    var p := if PublishedOnly(o) then [(PublishedKey, "true")] else [];
    var c := if Truthy(o.category) then [(CategoryKey, o.category.value)] else [];
    var t := if Truthy(o.slug) then [(SlugKey, o.slug.value)] else [];
    assert Filters(o) == p + c + t;
    assert (key, v) in Filters(o) <==> (key, v) in p || (key, v) in c || (key, v) in t;
  }

  /** Each filter is in the query exactly when its option is set, carrying the option's value. */
  lemma QueryParamsFilters(o: FetchOptions)
    ensures HasKey(QueryParams(o), PublishedKey) <==> PublishedOnly(o)
    ensures HasKey(QueryParams(o), CategoryKey) <==> Truthy(o.category)
    ensures HasKey(QueryParams(o), SlugKey) <==> Truthy(o.slug)
    ensures forall v :: (CategoryKey, v) in QueryParams(o) ==> Some(v) == o.category
    ensures forall v :: (SlugKey, v) in QueryParams(o) ==> Some(v) == o.slug
  {
    var r := QueryParams(o);
    FilterKeysDistinct();
    forall key, v | FilterRank(key) < 3
      ensures (key, v) in r <==>
        || (key == PublishedKey && v == "true" && PublishedOnly(o))
        || (key == CategoryKey && Truthy(o.category) && v == o.category.value)
        || (key == SlugKey && Truthy(o.slug) && v == o.slug.value)
    {
      FilterKeyInQuery(o, key, v);
      FilterEntries(o, key, v);
    }
    if PublishedOnly(o) {
      assert (PublishedKey, "true") in r;
    }
    if Truthy(o.category) {
      assert (CategoryKey, o.category.value) in r;
    }
    if Truthy(o.slug) {
      assert (SlugKey, o.slug.value) in r;
    }
  }

  /** The filters come after the base entries in the order published, category, slug, each at most once. */
  lemma QueryParamsOrder(o: FetchOptions)
    ensures var r := QueryParams(o);
      forall i, j :: 5 <= i < j < |r| ==> FilterRank(r[i].0) < FilterRank(r[j].0) < 3
  {
    FilterKeysDistinct();
    QueryParamsBase(o);
  }

  /** `data.meta`, passed through untouched. */
  datatype Pagination = Pagination(page: int, pageSize: int, pageCount: int, total: int)

  /** The parsed JSON body of the articles response. */
  datatype ArticlesPayload = ArticlesPayload(data: seq<RawArticle>, meta: Option<Pagination>)

  /** With a slug: one article or `null`; otherwise the list with its metadata. */
  datatype FetchResult =
    | Single(article: Option<DisplayArticle>)
    | Listing(articles: seq<DisplayArticle>, meta: Option<Pagination>)

  function ArticlesResult(o: FetchOptions, payload: ArticlesPayload): (r: FetchResult)
    ensures r.Single? <==> Truthy(o.slug)
    ensures r.Single? ==> (r.article.None? <==> payload.data == [])
    ensures r.Single? && payload.data != [] ==> r.article == Some(TransformArticle(payload.data[0]))
    ensures r.Listing? ==> r.meta == payload.meta && |r.articles| == |payload.data|
    ensures r.Listing? ==> forall i :: 0 <= i < |payload.data| ==> r.articles[i] == TransformArticle(payload.data[i])
  {
    if Truthy(o.slug) then
      Single(if |payload.data| > 0 then Some(TransformArticle(payload.data[0])) else None)
    else
      Listing(TransformArticles(payload.data), payload.meta)
  }

  /**
   * `fetchArticles` once the response body has been parsed: the parameters it
   * sends, and what it returns for `payload`.
   */
  method FetchArticles(o: FetchOptions, payload: ArticlesPayload) returns (params: seq<Param>, result: FetchResult)
    ensures params == QueryParams(o)
    ensures result == ArticlesResult(o, payload)
    ensures Truthy(o.slug) ==> HasKey(params, SlugKey) && result.Single?
  {
    params := BuildQueryParams(o);
    QueryParamsFilters(o);
    result := ArticlesResult(o, payload);
  }

  // ----- processCodeBlocks

  /** A dynamic-zone block; only `shared.code-block` blocks use the other fields. */
  datatype Block = Block(
    component: string,
    code: string,
    language: string,
    filename: Option<string>,
    showLineNumbers: Option<bool>)

  const CodeBlockComponent := "shared.code-block"

  predicate IsCodeBlock(b: Block) {
    b.component == CodeBlockComponent
  }

  /** A line break and the template's eight-space indentation. */
  const LineStart := "\n        "
  const FilenameOpen := "<div class=\"code-filename\">"
  const FragmentEnd := "</code></pre>\n      "

  function FilenameHeader(filename: Option<string>): string {
    if Truthy(filename) then FilenameOpen + filename.value + "</div>" else ""
  }

  function LineNumberClass(showLineNumbers: Option<bool>): string {
    if showLineNumbers == Some(true) then "line-numbers" else ""
  }

  /** The fragment up to the `pre` element's class value. */
  function FragmentOpening(b: Block): string {
    LineStart + FilenameHeader(b.filename) + LineStart + "<pre class=\""
  }

  /** The `code` element: language inserted verbatim, code escaped. */
  function CodeElement(b: Block): string {
    "<code class=\"language-" + b.language + "\">" + HtmlEscape.Escape(b.code) + FragmentEnd
  }

  /** The fragment from the closing quote of the `pre` class onward. */
  function CodeTail(b: Block): string {
    "\">" + CodeElement(b)
  }

  /** The template literal one code block renders to. */
  function CodeFragment(b: Block): string {
    FragmentOpening(b) + LineNumberClass(b.showLineNumbers) + CodeTail(b)
  }

  /** The `filter` step: the code blocks, in input order. */
  function CodeBlocksOf(blocks: seq<Block>): (r: seq<Block>)
    ensures |r| <= |blocks|
    ensures forall b :: b in r <==> b in blocks && IsCodeBlock(b)
  {
    if blocks == [] then []
    else if IsCodeBlock(blocks[0]) then [blocks[0]] + CodeBlocksOf(blocks[1..])
    else CodeBlocksOf(blocks[1..])
  }

  /** `join('')` */
  function Join(parts: seq<string>): string {
    if parts == [] then "" else parts[0] + Join(parts[1..])
  }

  /** `processCodeBlocks(blocks = [])`: `None` is an omitted argument. */
  function ProcessCodeBlocks(blocks: Option<seq<Block>>): string {
    Join(MapEach(CodeFragment, CodeBlocksOf(blocks.GetOr([]))))
  }

  lemma PrefixOfAppend(x: string, y: string, p: string)
    requires StartsWith(x, p)
    ensures StartsWith(x + y, p)
  {
    assert (x + y)[..|p|] == x[..|p|];
  }

  lemma SuffixOfAppend(x: string, y: string, p: string)
    requires EndsWith(y, p)
    ensures EndsWith(x + y, p)
  {
    assert (x + y)[|x + y| - |p|..] == y[|y| - |p|..];
  }

  lemma {:induction false} MapEachAppend<A, B>(f: A -> B, xs: seq<A>, ys: seq<A>)
    ensures MapEach(f, xs + ys) == MapEach(f, xs) + MapEach(f, ys)
  {
    var l, r := MapEach(f, xs + ys), MapEach(f, xs) + MapEach(f, ys);
    assert |l| == |r|;
    forall i | 0 <= i < |l| ensures l[i] == r[i] {
      if i < |xs| {
        assert (xs + ys)[i] == xs[i];
      } else {
        assert (xs + ys)[i] == ys[i - |xs|];
      }
    }
  }

  lemma {:induction false} CodeBlocksOfAppend(a: seq<Block>, b: seq<Block>)
    ensures CodeBlocksOf(a + b) == CodeBlocksOf(a) + CodeBlocksOf(b)
  {
    if a == [] {
      assert a + b == b;
    } else {
      assert (a + b)[1..] == a[1..] + b;
      CodeBlocksOfAppend(a[1..], b);
    }
  }

  lemma {:induction false} JoinAppend(a: seq<string>, b: seq<string>)
    ensures Join(a + b) == Join(a) + Join(b)
  {
    if a == [] {
      assert a + b == b;
    } else {
      assert (a + b)[1..] == a[1..] + b;
      JoinAppend(a[1..], b);
    }
  }

  /** Rendering works block by block: the output for `a + b` is that for `a` followed by that for `b`. */
  lemma ProcessCodeBlocksAppend(a: seq<Block>, b: seq<Block>)
    ensures ProcessCodeBlocks(Some(a + b)) == ProcessCodeBlocks(Some(a)) + ProcessCodeBlocks(Some(b))
  {
    CodeBlocksOfAppend(a, b);
    MapEachAppend(CodeFragment, CodeBlocksOf(a), CodeBlocksOf(b));
    JoinAppend(MapEach(CodeFragment, CodeBlocksOf(a)), MapEach(CodeFragment, CodeBlocksOf(b)));
  }

  /** A code block renders to its fragment, any other block to nothing; no blocks render to "". */
  lemma ProcessCodeBlocksSingle(b: Block)
    ensures ProcessCodeBlocks(Some([b])) == if IsCodeBlock(b) then CodeFragment(b) else ""
    ensures ProcessCodeBlocks(None) == "" && ProcessCodeBlocks(Some([])) == ""
  {
    assert [b][1..] == [];
    if IsCodeBlock(b) {
      assert MapEach(CodeFragment, [b]) == [CodeFragment(b)];
      assert Join([CodeFragment(b)]) == CodeFragment(b) + Join([]);
    }
  }

  /** A list with no code block renders to "". */
  lemma {:induction false} ProcessCodeBlocksSkipsOthers(blocks: seq<Block>)
    requires forall b :: b in blocks ==> !IsCodeBlock(b)
    ensures ProcessCodeBlocks(Some(blocks)) == ""
  {
    if blocks != [] {
      assert !IsCodeBlock(blocks[0]) by {
        assert blocks[0] in blocks;
      }
      assert forall b :: b in blocks[1..] ==> b in blocks;
      ProcessCodeBlocksSkipsOthers(blocks[1..]);
      assert CodeBlocksOf(blocks) == CodeBlocksOf(blocks[1..]);
    }
  }

  /** A fragment opens with the filename header exactly when the filename is set, and shows it verbatim. */
  lemma FragmentHeader(b: Block)
    ensures StartsWith(CodeFragment(b), LineStart + FilenameOpen) <==> Truthy(b.filename)
    ensures Truthy(b.filename) ==> StartsWith(CodeFragment(b), LineStart + FilenameOpen + b.filename.value + "</div>")
  {
    var header := FilenameHeader(b.filename);
    var lead := LineStart + header;
    var f := CodeFragment(b);
    assert StartsWith(f, lead) by {
      PrefixOfAppend(lead, LineStart, lead);
      PrefixOfAppend(lead + LineStart, "<pre class=\"", lead);
      PrefixOfAppend(FragmentOpening(b), LineNumberClass(b.showLineNumbers), lead);
      PrefixOfAppend(FragmentOpening(b) + LineNumberClass(b.showLineNumbers), CodeTail(b), lead);
    }
    if Truthy(b.filename) {
      assert lead == LineStart + FilenameOpen + b.filename.value + "</div>";
      assert StartsWith(lead, LineStart + FilenameOpen) by {
        assert lead == (LineStart + FilenameOpen) + (b.filename.value + "</div>");
      }
    } else {
      assert StartsWith(f, LineStart + LineStart) by {
        PrefixOfAppend(LineStart + LineStart, "<pre class=\"", LineStart + LineStart);
        PrefixOfAppend(FragmentOpening(b), LineNumberClass(b.showLineNumbers), LineStart + LineStart);
        PrefixOfAppend(FragmentOpening(b) + LineNumberClass(b.showLineNumbers), CodeTail(b), LineStart + LineStart);
      }
      assert f[9] == (LineStart + LineStart)[9] == '\n';
      assert (LineStart + FilenameOpen)[9] == '<';
    }
  }

  /** A fragment carries the `line-numbers` class exactly when `showLineNumbers` is true. */
  lemma FragmentLineNumbers(b: Block)
    ensures EndsWith(CodeFragment(b), "line-numbers" + CodeTail(b)) <==> b.showLineNumbers == Some(true)
  {
    var opening := FragmentOpening(b);
    var t := CodeTail(b);
    var p := "line-numbers" + t;
    var f := CodeFragment(b);
    if b.showLineNumbers == Some(true) {
      assert f == opening + p;
      SuffixOfAppend(opening, p, p);
    } else {
      assert f == opening + t;
      assert opening[|opening| - 1] == '"';
      assert f[|f| - |t| - 1] == '"';
      assert p[|p| - |t| - 1] == 's';
      if |p| <= |f| {
        assert f[|f| - |p|..][|p| - |t| - 1] == f[|f| - |t| - 1];
      }
    }
  }

  /**
   * A fragment ends with the language inserted verbatim and the code inserted
   * only in escaped form, which holds no raw markup and decodes back to the code.
   */
  lemma FragmentCode(b: Block)
    ensures EndsWith(CodeFragment(b), "<code class=\"language-" + b.language + "\">" + HtmlEscape.Escape(b.code) + FragmentEnd)
    ensures HtmlEscape.AmpersandsEscaped(HtmlEscape.Escape(b.code))
    ensures HtmlEscape.Unescape(HtmlEscape.Escape(b.code)) == b.code
  {
    var e := CodeElement(b);
    SuffixOfAppend("\">", e, e);
    SuffixOfAppend(FragmentOpening(b) + LineNumberClass(b.showLineNumbers), CodeTail(b), e);
    HtmlEscape.EscapeAmpersandsEscaped(b.code);
    HtmlEscape.UnescapeEscape(b.code);
  }
}

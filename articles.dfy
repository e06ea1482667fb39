/**
 * The article table as the controller sees it through the ORM: rows in storage
 * order, and the single-row lookup `findOne({ where: ... })` by id or by slug.
 */
module Articles {
  import opened Wrappers

  /**
   * One row of the article table. Timestamps are instants (for example
   * milliseconds since the epoch); `publishedAt == None` marks a draft and
   * `views == None` a count that was never written. The populated relations
   * (author with avatar, category, image) are reduced to the keys of their rows.
   */
  datatype Article = Article(
    id: int,
    slug: string,
    title: string,
    description: string,
    content: string,
    publishedAt: Option<int>,
    createdAt: int,
    views: Option<int>,
    author: Option<int>,
    category: Option<int>,
    image: Option<int>)

  /** What the controller answers: the data, a not-found, or an internal error. */
  datatype Response<T> = Ok(data: T) | NotFound | InternalError

  /** The two `where` clauses of the single-article lookup. */
  datatype Key = ById(id: int) | BySlug(slug: string)

  predicate Matches(a: Article, key: Key) {
    match key
    case ById(n) => a.id == n
    case BySlug(s) => a.slug == s
  }

  /** `article.views || 0`: a missing count reads as zero. */
  function ViewsOrZero(a: Article): int {
    a.views.GetOr(0)
  }

  /** Ids are system-assigned and unique; slugs are declared unique. */
  ghost predicate WellKeyed(rows: seq<Article>) {
    && (forall i, j :: 0 <= i < j < |rows| ==> rows[i].id != rows[j].id)
    && (forall i, j :: 0 <= i < j < |rows| ==> rows[i].slug != rows[j].slug)
  }

  /** `findOne({ where })`: the position of the first row the key matches, if any. */
  function Locate(rows: seq<Article>, key: Key): (r: Option<nat>)
    ensures r.Some? ==> r.value < |rows| && Matches(rows[r.value], key)
    ensures r.Some? ==> forall j :: 0 <= j < r.value ==> !Matches(rows[j], key)
    ensures r.None? <==> forall j :: 0 <= j < |rows| ==> !Matches(rows[j], key)
  {
    if rows == [] then None
    else if Matches(rows[0], key) then Some(0)
    else match Locate(rows[1..], key)
      case None => None
      case Some(i) => Some(i + 1)
  }

  /** In a well-keyed table a key matches at most one row, so the lookup finds that row. */
  lemma LocateUnique(rows: seq<Article>, key: Key, i: nat)
    requires WellKeyed(rows)
    requires i < |rows| && Matches(rows[i], key)
    ensures Locate(rows, key) == Some(i)
  {
    var k := Locate(rows, key).value;
    assert Matches(rows[k], key);
  }

  /** Two tables whose rows match a key at the same positions answer the lookup alike. */
  lemma {:induction false} LocateSameMatches(rows: seq<Article>, rows': seq<Article>, key: Key)
    requires |rows| == |rows'|
    requires forall j :: 0 <= j < |rows| ==> (Matches(rows[j], key) <==> Matches(rows'[j], key))
    ensures Locate(rows', key) == Locate(rows, key)
  {
    if rows != [] {
      LocateSameMatches(rows[1..], rows'[1..], key);
    }
  }

  /** Rewriting a row's view count changes neither its id nor its slug, so no lookup moves. */
  lemma LocateIgnoresViews(rows: seq<Article>, i: nat, v: Option<int>, key: Key)
    requires i < |rows|
    ensures Locate(rows[i := rows[i].(views := v)], key) == Locate(rows, key)
  {
    LocateSameMatches(rows, rows[i := rows[i].(views := v)], key);
  }
}

/**
 * The article controller: the single-article lookup that counts a view, and the
 * two popular-articles entry points (`find` with `mostPopular=true`, and
 * `mostPopular`), over a store that owns the article table.
 */
module ArticleController {
  import opened Wrappers
  import opened JsNumbers
  import opened Articles
  import opened Popularity

  /** The route parameter decides the lookup: NaN under `Number` means a slug. */
  function KeyOf(id: string): (k: Key)
    ensures k.BySlug? <==> NumberOf(id).None?
    ensures k.BySlug? ==> k.slug == id
    ensures k.ById? ==> NumberOf(id) == Some(k.id)
  {
    match NumberOf(id)
    case None => BySlug(id)
    case Some(n) => ById(n)
  }

  /**
   * The decimal form of an id always routes to the id lookup; a slug with a
   * letter in it, or with a hyphen after its first character (a date such as
   * "2024-01-15"), routes to the slug lookup.
   */
  lemma KeyOfRouting(n: int, slug: string, i: nat)
    requires i < |slug| && ('a' <= slug[i] <= 'z' || (0 < i && slug[i] == '-'))
    ensures KeyOf(ShowInt(n)) == ById(n)
    ensures KeyOf(slug) == BySlug(slug)
  {
    NumberOfShowInt(n);
    assert !IsDigit(slug[i]);
    if 0 < i {
      assert slug[1..][i - 1] == slug[i];
    }
  }

  /** The query-string parameters the popular-articles paths read. */
  datatype Query = Query(mostPopular: Option<string>, limit: Option<string>)

  /** `find` either answers the ranking query or leaves the request to the default listing. */
  datatype FindResponse = PopularList(response: Response<seq<Article>>) | DefaultFind

  /** `parseInt(query.limit) || 10` in `find`: NaN and 0 both fall back to 10. */
  function FindLimit(q: Query): (n: int)
    ensures n != 0
    ensures q.limit.None? ==> n == 10
    ensures q.limit.Some? && ParseInt(q.limit.value).Some? && ParseInt(q.limit.value).value != 0
            ==> n == ParseInt(q.limit.value).value
    ensures q.limit.Some? && (ParseInt(q.limit.value).None? || ParseInt(q.limit.value) == Some(0)) ==> n == 10
  {
    // an absent parameter reaches parseInt as undefined, which is NaN
    var parsed := if q.limit.None? then None else ParseInt(q.limit.value);
    match parsed
    case Some(v) => if v == 0 then 10 else v
    case None => 10
  }

  /** `const { limit = "10" } = ctx.query` then `parseInt(limit)` in `mostPopular`: the default covers absence only. */
  function MostPopularLimit(q: Query): (n: Option<int>)
    ensures q.limit.None? ==> n == Some(10)
    ensures q.limit.Some? ==> n == ParseInt(q.limit.value)
  {
    assert LeadingDigits("10") == "10" by {
      assert "10"[1..] == "0" && "0"[1..] == [];
    }
    assert DigitsValue("10") == 10 by {
      assert "10"[..1] == "1" && "1"[..0] == [];
    }
    ParseInt(q.limit.GetOr("10"))
  }

  /** For a limit written as a decimal number the two entry points agree, except on 0. */
  lemma LimitParsing(q: Query, n: int)
    requires q.limit == Some(ShowInt(n))
    ensures FindLimit(q) == (if n == 0 then 10 else n)
    ensures MostPopularLimit(q) == Some(n)
  {
    ParseIntShowInt(n, "");
    assert ShowInt(n) + "" == ShowInt(n);
  }

  /** The persistent article table. */
  class Store {
    var rows: seq<Article>

    ghost predicate Valid()
      reads this
    {
      WellKeyed(rows)
    }

    constructor (initial: seq<Article>)
      requires WellKeyed(initial)
      ensures Valid() && rows == initial
    {
      rows := initial;
    }

    /**
     * `findOne`: look the article up by id or slug; when nothing matches answer
     * not-found and write nothing; otherwise write `views := (views || 0) + 1`
     * to that one row and return the row as read, with the new count. A storage
     * error during the write is an internal error, and nothing is written.
     */
    method FindOne(id: string, updateFails: bool) returns (res: Response<Article>)
      requires Valid()
      modifies this
      ensures Valid()
      ensures Locate(old(rows), KeyOf(id)).None? ==> res == NotFound && rows == old(rows)
      ensures Locate(old(rows), KeyOf(id)).Some? && updateFails ==> res == InternalError && rows == old(rows)
      ensures Locate(old(rows), KeyOf(id)).Some? && !updateFails ==>
        var i := Locate(old(rows), KeyOf(id)).value;
        var a := old(rows)[i];
        && res == Ok(a.(views := Some(ViewsOrZero(a) + 1)))
        && rows == old(rows)[i := res.data]
    {
      var found := Locate(rows, KeyOf(id));
      if found.None? {
        return NotFound;
      }
      var article := rows[found.value];
      var currentViews := ViewsOrZero(article);
      if updateFails {
        return InternalError;
      }
      // the write addresses the row by the id just read, which names the same row
      LocateUnique(rows, ById(article.id), found.value);
      var target := Locate(rows, ById(article.id)).value;
      rows := rows[target := rows[target].(views := Some(currentViews + 1))];
      res := Ok(article.(views := Some(currentViews + 1)));
    }

    /** `find`: the ranking query when `mostPopular` is exactly `"true"`, the default listing otherwise. */
    function Find(q: Query, nullsFirst: bool, storageFails: bool): (r: FindResponse)
      reads this
      ensures q.mostPopular != Some("true") <==> r == DefaultFind
      ensures r.PopularList? && !storageFails && FindLimit(q) > 0 ==> r.response == Ok(Popular(rows, FindLimit(q), nullsFirst))
      ensures r.PopularList? && (storageFails || FindLimit(q) < 0) ==> r.response == InternalError
    {
      if q.mostPopular == Some("true") then PopularList(FindMany(rows, Some(FindLimit(q)), nullsFirst, storageFails))
      else DefaultFind
    }

    /** `mostPopular`: the ranking query with the limit defaulting to `"10"` when absent. */
    function MostPopular(q: Query, nullsFirst: bool, storageFails: bool): (r: Response<seq<Article>>)
      reads this
      ensures q.limit.None? && !storageFails ==> r == Ok(Popular(rows, 10, nullsFirst))
      ensures r.Ok? <==> !storageFails && MostPopularLimit(q).Some? && MostPopularLimit(q).value >= 0
      ensures r.Ok? ==> r.data == Popular(rows, MostPopularLimit(q).value, nullsFirst)
      ensures !r.Ok? ==> r == InternalError
    {
      FindMany(rows, MostPopularLimit(q), nullsFirst, storageFails)
    }
  }

  /**
   * Two successive lookups of the same article (with no write in between)
   * return its prior count plus one, then plus two.
   */
  method LookupTwice(store: Store, id: string) returns (first: Response<Article>, second: Response<Article>)
    requires store.Valid()
    requires Locate(store.rows, KeyOf(id)).Some?
    modifies store
    ensures store.Valid()
    ensures first.Ok? && second.Ok?
    ensures var a := old(store.rows)[Locate(old(store.rows), KeyOf(id)).value];
      && first.data.views == Some(ViewsOrZero(a) + 1)
      && second.data.views == Some(ViewsOrZero(a) + 2)
  {
    ghost var i := Locate(store.rows, KeyOf(id)).value;
    ghost var before := store.rows;
    first := store.FindOne(id, false);
    LocateIgnoresViews(before, i, first.data.views, KeyOf(id));
    second := store.FindOne(id, false);
  }
}

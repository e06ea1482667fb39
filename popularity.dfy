/**
 * The ranking query behind both popular-articles entry points: keep the rows
 * with a publication time, order them by views and then by publication time,
 * both descending, and return at most `limit` of them.
 * Where a descending order puts NULL depends on the database; `nullsFirst`
 * names that choice. The query leaves the order of rows equal on both keys
 * open; `Sort` fixes one (storage order), while the lemmas speak only of the
 * ranking relation, so they hold for every tie order.
 */
module Popularity {
  import opened Wrappers
  import opened Articles

  /** `x` comes strictly before `y` in a descending column order. */
  predicate DescBefore(x: Option<int>, y: Option<int>, nullsFirst: bool) {
    match (x, y)
    case (Some(a), Some(b)) => a > b
    case (None, Some(_)) => nullsFirst
    case (Some(_), None) => !nullsFirst
    case (None, None) => false
  }

  /** `a` strictly outranks `b`: more views, or as many and published later. */
  predicate Outranks(a: Article, b: Article, nullsFirst: bool) {
    || DescBefore(a.views, b.views, nullsFirst)
    || (a.views == b.views && DescBefore(a.publishedAt, b.publishedAt, nullsFirst))
  }

  /** `a` may be listed before `b`. */
  predicate RanksAtLeast(a: Article, b: Article, nullsFirst: bool) {
    !Outranks(b, a, nullsFirst)
  }

  ghost predicate Ranked(s: seq<Article>, nullsFirst: bool) {
    forall i, j :: 0 <= i < j < |s| ==> RanksAtLeast(s[i], s[j], nullsFirst)
  }

  lemma RanksTransitive(a: Article, b: Article, c: Article, nullsFirst: bool)
    requires RanksAtLeast(a, b, nullsFirst) && RanksAtLeast(b, c, nullsFirst)
    ensures RanksAtLeast(a, c, nullsFirst)
  {
  }

  /** The `where` clause: published rows only, in storage order. */
  function Published(rows: seq<Article>): (r: seq<Article>)
    ensures |r| <= |rows|
    ensures forall a :: a in r <==> a in rows && a.publishedAt.Some?
    ensures forall a :: multiset(r)[a] == if a.publishedAt.Some? then multiset(rows)[a] else 0
  {
    assert rows != [] ==> rows == [rows[0]] + rows[1..];
    if rows == [] then []
    else if rows[0].publishedAt.Some? then [rows[0]] + Published(rows[1..])
    else Published(rows[1..])
  }

  /** Places `x` before the first row it ranks at least as high as. */
  function Insert(x: Article, s: seq<Article>, nullsFirst: bool): (r: seq<Article>)
    ensures |r| == |s| + 1
  {
    if s == [] then [x]
    else if RanksAtLeast(x, s[0], nullsFirst) then [x] + s
    else [s[0]] + Insert(x, s[1..], nullsFirst)
  }

  /** The `orderBy` clause, as an insertion sort. */
  function Sort(s: seq<Article>, nullsFirst: bool): (r: seq<Article>)
    ensures |r| == |s|
  {
    if s == [] then [] else Insert(s[0], Sort(s[1..], nullsFirst), nullsFirst)
  }

  lemma {:induction false} InsertPermutes(x: Article, s: seq<Article>, nullsFirst: bool)
    ensures multiset(Insert(x, s, nullsFirst)) == multiset(s) + multiset{x}
  {
    if s == [] {
    } else if RanksAtLeast(x, s[0], nullsFirst) {
      assert Insert(x, s, nullsFirst) == [x] + s;
    } else {
      var t := Insert(x, s[1..], nullsFirst);
      InsertPermutes(x, s[1..], nullsFirst);
      assert Insert(x, s, nullsFirst) == [s[0]] + t;
      assert multiset([s[0]] + t) == multiset{s[0]} + multiset(t);
      assert s == [s[0]] + s[1..];
      assert multiset(s) == multiset{s[0]} + multiset(s[1..]);
    }
  }

  lemma {:induction false} InsertRanked(x: Article, s: seq<Article>, nullsFirst: bool)
    requires Ranked(s, nullsFirst)
    ensures Ranked(Insert(x, s, nullsFirst), nullsFirst)
  {
    if s == [] {
    } else if RanksAtLeast(x, s[0], nullsFirst) {
      var r := [x] + s;
      forall i, j | 0 <= i < j < |r| ensures RanksAtLeast(r[i], r[j], nullsFirst) {
        if i == 0 && j > 1 {
          RanksTransitive(x, s[0], s[j - 1], nullsFirst);
        }
      }
    } else {
      var t := Insert(x, s[1..], nullsFirst);
      InsertRanked(x, s[1..], nullsFirst);
      InsertPermutes(x, s[1..], nullsFirst);
      var r := [s[0]] + t;
      forall j | 0 < j < |r| ensures RanksAtLeast(s[0], r[j], nullsFirst) {
        assert r[j] in multiset(t);
        if r[j] != x {
          assert r[j] in multiset(s[1..]);
          var k :| 0 <= k < |s[1..]| && s[1..][k] == r[j];
          assert s[k + 1] == r[j];
        }
      }
    }
  }

  /** Sorting keeps exactly the rows it is given and ranks them. */
  lemma {:induction false} SortRankedPermutation(s: seq<Article>, nullsFirst: bool)
    ensures multiset(Sort(s, nullsFirst)) == multiset(s)
    ensures Ranked(Sort(s, nullsFirst), nullsFirst)
  {
    if s != [] {
      SortRankedPermutation(s[1..], nullsFirst);
      InsertPermutes(s[0], Sort(s[1..], nullsFirst), nullsFirst);
      InsertRanked(s[0], Sort(s[1..], nullsFirst), nullsFirst);
      assert s == [s[0]] + s[1..];
    }
  }

  function Min(a: nat, b: nat): nat {
    if a < b then a else b
  }

  /** The query result for a non-negative `limit`: filter, order, keep the first `limit` rows. */
  function Popular(rows: seq<Article>, limit: nat, nullsFirst: bool): (r: seq<Article>)
    ensures |r| <= limit && |r| <= |rows|
  {
    var ranked := Sort(Published(rows), nullsFirst);
    ranked[..Min(limit, |ranked|)]
  }

  /**
   * How the ORM answers the query: a storage failure, or a limit that is NaN or
   * negative, is an error; otherwise the ranked prefix.
   */
  function FindMany(rows: seq<Article>, limit: Option<int>, nullsFirst: bool, storageFails: bool): (r: Response<seq<Article>>)
    ensures r.Ok? || r.InternalError?
    ensures r.Ok? <==> !storageFails && limit.Some? && limit.value >= 0
  {
    if storageFails || limit.None? || limit.value < 0 then InternalError
    else Ok(Popular(rows, limit.value, nullsFirst))
  }

  /** Every listed article is a published row of the table. */
  lemma PopularPublished(rows: seq<Article>, limit: nat, nullsFirst: bool)
    ensures forall a :: a in Popular(rows, limit, nullsFirst) ==> a in rows && a.publishedAt.Some?
  {
    var p := Published(rows);
    var ranked := Sort(p, nullsFirst);
    SortRankedPermutation(p, nullsFirst);
    forall a | a in Popular(rows, limit, nullsFirst) ensures a in rows && a.publishedAt.Some? {
      assert a in ranked;
      assert a in multiset(ranked);
      assert a in p;
    }
  }

  /** At most `limit` articles, and fewer only when fewer are published. */
  lemma PopularCount(rows: seq<Article>, limit: nat, nullsFirst: bool)
    ensures |Popular(rows, limit, nullsFirst)| == Min(limit, |Published(rows)|)
    ensures |Popular(rows, limit, nullsFirst)| <= limit
  {
    SortRankedPermutation(Published(rows), nullsFirst);
    assert |multiset(Sort(Published(rows), nullsFirst))| == |multiset(Published(rows))|;
  }

  /** The listed articles are ranked by views, then by publication time. */
  lemma PopularRanked(rows: seq<Article>, limit: nat, nullsFirst: bool)
    ensures Ranked(Popular(rows, limit, nullsFirst), nullsFirst)
  {
    SortRankedPermutation(Published(rows), nullsFirst);
  }

  /**
   * The ranking in the source's terms: of two listed articles, the earlier has
   * strictly more views, or as many and a publication time no earlier; a count
   * that was never written sits on the side of the order the database puts NULL.
   */
  lemma PopularOrder(rows: seq<Article>, limit: nat, nullsFirst: bool)
    ensures var r := Popular(rows, limit, nullsFirst);
      forall i :: 0 <= i < |r| ==> r[i].publishedAt.Some?
    ensures var r := Popular(rows, limit, nullsFirst);
      forall i, j :: 0 <= i < j < |r| && r[i].views.Some? && r[j].views.Some? ==>
        || r[i].views.value > r[j].views.value
        || (r[i].views.value == r[j].views.value && r[i].publishedAt.value >= r[j].publishedAt.value)
    ensures var r := Popular(rows, limit, nullsFirst);
      forall i, j :: 0 <= i < j < |r| && r[i].views.None? && r[j].views.Some? ==> nullsFirst
    ensures var r := Popular(rows, limit, nullsFirst);
      forall i, j :: 0 <= i < j < |r| && r[i].views.Some? && r[j].views.None? ==> !nullsFirst
  {
    var r := Popular(rows, limit, nullsFirst);
    PopularRanked(rows, limit, nullsFirst);
    PopularPublished(rows, limit, nullsFirst);
    forall i | 0 <= i < |r| ensures r[i].publishedAt.Some? {
      assert r[i] in r;
    }
  }

  /** Of two listed articles with equal views, the one published later comes first. */
  lemma PopularNewerFirst(rows: seq<Article>, limit: nat, nullsFirst: bool, i: nat, j: nat)
    requires var r := Popular(rows, limit, nullsFirst);
      && i < |r| && j < |r|
      && r[i].views == r[j].views
      && r[i].publishedAt.Some? && r[j].publishedAt.Some?
      && r[i].publishedAt.value > r[j].publishedAt.value
    ensures i < j
  {
    PopularRanked(rows, limit, nullsFirst);
    var r := Popular(rows, limit, nullsFirst);
    assert Outranks(r[i], r[j], nullsFirst);
  }

  /** What a prefix leaves of a list, counted with multiplicity, lies in the rest of the list. */
  lemma PrefixLeftOver(s: seq<Article>, n: nat)
    requires n <= |s|
    ensures multiset(s[..n]) <= multiset(s)
    ensures forall x :: x in multiset(s) - multiset(s[..n]) ==> x in s[n..]
  {
    assert s == s[..n] + s[n..];
    assert multiset(s) == multiset(s[..n]) + multiset(s[n..]);
    forall x | x in multiset(s) - multiset(s[..n]) ensures x in s[n..] {
      assert x in multiset(s[n..]);
    }
  }

  /** In a ranked list every row of a prefix ranks at least as high as every row after it. */
  lemma RankedPrefixDominates(s: seq<Article>, n: nat, nullsFirst: bool)
    requires Ranked(s, nullsFirst) && n <= |s|
    ensures forall x, y :: x in s[n..] && y in s[..n] ==> RanksAtLeast(y, x, nullsFirst)
  {
    forall x, y | x in s[n..] && y in s[..n] ensures RanksAtLeast(y, x, nullsFirst) {
      var k :| 0 <= k < |s[n..]| && s[n..][k] == x;
      var m :| 0 <= m < n && s[..n][m] == y;
      assert s[m] == y && s[n + k] == x;
    }
  }

  /**
   * The result is a top-`limit` selection: the listed articles are published
   * rows, and every published row left out ranks no higher than any listed one.
   */
  lemma PopularIsTop(rows: seq<Article>, limit: nat, nullsFirst: bool)
    ensures multiset(Popular(rows, limit, nullsFirst)) <= multiset(Published(rows))
    ensures var r := Popular(rows, limit, nullsFirst);
      forall x, y :: x in multiset(Published(rows)) - multiset(r) && y in r ==> RanksAtLeast(y, x, nullsFirst)
  {
    var p := Published(rows);
    var ranked := Sort(p, nullsFirst);
    SortRankedPermutation(p, nullsFirst);
    var n := Min(limit, |ranked|);
    assert Popular(rows, limit, nullsFirst) == ranked[..n];
    PrefixLeftOver(ranked, n);
    RankedPrefixDominates(ranked, n, nullsFirst);
  }
}

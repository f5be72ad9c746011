/**
 * `NewsService`: the news feed, its paging, and the single-table add, update and delete.
 * The `NewsPosts` table is a sequence of rows; the database's `ORDER BY` is `Feed`.
 */
module NewsService {
  import opened Primitives
  import opened Text
  import opened Results
  import opened Models
  import opened MappingProfiles

  const AddServerError := "Ошибка сервера при добавлении новости."
  const QueryServerError := "Ошибка сервера при получении данных."
  const PageIndexServerError := "Ошибка сервера при получении индекса страницы."

  function NotFoundById(id: Guid): string {
    "Новость с ID " + GuidString(id) + " не найдена."
  }

  function NotFoundByGuid(id: Guid): string {
    "Новость с таким Guid " + GuidString(id) + " не найдена"
  }

  // ---------------------------------------------------------------- rows and their keys

  function Ids(s: seq<NewsPost>): (r: seq<Guid>)
    ensures |r| == |s| && forall i :: 0 <= i < |s| ==> r[i] == s[i].id
  {
    seq(|s|, i requires 0 <= i < |s| => s[i].id)
  }

  /** The primary-key constraint of the table. */
  predicate DistinctIds(s: seq<NewsPost>) {
    forall i, j :: 0 <= i < j < |s| ==> s[i].id != s[j].id
  }

  /** `NewsPosts.FirstOrDefault(n => n.Id == id)`. */
  function FindById(s: seq<NewsPost>, id: Guid): (r: Option<NewsPost>)
    ensures r.Some? ==> r.value in s && r.value.id == id
    ensures r.None? <==> id !in Ids(s)
  {
    if |s| == 0 then Option.None
    else if s[0].id == id then Some(s[0])
    else FindById(s[1..], id)
  }

  /** `Remove` of the row whose key is `id`, if any; the other rows keep their order. */
  function RemoveById(s: seq<NewsPost>, id: Guid): (r: seq<NewsPost>)
    ensures forall p :: p in r <==> p in s && p.id != id
    ensures id !in Ids(s) ==> r == s
    ensures |r| <= |s|
  {
    if |s| == 0 then []
    else if s[0].id == id then RemoveById(s[1..], id)
    else [s[0]] + RemoveById(s[1..], id)
  }

  /** Overwrites the row whose key is `id` with `p`; the other rows are unchanged. */
  function ReplaceById(s: seq<NewsPost>, id: Guid, p: NewsPost): (r: seq<NewsPost>)
    ensures |r| == |s|
    ensures forall i :: 0 <= i < |s| ==> r[i] == (if s[i].id == id then p else s[i])
  {
    seq(|s|, i requires 0 <= i < |s| => if s[i].id == id then p else s[i])
  }

  // ---------------------------------------------------------------- the feed order

  /** `a` may come before `b`: newer first, and for equal instants the larger id first. */
  predicate Precedes(a: NewsPost, b: NewsPost) {
    a.createdAt > b.createdAt || (a.createdAt == b.createdAt && a.id >= b.id)
  }

  lemma PrecedesTotal(a: NewsPost, b: NewsPost)
    ensures Precedes(a, b) || Precedes(b, a)
    ensures Precedes(a, b) && Precedes(b, a) ==> a.id == b.id && a.createdAt == b.createdAt
  {
  }

  /** `OrderByDescending(n => n.CreatedAt).ThenByDescending(n => n.Id)` holds of `s`. */
  predicate Ordered(s: seq<NewsPost>) {
    forall i, j :: 0 <= i < j < |s| ==> Precedes(s[i], s[j])
  }

  function Insert(p: NewsPost, s: seq<NewsPost>): (r: seq<NewsPost>)
    ensures multiset(r) == multiset(s) + multiset{p}
    ensures forall x :: x in r <==> x == p || x in s
  {
    if |s| == 0 then [p]
    else if Precedes(p, s[0]) then [p] + s
    else
      assert s == [s[0]] + s[1..];
      [s[0]] + Insert(p, s[1..])
  }

  lemma {:induction false} InsertOrdered(p: NewsPost, s: seq<NewsPost>)
    requires Ordered(s)
    ensures Ordered(Insert(p, s))
  {
    if |s| > 0 && !Precedes(p, s[0]) {
      var t := Insert(p, s[1..]);
      InsertOrdered(p, s[1..]);
      forall k | 0 <= k < |t|
        ensures Precedes(s[0], t[k])
      {
        assert t[k] in t;
        if t[k] != p {
          var i :| 0 <= i < |s[1..]| && s[1..][i] == t[k];
          assert s[i + 1] == t[k];
        }
      }
    }
  }

  lemma {:induction false} InsertDistinct(p: NewsPost, s: seq<NewsPost>)
    requires DistinctIds(s) && p.id !in Ids(s)
    ensures DistinctIds(Insert(p, s))
  {
    if |s| > 0 && !Precedes(p, s[0]) {
      var t := Insert(p, s[1..]);
      assert DistinctIds(s[1..]) && p.id !in Ids(s[1..]) by {
        assert forall i :: 0 <= i < |s| - 1 ==> Ids(s[1..])[i] == Ids(s)[i + 1];
      }
      InsertDistinct(p, s[1..]);
      forall k | 0 <= k < |t|
        ensures t[k].id != s[0].id
      {
        assert t[k] in t;
        if t[k] != p {
          var i :| 0 <= i < |s[1..]| && s[1..][i] == t[k];
          assert s[i + 1] == t[k];
        } else {
          assert Ids(s)[0] == s[0].id;
        }
      }
    } else if |s| > 0 {
      forall k | 0 <= k < |s|
        ensures s[k].id != p.id
      {
        assert Ids(s)[k] == s[k].id;
      }
    }
  }

  /** The rows in feed order. */
  function Feed(posts: seq<NewsPost>): (r: seq<NewsPost>)
    ensures Ordered(r)
    ensures multiset(r) == multiset(posts)
    ensures forall x :: x in r <==> x in posts
    ensures DistinctIds(posts) ==> DistinctIds(r)
  {
    if |posts| == 0 then []
    else
      assert posts == [posts[0]] + posts[1..];
      var t := Feed(posts[1..]);
      InsertOrdered(posts[0], t);
      FeedDistinctStep(posts, t);
      Insert(posts[0], t)
  }

  lemma FeedDistinctStep(posts: seq<NewsPost>, t: seq<NewsPost>)
    requires |posts| > 0
    requires forall x :: x in t <==> x in posts[1..]
    requires DistinctIds(posts) ==> DistinctIds(t)
    ensures DistinctIds(posts) ==> DistinctIds(Insert(posts[0], t))
  {
    if DistinctIds(posts) {
      assert DistinctIds(posts[1..]);
      assert posts[0].id !in Ids(t) by {
        forall k | 0 <= k < |t|
          ensures t[k].id != posts[0].id
        {
          assert t[k] in posts[1..];
          var i :| 0 <= i < |posts| - 1 && posts[1..][i] == t[k];
          assert posts[i + 1] == t[k];
        }
      }
      InsertDistinct(posts[0], t);
    }
  }

  /**
   * The feed order is total on a table with distinct keys: every ordered arrangement of the rows
   * is `Feed`, so the page contents do not depend on how the database breaks ties.
   */
  lemma {:induction false} FeedUnique(a: seq<NewsPost>, b: seq<NewsPost>)
    requires Ordered(a) && Ordered(b)
    requires multiset(a) == multiset(b) && DistinctIds(b)
    ensures a == b
    decreases |a|
  {
    assert |b| == |multiset(b)| == |multiset(a)| == |a|;
    if |a| > 0 {
      SameFirst(a, b);
      TailsPermuted(a, b);
      assert DistinctIds(b[1..]);
      FeedUnique(a[1..], b[1..]);
      assert a == [a[0]] + a[1..] && b == [b[0]] + b[1..];
    }
  }

  /** Two ordered arrangements of the same rows with distinct keys start with the same row. */
  lemma SameFirst(a: seq<NewsPost>, b: seq<NewsPost>)
    requires Ordered(a) && Ordered(b) && |a| > 0 && |b| > 0
    requires multiset(a) == multiset(b) && DistinctIds(b)
    ensures a[0] == b[0]
  {
    var x, y := a[0], b[0];
    assert x in multiset(b) && y in multiset(a);
    var j :| 0 <= j < |b| && b[j] == x;
    var i :| 0 <= i < |a| && a[i] == y;
  }

  lemma TailsPermuted(a: seq<NewsPost>, b: seq<NewsPost>)
    requires |a| > 0 && |b| > 0 && a[0] == b[0] && multiset(a) == multiset(b)
    ensures multiset(a[1..]) == multiset(b[1..])
  {
    assert a == [a[0]] + a[1..] && b == [b[0]] + b[1..];
    assert multiset(a) == multiset([a[0]] + a[1..]) == multiset([a[0]]) + multiset(a[1..]);
    assert multiset(b) == multiset([b[0]] + b[1..]) == multiset([b[0]]) + multiset(b[1..]);
    assert multiset(a[1..]) == multiset(a) - multiset([a[0]]);
  }

  /** Any ordered arrangement of a table with distinct keys is its feed. */
  lemma OrderedArrangementIsFeed(posts: seq<NewsPost>, s: seq<NewsPost>)
    requires DistinctIds(posts) && Ordered(s) && multiset(s) == multiset(posts)
    ensures s == Feed(posts)
  {
    FeedUnique(s, Feed(posts));
  }

  // ---------------------------------------------------------------- pages

  /** `Skip(skip).Take(take)`: the elements at positions `[skip, skip + take)` that exist. */
  function Page<T>(s: seq<T>, skip: nat, take: nat): (r: seq<T>)
    ensures |r| == Min(take, |s| - Min(skip, |s|)) && |r| <= take
    ensures forall i :: 0 <= i < |r| ==> r[i] == s[skip + i]
  {
    s[Min(skip, |s|)..Min(skip + take, |s|)]
  }

  function DtosOf(s: seq<NewsPost>): (r: seq<NewsPostDto>)
    ensures |r| == |s| && forall i :: 0 <= i < |s| ==> r[i] == NewsToDto(s[i])
  {
    seq(|s|, i requires 0 <= i < |s| => NewsToDto(s[i]))
  }

  /** `Paged<NewsPostDto>`. */
  datatype Paged = Paged(items: seq<NewsPostDto>, totalCount: int, pageIndex: Int32, pageSize: Int32)

  /** The page index after `if (pageIndex < 1) pageIndex = 1`. */
  function EffectivePageIndex(pageIndex: Int32): (p: Int32)
    ensures pageIndex >= 1 ==> p == pageIndex
    ensures pageIndex < 1 ==> p == 1
  {
    if pageIndex < 1 then 1 else pageIndex
  }

  /** `(pageIndex - 1) * pageSize` in unchecked 32-bit arithmetic. */
  function Skip(pageIndex: Int32, pageSize: Int32): Int32 {
    Wrap32((EffectivePageIndex(pageIndex) - 1) * pageSize)
  }

  /**
   * `GetNewsPageAsync`. A negative offset or limit is refused by the database (PostgreSQL
   * rejects a negative `OFFSET` or `LIMIT`), which the service reports as a server error.
   */
  function GetNewsPage(posts: seq<NewsPost>, pageIndex: Int32, pageSize: Int32): (r: Result<Paged, string>)
    ensures r.IsSuccess() <==> Skip(pageIndex, pageSize) >= 0 && pageSize >= 0
    ensures r.IsFailure() ==> r.Error() == QueryServerError
    ensures r.IsSuccess() ==>
      && r.Value().pageIndex == EffectivePageIndex(pageIndex)
      && r.Value().pageSize == pageSize
      && r.Value().totalCount == |posts|
      && r.Value().items == DtosOf(Page(Feed(posts), Skip(pageIndex, pageSize), pageSize))
      && |r.Value().items| <= pageSize
  {
    var skip := Skip(pageIndex, pageSize);
    if skip < 0 || pageSize < 0 then Failure(QueryServerError)
    else Success(Paged(DtosOf(Page(Feed(posts), skip, pageSize)), |posts|,
      EffectivePageIndex(pageIndex), pageSize))
  }

  /** The feed cut into consecutive pages of `size` rows, the last one possibly shorter. */
  function Pages<T>(s: seq<T>, size: nat): seq<seq<T>>
    requires size > 0
    decreases |s|
  {
    if |s| == 0 then [] else [s[..Min(size, |s|)]] + Pages(s[Min(size, |s|)..], size)
  }

  function Flatten<T>(ss: seq<seq<T>>): seq<T> {
    if |ss| == 0 then [] else ss[0] + Flatten(ss[1..])
  }

  lemma PageOfSuffix<T>(s: seq<T>, m: nat, skip: nat, take: nat)
    requires m <= |s|
    ensures Page(s[m..], skip, take) == Page(s, m + skip, take)
  {
  }

  /** Cutting into pages loses and repeats nothing. */
  lemma {:induction false} FlattenPages<T>(s: seq<T>, size: nat)
    requires size > 0
    ensures Flatten(Pages(s, size)) == s
    decreases |s|
  {
    if |s| > 0 {
      var m := Min(size, |s|);
      FlattenPages(s[m..], size);
      assert s[..m] + s[m..] == s;
    }
  }

  /** There are `ceil(n / size)` pages: the fewest pages of `size` rows that hold every row. */
  lemma {:induction false} PagesCount<T>(s: seq<T>, size: nat)
    requires size > 0
    ensures (|Pages(s, size)| - 1) * size < |s| <= |Pages(s, size)| * size
    decreases |s|
  {
    if |s| > 0 {
      var m := Min(size, |s|);
      var c := |Pages(s[m..], size)|;
      PagesCount(s[m..], size);
      assert |Pages(s, size)| == c + 1;
      assert (c + 1) * size == c * size + size;
    }
  }

  /** Page `k` (from 0) is the slice at offset `k * size`. */
  lemma {:induction false} PagesAreSlices<T>(s: seq<T>, size: nat, k: nat)
    requires size > 0 && k < |Pages(s, size)|
    ensures Pages(s, size)[k] == Page(s, k * size, size)
    decreases |s|
  {
    var m := Min(size, |s|);
    assert Pages(s, size) == [s[..m]] + Pages(s[m..], size);
    if k > 0 {
      assert Pages(s, size)[k] == Pages(s[m..], size)[k - 1];
      PagesAreSlices(s[m..], size, k - 1);
      PageOfSuffix(s, m, (k - 1) * size, size);
      assert m == size;
      assert m + (k - 1) * size == k * size;
    }
  }

  /**
   * With a positive page size and a table that `int` can count, requesting pages 1, 2, …
   * returns exactly the pages of the feed: together every post once, in feed order.
   */
  lemma PagesCoverFeed(posts: seq<NewsPost>, pageSize: Int32)
    requires pageSize > 0 && |posts| <= Int32Max
    ensures Flatten(Pages(Feed(posts), pageSize)) == Feed(posts)
    ensures (|Pages(Feed(posts), pageSize)| - 1) * pageSize < |posts| <= |Pages(Feed(posts), pageSize)| * pageSize
    ensures forall p: Int32 :: 1 <= p <= |Pages(Feed(posts), pageSize)| ==>
      GetNewsPage(posts, p, pageSize).IsSuccess()
      && GetNewsPage(posts, p, pageSize).Value().items == DtosOf(Pages(Feed(posts), pageSize)[p - 1])
  {
    FlattenPages(Feed(posts), pageSize);
    PagesCount(Feed(posts), pageSize);
    FeedLength(posts);
    forall p: Int32 | 1 <= p <= |Pages(Feed(posts), pageSize)|
      ensures GetNewsPage(posts, p, pageSize).IsSuccess()
      ensures GetNewsPage(posts, p, pageSize).Value().items == DtosOf(Pages(Feed(posts), pageSize)[p - 1])
    {
      NumberedPage(posts, pageSize, p);
    }
  }

  /** Page `p` (from 1) of the service is page `p - 1` of the cut feed. */
  lemma NumberedPage(posts: seq<NewsPost>, pageSize: Int32, p: Int32)
    requires pageSize > 0 && |posts| <= Int32Max && 1 <= p <= |Pages(Feed(posts), pageSize)|
    ensures GetNewsPage(posts, p, pageSize).IsSuccess()
    ensures GetNewsPage(posts, p, pageSize).Value().items == DtosOf(Pages(Feed(posts), pageSize)[p - 1])
  {
    FeedLength(posts);
    var skip := PageSkip(Feed(posts), pageSize, p);
  }

  /** The offset the service computes for page `p` is where page `p - 1` of the cut starts. */
  lemma PageSkip<T>(s: seq<T>, size: Int32, p: Int32) returns (skip: nat)
    requires size > 0 && |s| <= Int32Max && 1 <= p <= |Pages(s, size)|
    ensures Skip(p, size) == skip && Pages(s, size)[p - 1] == Page(s, skip, size)
  {
    PageOffsetInside(s, size, p - 1);
    PagesAreSlices(s, size, p - 1);
    SkipAt(p - 1, size);
    skip := (p - 1) * size;
  }

  /** Every page starts inside the sequence. */
  lemma PageOffsetInside<T>(s: seq<T>, size: nat, k: nat)
    requires size > 0 && k < |Pages(s, size)|
    ensures k * size < |s|
  {
    PagesCount(s, size);
    MulMonotone(k, |Pages(s, size)| - 1, size);
  }

  lemma MulMonotone(a: nat, b: nat, c: nat)
    requires a <= b
    ensures a * c <= b * c
  {
  }

  // ---------------------------------------------------------------- page index

  /** `List<Guid>.IndexOf`: the first position of `x`, or -1. */
  function IndexOf(ids: seq<Guid>, x: Guid): (r: int)
    ensures -1 <= r < |ids|
    ensures r == -1 <==> x !in ids
    ensures r >= 0 ==> ids[r] == x && x !in ids[..r]
  {
    if |ids| == 0 then -1
    else if ids[0] == x then 0
    else
      var k := IndexOf(ids[1..], x);
      assert ids == [ids[0]] + ids[1..];
      if k == -1 then -1
      else
        assert ids[..k + 1] == [ids[0]] + ids[1..][..k];
        k + 1
  }

  /**
   * The position of the post `id` in the feed, or -1: the `IndexOf` over the ordered keys that
   * `GetNewsPageIndexAsync` computes.
   */
  function FeedPosition(posts: seq<NewsPost>, id: Guid): (r: int)
    ensures -1 <= r < |posts|
    ensures r == -1 <==> id !in Ids(posts)
  {
    FeedKeepsIds(posts, id);
    FeedLength(posts);
    IndexOf(Ids(Feed(posts)), id)
  }

  lemma FeedLength(posts: seq<NewsPost>)
    ensures |Feed(posts)| == |posts|
  {
    var feed := Feed(posts);
    assert |feed| == |multiset(feed)| == |posts|;
  }

  /** Ordering the feed neither adds nor loses a key. */
  lemma FeedKeepsIds(posts: seq<NewsPost>, id: Guid)
    ensures id in Ids(Feed(posts)) <==> id in Ids(posts)
  {
    var feed := Feed(posts);
    if id in Ids(posts) {
      var i :| 0 <= i < |posts| && Ids(posts)[i] == id;
      assert posts[i] in feed;
      var j :| 0 <= j < |feed| && feed[j] == posts[i];
      assert Ids(feed)[j] == id;
    }
    if id in Ids(feed) {
      var i :| 0 <= i < |feed| && Ids(feed)[i] == id;
      assert feed[i] in posts;
      var j :| 0 <= j < |posts| && posts[j] == feed[i];
      assert Ids(posts)[j] == id;
    }
  }

  /** A present post sits at its position in the feed. */
  lemma FeedPositionHolds(posts: seq<NewsPost>, id: Guid)
    requires id in Ids(posts)
    ensures 0 <= FeedPosition(posts, id) < |Feed(posts)|
    ensures Feed(posts)[FeedPosition(posts, id)].id == id
  {
    FeedLength(posts);
  }

  /** `GetNewsPageIndexAsync`; a zero page size divides by zero, which is a server error. */
  function GetNewsPageIndex(posts: seq<NewsPost>, newsId: Guid, pageSize: Int32): (r: Result<Int32, string>)
    ensures newsId !in Ids(posts) ==> r == Failure(NotFoundByGuid(newsId))
    ensures newsId in Ids(posts) && pageSize == 0 ==> r == Failure(PageIndexServerError)
    ensures newsId in Ids(posts) && pageSize > 0 ==>
      r == Success(Wrap32(FeedPosition(posts, newsId) / pageSize + 1))
  {
    var index := FeedPosition(posts, newsId);
    if index == -1 then Failure(NotFoundByGuid(newsId))
    else if pageSize == 0 then Failure(PageIndexServerError)
    else Success(Wrap32(TruncDiv(index, pageSize) + 1))
  }

  /**
   * The page the index lookup names holds the post: for a positive page size and a table that
   * `int` can count, fetching that page returns a success whose items include the post.
   */
  lemma PageIndexNamesContainingPage(posts: seq<NewsPost>, newsId: Guid, pageSize: Int32)
    requires pageSize > 0 && |posts| <= Int32Max && newsId in Ids(posts)
    ensures GetNewsPageIndex(posts, newsId, pageSize).IsSuccess()
    ensures var k := GetNewsPageIndex(posts, newsId, pageSize).Value();
      k >= 1 && PageHolds(GetNewsPage(posts, k, pageSize), newsId)
  {
    PageIndexValue(posts, newsId, pageSize);
    PageOfPosition(posts, newsId, pageSize);
  }

  /** The page numbered by the post's position over the page size, plus one, holds the post. */
  lemma PageOfPosition(posts: seq<NewsPost>, newsId: Guid, pageSize: Int32)
    requires pageSize > 0 && |posts| <= Int32Max && newsId in Ids(posts)
    ensures 0 <= FeedPosition(posts, newsId) / pageSize < Int32Max
    ensures PageHolds(GetNewsPage(posts, FeedPosition(posts, newsId) / pageSize + 1, pageSize), newsId)
  {
    var index := FeedPosition(posts, newsId);
    var k, skip := PageStart(index, pageSize, |posts|);
    assert PageHolds(GetNewsPage(posts, k, pageSize), newsId) by {
      FeedPositionHolds(posts, newsId);
      PageAtHolds(posts, k, pageSize, newsId, index, skip);
    }
  }

  /** Page `k` holds the row at `index` when that row lies among the `size` rows after the offset. */
  lemma PageAtHolds(posts: seq<NewsPost>, k: Int32, size: Int32, id: Guid, index: nat, skip: nat)
    requires Skip(k, size) == skip && size > 0 && skip <= index < skip + size
    requires index < |Feed(posts)| && Feed(posts)[index].id == id
    ensures PageHolds(GetNewsPage(posts, k, size), id)
  {
    RowInPage(Feed(posts), skip, size, index, id);
  }

  /** Page `q + 1` starts `q * pageSize` rows in when that offset fits in an `int`. */
  lemma SkipAt(q: nat, pageSize: Int32)
    requires pageSize >= 0 && q + 1 <= Int32Max && q * pageSize <= Int32Max
    ensures Skip(q + 1, pageSize) == q * pageSize
  {
    MulMonotone(0, q, pageSize);
  }

  lemma RowInPage(feed: seq<NewsPost>, skip: nat, size: nat, index: nat, id: Guid)
    requires skip <= index < skip + size && index < |feed| && feed[index].id == id
    ensures exists i :: 0 <= i < |DtosOf(Page(feed, skip, size))| && DtosOf(Page(feed, skip, size))[i].id == id
  {
    var page := Page(feed, skip, size);
    assert page[index - skip] == feed[index];
    assert DtosOf(page)[index - skip].id == id;
  }

  /** A successful page that lists the post `id`. */
  predicate PageHolds(r: Result<Paged, string>, id: Guid) {
    r.IsSuccess() && exists i :: 0 <= i < |r.Value().items| && r.Value().items[i].id == id
  }

  /** Within `int` range the wrapped page number is the plain one. */
  lemma PageIndexValue(posts: seq<NewsPost>, newsId: Guid, pageSize: Int32)
    requires pageSize > 0 && |posts| <= Int32Max && newsId in Ids(posts)
    ensures GetNewsPageIndex(posts, newsId, pageSize) == Success(FeedPosition(posts, newsId) / pageSize + 1)
  {
    var index := FeedPosition(posts, newsId);
    DivFits(index, pageSize, |posts|);
    var v := index / pageSize + 1;
    assert Wrap32(v) == v;
  }

  /** The page holding row `a` starts at or before it, ends after it, and every bound fits `int`. */
  lemma PageArithmetic(a: nat, b: nat, n: nat)
    requires b > 0 && a < n <= Int32Max
    ensures 0 <= a / b < Int32Max && (a / b) * b <= Int32Max
    ensures (a / b) * b <= a < (a / b) * b + b
  {
    DivFits(a, b, n);
    DivBounds(a, b);
  }

  lemma PageStart(a: nat, b: Int32, n: nat) returns (k: Int32, skip: nat)
    requires b > 0 && a < n <= Int32Max
    ensures k == a / b + 1 && k >= 1
    ensures skip <= a < skip + b && Skip(k, b) == skip
  {
    PageArithmetic(a, b, n);
    SkipAt(a / b, b);
    k, skip := a / b + 1, (a / b) * b;
  }

  lemma DivFits(a: nat, b: nat, n: nat)
    requires b > 0 && a < n <= Int32Max
    ensures 0 <= a / b <= a && a / b + 1 <= Int32Max
  {
    DivBounds(a, b);
    MulMonotone(1, b, a / b);
  }

  lemma DivBounds(a: nat, b: nat)
    requires b > 0
    ensures 0 <= (a / b) * b <= a < (a / b) * b + b
  {
  }

  /** `GetByIdAsync`. */
  function GetById(posts: seq<NewsPost>, id: Guid): (r: Result<NewsPostDto, string>)
    ensures r.IsSuccess() <==> id in Ids(posts)
    ensures r.IsSuccess() ==> r.Value().id == id && NewsFromDto(r.Value()) in posts
    ensures r.IsFailure() ==> r.Error() == NotFoundById(id)
  {
    match FindById(posts, id)
    case None => Failure(NotFoundById(id))
    case Some(p) => Success(NewsToDto(p))
  }

  // ---------------------------------------------------------------- the table

  class NewsTable {
    var posts: seq<NewsPost>

    ghost predicate Valid()
      reads this
    {
      DistinctIds(posts)
    }

    constructor ()
      ensures posts == [] && Valid()
    {
      posts := [];
    }

    /**
     * `AddAsync`: the post takes the DTO's id, or `freshId` when that is empty. A key already in
     * the table makes `SaveChanges` throw, reported as a server error with nothing added.
     */
    method Add(userId: Guid, dto: NewsPostDto, freshId: Guid) returns (r: EmptyResult)
      requires Valid()
      requires freshId != EmptyGuid && freshId !in Ids(posts)
      modifies this
      ensures Valid()
      ensures var model := NewsFromDto(dto);
        var id := if model.id == EmptyGuid then freshId else model.id;
        if id in Ids(old(posts)) then r == EmptyFailure(AddServerError) && posts == old(posts)
        else r == EmptySuccess() && posts == old(posts) + [model.(id := id)]
    {
      var model := NewsFromDto(dto);
      if model.id == EmptyGuid {
        model := model.(id := freshId);
      }
      if model.id in Ids(posts) {
        return EmptyFailure(AddServerError);
      }
      posts := posts + [model];
      return EmptySuccess();
    }

    /**
     * `DeleteAsync`: removes the post whose id equals the `userId` argument (not `dto.Id`), and
     * succeeds whether or not there was one.
     */
    method Delete(userId: Guid, dto: NewsPostDto) returns (r: EmptyResult)
      requires Valid()
      modifies this
      ensures Valid()
      ensures r == EmptySuccess()
      ensures posts == RemoveById(old(posts), userId)
    {
      posts := RemoveById(posts, userId);
      assert DistinctIds(posts) by {
        RemovePreservesDistinct(old(posts), userId);
      }
      return EmptySuccess();
    }

    /**
     * `UpdateAsync`: fails and changes nothing when no post has `dto.Id`; otherwise every member
     * of that post is overwritten from the DTO.
     */
    method Update(userId: Guid, dto: NewsPostDto) returns (r: EmptyResult)
      requires Valid()
      modifies this
      ensures Valid()
      ensures dto.id !in Ids(old(posts)) ==> r == EmptyFailure(NotFoundById(dto.id)) && posts == old(posts)
      ensures dto.id in Ids(old(posts)) ==>
        r == EmptySuccess() && posts == ReplaceById(old(posts), dto.id, NewsFromDto(dto))
    {
      var existing := FindById(posts, dto.id);
      if existing.None? {
        return EmptyFailure(NotFoundById(dto.id));
      }
      posts := ReplaceById(posts, dto.id, NewsFromDto(dto));
      assert Ids(posts) == Ids(old(posts));
      return EmptySuccess();
    }
  }

  lemma {:induction false} RemovePreservesDistinct(s: seq<NewsPost>, id: Guid)
    requires DistinctIds(s)
    ensures DistinctIds(RemoveById(s, id))
  {
    if |s| > 0 {
      assert DistinctIds(s[1..]);
      RemovePreservesDistinct(s[1..], id);
      if s[0].id != id {
        var r := RemoveById(s[1..], id);
        forall j | 0 <= j < |r|
          ensures r[j].id != s[0].id
        {
          assert r[j] in r;
          var k :| 0 <= k < |s[1..]| && s[1..][k] == r[j];
          assert s[k + 1] == r[j];
        }
        assert RemoveById(s, id) == [s[0]] + r;
      }
    }
  }

  /** On a table with distinct keys, deleting a key it holds removes exactly one post. */
  lemma {:induction false} DeleteRemovesOnlyTheMatch(s: seq<NewsPost>, id: Guid)
    requires DistinctIds(s) && id in Ids(s)
    ensures |RemoveById(s, id)| == |s| - 1
  {
    var x :| 0 <= x < |s| && Ids(s)[x] == id;
    assert DistinctIds(s[1..]);
    assert forall y :: 0 <= y < |s| - 1 ==> Ids(s[1..])[y] == s[y + 1].id;
    if s[0].id == id {
      assert id !in Ids(s[1..]);
    } else {
      assert Ids(s[1..])[x - 1] == id;
      DeleteRemovesOnlyTheMatch(s[1..], id);
    }
  }

  /** After an update the post has the DTO's contents and the set of keys is the same. */
  lemma UpdateOverwrites(s: seq<NewsPost>, dto: NewsPostDto)
    requires dto.id in Ids(s)
    ensures Ids(ReplaceById(s, dto.id, NewsFromDto(dto))) == Ids(s)
    ensures GetById(ReplaceById(s, dto.id, NewsFromDto(dto)), dto.id) == Success(dto)
  {
    var r := ReplaceById(s, dto.id, NewsFromDto(dto));
    assert Ids(r) == Ids(s);
    var i :| 0 <= i < |s| && Ids(s)[i] == dto.id;
    assert r[i] == NewsFromDto(dto);
    NewsRoundTrip(NewsFromDto(dto), dto);
    FindInReplaced(s, dto.id, NewsFromDto(dto));
  }

  /** Every row of the updated table that carries the key is the new post, and there is one. */
  lemma FindInReplaced(s: seq<NewsPost>, id: Guid, p: NewsPost)
    requires id in Ids(s) && p.id == id
    ensures FindById(ReplaceById(s, id, p), id) == Some(p)
  {
    var r := ReplaceById(s, id, p);
    var i :| 0 <= i < |s| && Ids(s)[i] == id;
    assert Ids(r)[i] == id;
    var x := FindById(r, id).value;
    var k :| 0 <= k < |r| && r[k] == x;
  }
}

/**
 * The read-only handlers of main.rs over a snapshot of the tables: `posts`
 * (paginated listing), `linked_post` (lookup by id) and `get_images` (name listing).
 */
module Queries {
  import opened Wrappers
  import opened Primitives
  import opened Models
  import opened Ordering

  /** The hard cap on the page size, whatever the client asks for. */
  const PageCap: int := 3

  const PostsError: string := "Error querying page views from the database"
  const ImagesError: string := "Invalid request"

  function Min(a: int, b: int): int {
    if a <= b then a else b
  }

  function Max(a: int, b: int): int {
    if a <= b then b else a
  }

  function PostKey(p: Post): Key {
    Key(p.posttime, p.id)
  }

  function ImageKey(i: Image): Key {
    Key(i.postat, 0)
  }

  /** The posts table in `ORDER BY posttime DESC, id DESC`. */
  function Ordered(rows: seq<Post>): seq<Post> {
    Sort(rows, PostKey)
  }

  /** `OFFSET offset LIMIT limit` over the ordered posts. */
  function Page(rows: seq<Post>, offset: nat, limit: nat): seq<Post> {
    var o := Ordered(rows);
    var from := Min(offset, |o|);
    o[from..Min(from + limit, |o|)]
  }

  /**
   * `posts(i, range)`: the page at offset `i` of at most `min(range, 3)` posts. Postgres
   * refuses a negative OFFSET or LIMIT, which the handler reports like any query error.
   */
  function Posts(rows: seq<Post>, i: int, range: int, queryOk: bool): (r: Result<seq<Post>, string>)
    ensures r.Ok? <==> queryOk && i >= 0 && range >= 0
    ensures r.Err? ==> r.error == PostsError
    ensures r.Ok? ==> |r.value| <= PageCap
  {
    var limit := Min(range, PageCap);
    if !queryOk || i < 0 || limit < 0 then Err(PostsError) else Ok(Page(rows, i, limit))
  }

  /** A page is the slice of the ordered table between two clamped bounds. */
  lemma PageIsSlice(rows: seq<Post>, offset: nat, limit: nat)
    ensures |Ordered(rows)| == |rows|
    ensures var from := Min(offset, |rows|);
      Page(rows, offset, limit) == Ordered(rows)[from..Min(from + limit, |rows|)]
  {
  }

  /** A page holds min(limit, remaining) posts of the table, in order, read off the ordered table at the offset. */
  lemma PageFacts(rows: seq<Post>, offset: nat, limit: nat)
    ensures var r := Page(rows, offset, limit);
      && |r| == Min(limit, Max(|rows| - offset, 0))
      && (|r| > 0 ==> r == Ordered(rows)[offset..offset + |r|])
      && Descending(r, PostKey)
      && forall p :: p in r ==> p in rows
  {
    var o := Ordered(rows);
    PageIsSlice(rows, offset, limit);
    var from := Min(offset, |rows|);
    var to := Min(from + limit, |rows|);
    DescendingSlice(o, PostKey, from, to);
    forall p | p in o[from..to] ensures p in rows {
      assert p in multiset(o);
    }
  }

  /**
   * A listing is the contiguous run of the ordered table starting at offset `i`, of
   * `min(range, 3)` posts or as many as remain, in non-increasing (posttime, id) order.
   */
  lemma PostsPage(rows: seq<Post>, i: int, range: int, queryOk: bool)
    ensures Posts(rows, i, range, queryOk).Ok? <==> queryOk && i >= 0 && range >= 0
    ensures Posts(rows, i, range, queryOk).Err? ==> Posts(rows, i, range, queryOk).error == PostsError
    ensures Posts(rows, i, range, queryOk).Ok? ==>
      var r := Posts(rows, i, range, queryOk).value;
      && |r| == Min(Min(range, PageCap), Max(|rows| - i, 0))
      && (|r| > 0 ==> r == Ordered(rows)[i..i + |r|])
      && Descending(r, PostKey)
      && forall p :: p in r ==> p in rows
  {
    if queryOk && i >= 0 && range >= 0 {
      PageFacts(rows, i, Min(range, PageCap));
    }
  }

  lemma KeysDistinct(rows: seq<Post>)
    requires DistinctBy(rows, PostId)
    ensures DistinctBy(rows, PostKey)
  {
    forall i, j | 0 <= i < j < |rows| ensures PostKey(rows[i]) != PostKey(rows[j]) {
      assert PostId(rows[i]) != PostId(rows[j]);
    }
  }

  /** With unique ids, no two neighbours of the ordered table share a key. */
  lemma OrderedStrict(rows: seq<Post>)
    requires DistinctBy(rows, PostId)
    ensures DistinctBy(Ordered(rows), PostKey)
  {
    KeysDistinct(rows);
    DistinctByPermutation(rows, Ordered(rows), PostKey);
  }

  /** Because `id` is the primary key, consecutive posts of a listing strictly decrease in (posttime, id). */
  lemma PostsStrictlyDescending(rows: seq<Post>, i: int, range: int, queryOk: bool)
    requires DistinctBy(rows, PostId)
    requires Posts(rows, i, range, queryOk).Ok?
    ensures var r := Posts(rows, i, range, queryOk).value;
      forall k :: 0 < k < |r| ==> Le(PostKey(r[k]), PostKey(r[k - 1])) && PostKey(r[k]) != PostKey(r[k - 1])
  {
    var o := Ordered(rows);
    var r := Posts(rows, i, range, queryOk).value;
    PageFacts(rows, i, Min(range, PageCap));
    OrderedStrict(rows);
    forall k | 0 < k < |r| ensures PostKey(r[k]) != PostKey(r[k - 1]) {
      assert r[k] == o[i + k] && r[k - 1] == o[i + k - 1];
    }
  }

  /** The listing depends on which posts are stored, not on the order the table holds them in. */
  lemma PageIgnoresStorageOrder(rows1: seq<Post>, rows2: seq<Post>, offset: nat, limit: nat)
    requires multiset(rows1) == multiset(rows2) && DistinctBy(rows1, PostId)
    ensures Page(rows1, offset, limit) == Page(rows2, offset, limit)
  {
    var o1, o2 := Ordered(rows1), Ordered(rows2);
    KeysDistinct(rows1);
    DistinctByPermutation(rows1, o1, PostKey);
    SortedUnique(o1, o2, PostKey);
  }

  /** What a client sees by requesting pages of three from `offset` on, one after another. */
  function Scroll(rows: seq<Post>, offset: nat): seq<Post>
    decreases |rows| - offset
  {
    if offset >= |rows| then [] else Page(rows, offset, PageCap) + Scroll(rows, offset + PageCap)
  }

  lemma ScrollStep(rows: seq<Post>, offset: nat)
    ensures |Ordered(rows)| == |rows|
    ensures offset >= |rows| ==> Scroll(rows, offset) == []
    ensures offset < |rows| ==>
      Scroll(rows, offset) == Ordered(rows)[offset..Min(offset + PageCap, |rows|)] + Scroll(rows, offset + PageCap)
  {
    PageIsSlice(rows, offset, PageCap);
  }

  lemma SliceJoin<T>(o: seq<T>, a: nat, b: nat)
    requires a <= b <= |o|
    ensures o[a..] == o[a..b] + o[b..]
  {
  }

  /** Paging through the listing shows every post exactly once, in order, with no gap and no repeat. */
  lemma {:induction false} ScrollShowsAll(rows: seq<Post>, offset: nat)
    requires offset <= |rows|
    ensures Scroll(rows, offset) == Ordered(rows)[offset..]
    decreases |rows| - offset
  {
    ScrollStep(rows, offset);
    if offset < |rows| {
      var next := Min(offset + PageCap, |rows|);
      ScrollStep(rows, offset + PageCap);
      if offset + PageCap < |rows| {
        ScrollShowsAll(rows, next);
      }
      SliceJoin(Ordered(rows), offset, next);
    }
  }

  lemma ScrollIsPermutation(rows: seq<Post>)
    ensures multiset(Scroll(rows, 0)) == multiset(rows)
  {
    ScrollShowsAll(rows, 0);
    assert Ordered(rows)[0..] == Ordered(rows);
  }

  /** `filter(id.eq(k))`: the rows whose id is `k`, in table order. */
  function WithId(rows: seq<Post>, k: int): (r: seq<Post>)
    ensures forall p :: p in r <==> p in rows && p.id == k
    ensures |r| <= |rows|
    decreases |rows|
  {
    if rows == [] then []
    else
      assert forall p :: p in rows <==> p == rows[0] || p in rows[1..];
      (if rows[0].id == k then [rows[0]] else []) + WithId(rows[1..], k)
  }

  /** `linked_post(k)`. */
  function LinkedPost(rows: seq<Post>, k: i32, queryOk: bool): (r: Result<seq<Post>, string>)
    ensures r.Ok? <==> queryOk
    ensures r.Err? ==> r.error == PostsError
    ensures r.Ok? ==> forall p :: p in r.value <==> p in rows && p.id == k
  {
    if queryOk then Ok(WithId(rows, k)) else Err(PostsError)
  }

  /** With `id` the primary key, `linked_post(k)` returns the one post with id `k`, or nothing. */
  lemma {:induction false} LinkedPostAtMostOne(rows: seq<Post>, k: i32)
    requires DistinctBy(rows, PostId)
    ensures |WithId(rows, k)| <= 1
    ensures forall p :: p in rows && p.id == k ==> WithId(rows, k) == [p]
    ensures (forall p :: p in rows ==> p.id != k) ==> WithId(rows, k) == []
    decreases |rows|
  {
    if rows != [] {
      var tail := rows[1..];
      assert DistinctBy(tail, PostId) by {
        forall i, j | 0 <= i < j < |tail| ensures PostId(tail[i]) != PostId(tail[j]) {
          assert tail[i] == rows[i + 1] && tail[j] == rows[j + 1];
        }
      }
      LinkedPostAtMostOne(tail, k);
      if rows[0].id == k {
        forall p | p in tail ensures p.id != k {
          var j :| 0 <= j < |tail| && tail[j] == p;
          assert PostId(rows[0]) != PostId(rows[j + 1]);
        }
      }
    }
  }

  /** The names of the rows, in row order. */
  function Names(rows: seq<Image>): (names: seq<string>)
    ensures |names| == |rows|
    ensures forall i :: 0 <= i < |rows| ==> names[i] == rows[i].imagename
  {
    seq(|rows|, i requires 0 <= i < |rows| => rows[i].imagename)
  }

  /** Every stored name, newest `postat` first (rows with equal `postat` in one of their possible orders). */
  function NewestFirst(rows: seq<Image>): seq<string> {
    Names(Sort(rows, ImageKey))
  }

  /** `get_images`. */
  function GetImages(rows: seq<Image>, queryOk: bool): (r: Result<seq<string>, string>)
    ensures r.Ok? <==> queryOk
    ensures r.Err? ==> r.error == ImagesError
    ensures r.Ok? ==> |r.value| == |rows|
  {
    if queryOk then Ok(NewestFirst(rows)) else Err(ImagesError)
  }

  /** `names` lists the names of some arrangement of the rows by non-increasing `postat`. */
  ghost predicate ListsNewestFirst(rows: seq<Image>, names: seq<string>) {
    exists o :: multiset(o) == multiset(rows) && Descending(o, ImageKey) && names == Names(o)
  }

  /**
   * `get_images` lists every stored name once, and nothing else, from the newest
   * upload to the oldest.
   */
  lemma NewestFirstSpec(rows: seq<Image>)
    requires DistinctBy(rows, ImageName)
    ensures var names := NewestFirst(rows);
      && ListsNewestFirst(rows, names)
      && |names| == |rows|
      && (forall img :: img in rows ==> img.imagename in names)
      && (forall n :: n in names ==> exists img :: img in rows && img.imagename == n)
      && forall i, j :: 0 <= i < j < |names| ==> names[i] != names[j]
  {
    var o := Sort(rows, ImageKey);
    var names := Names(o);
    DistinctByPermutation(rows, o, ImageName);
    forall i, j | 0 <= i < j < |names| ensures names[i] != names[j] {
      assert ImageName(o[i]) != ImageName(o[j]);
    }
    forall img | img in rows ensures img.imagename in names {
      assert img in multiset(o);
      var k :| 0 <= k < |o| && o[k] == img;
      assert names[k] == img.imagename;
    }
    forall n | n in names ensures exists img :: img in rows && img.imagename == n {
      var k :| 0 <= k < |names| && names[k] == n;
      assert o[k] in multiset(rows);
    }
  }
}

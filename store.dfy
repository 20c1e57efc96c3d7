/**
 * The database as the mutating handlers of main.rs see it: the `posts` and `images`
 * tables and the serial sequence behind `posts.id`, changed in place by
 * `upload_post`, `delete_post` and `upload_image`.
 */
module Store {
  import opened Wrappers
  import opened Primitives
  import opened Http
  import opened Models
  import opened Ordering
  import opened Queries
  import opened Codec
  import Images
  import Base64
  import Version
  import Guards
  import Responders

  /** `update posts set .. where id = p.id`: each row with that id takes the new columns. */
  function Overwrite(rows: seq<Post>, p: Post): (r: seq<Post>)
    ensures |r| == |rows|
    ensures forall q :: q in r ==> q == p || (q in rows && q.id != p.id)
  {
    seq(|rows|, i requires 0 <= i < |rows| => if rows[i].id == p.id then p else rows[i])
  }

  /**
   * An update changes exactly the row whose id it names, if there is one: every other
   * row stays, the named row now holds the new columns, and the ids stay unique.
   */
  lemma UpdateReplacesRow(rows: seq<Post>, p: Post)
    requires DistinctBy(rows, PostId)
    ensures var r := Overwrite(rows, p);
      && DistinctBy(r, PostId)
      && (forall q :: q in rows && q.id != p.id ==> q in r)
      && (forall q :: q in r ==> q in rows || (q == p && exists o :: o in rows && o.id == p.id))
      && ((exists o :: o in rows && o.id == p.id) ==> WithId(r, p.id) == [p])
      && ((forall o :: o in rows ==> o.id != p.id) ==> r == rows)
  {
    var r := Overwrite(rows, p);
    forall i, j | 0 <= i < j < |r| ensures PostId(r[i]) != PostId(r[j]) {
      assert PostId(rows[i]) != PostId(rows[j]);
    }
    forall q | q in rows && q.id != p.id ensures q in r {
      var i :| 0 <= i < |rows| && rows[i] == q;
      assert r[i] == q;
    }
    forall q | q in r ensures q in rows || (q == p && exists o :: o in rows && o.id == p.id) {
      var i :| 0 <= i < |r| && r[i] == q;
      assert rows[i] in rows;
    }
    if exists o :: o in rows && o.id == p.id {
      var o :| o in rows && o.id == p.id;
      var i :| 0 <= i < |rows| && rows[i] == o;
      assert r[i] == p;
      LinkedPostAtMostOne(r, p.id);
    }
  }

  /** `delete from posts where id = k`: the rows whose id is not `k`, in table order. */
  function Without(rows: seq<Post>, k: int): (r: seq<Post>)
    ensures forall q :: q in r <==> q in rows && q.id != k
    decreases |rows|
  {
    if rows == [] then []
    else
      assert forall q :: q in rows <==> q == rows[0] || q in rows[1..];
      (if rows[0].id == k then [] else [rows[0]]) + Without(rows[1..], k)
  }

  /** A delete removes exactly the post with that id: a lookup of any other id answers as before. */
  lemma {:induction false} DeleteRemovesRow(rows: seq<Post>, k: int, j: int)
    ensures WithId(Without(rows, k), k) == []
    ensures j != k ==> WithId(Without(rows, k), j) == WithId(rows, j)
    decreases |rows|
  {
    if rows != [] {
      DeleteRemovesRow(rows[1..], k, j);
      var rest := Without(rows[1..], k);
      if rows[0].id == k {
        assert Without(rows, k) == rest;
      } else {
        assert Without(rows, k) == [rows[0]] + rest;
        assert ([rows[0]] + rest)[1..] == rest;
      }
    }
  }

  /** Deleting keeps the ids unique. */
  lemma {:induction false} WithoutDistinct(rows: seq<Post>, k: int)
    requires DistinctBy(rows, PostId)
    ensures DistinctBy(Without(rows, k), PostId)
    decreases |rows|
  {
    if rows != [] {
      var tail := rows[1..];
      assert DistinctBy(tail, PostId) by {
        forall i, j | 0 <= i < j < |tail| ensures PostId(tail[i]) != PostId(tail[j]) {
          assert tail[i] == rows[i + 1] && tail[j] == rows[j + 1];
        }
      }
      WithoutDistinct(tail, k);
      var rest := Without(tail, k);
      if rows[0].id != k {
        var r := [rows[0]] + rest;
        forall i, j | 0 <= i < j < |r| ensures PostId(r[i]) != PostId(r[j]) {
          if i == 0 {
            assert r[j] in tail;
            var m :| 0 <= m < |tail| && tail[m] == r[j];
            assert PostId(rows[0]) != PostId(rows[m + 1]);
          } else {
            assert r[i] == rest[i - 1] && r[j] == rest[j - 1];
          }
        }
      }
    }
  }

  /** A row appended under a key no stored row has keeps the keys unique. */
  lemma AppendFresh<T, K>(rows: seq<T>, x: T, key: T -> K)
    requires DistinctBy(rows, key)
    requires forall y :: y in rows ==> key(y) != key(x)
    ensures DistinctBy(rows + [x], key)
  {
    var r := rows + [x];
    forall i, j | 0 <= i < j < |r| ensures key(r[i]) != key(r[j]) {
      if j == |rows| {
        assert r[i] in rows;
      } else {
        assert r[i] == rows[i] && r[j] == rows[j];
      }
    }
  }

  /** A post inserted under a fresh id is what `linked_post` then returns for that id. */
  lemma InsertedPostIsLinked(rows: seq<Post>, p: Post)
    requires DistinctBy(rows, PostId)
    requires forall q :: q in rows ==> q.id != p.id
    ensures WithId(rows + [p], p.id) == [p]
  {
    AppendFresh(rows, p, PostId);
    LinkedPostAtMostOne(rows + [p], p.id);
  }

  /**
   * Uploading a picture again under the same file name yields the stored name of the
   * first upload, so the second insert hits the primary key.
   */
  lemma ReuploadClashes(images: seq<Image>, codec: Codec, u1: Bytes, u2: Bytes, clientName: string, t1: Timestamp, t2: Timestamp)
    requires Images.Ingest(codec, u1, clientName, t1).Some? && Images.Ingest(codec, u2, clientName, t2).Some?
    requires codec.load(u1) == codec.load(u2)
    ensures Images.Ingest(codec, u2, clientName, t2).value.imagename in Names(images + [Images.Ingest(codec, u1, clientName, t1).value])
  {
    Images.IngestedNameIsVersion(codec, u1, u2, clientName, clientName, t1, t2);
    var all := images + [Images.Ingest(codec, u1, clientName, t1).value];
    assert Names(all)[|images|] == all[|images|].imagename;
  }

  class ContentStore {
    /** The `posts` table. */
    var posts: seq<Post>
    /** The `images` table. */
    var images: seq<Image>
    /** The next value of the serial sequence that numbers inserted posts. */
    var nextId: int

    /** Both primary keys are unique, and the sequence is ahead of every post id. */
    ghost predicate Valid()
      reads this
    {
      && DistinctBy(posts, PostId)
      && DistinctBy(images, ImageName)
      && 1 <= nextId
      && forall p :: p in posts ==> p.id < nextId
    }

    /** An empty database. */
    constructor()
      ensures Valid() && posts == [] && images == [] && nextId == 1
    {
      posts := [];
      images := [];
      nextId := 1;
    }

    /**
     * `upload_post`: a post with a negative id is inserted under the next serial id;
     * any other post overwrites the columns of the row with its id, if there is one.
     * A query error, or a serial sequence past the 32-bit range, panics and changes nothing.
     */
    method UploadPost(admin: Guards.Admin, newPost: Post, queryOk: bool) returns (r: Handled<Status>)
      requires Valid()
      modifies this
      ensures Valid()
      ensures images == old(images)
      ensures r == Panicked || r == Responded(Accepted)
      ensures r == Panicked <==> !queryOk || (newPost.id < 0 && old(nextId) > I32Max)
      ensures r == Panicked ==> posts == old(posts) && nextId == old(nextId)
      ensures r.Responded? && newPost.id < 0 ==>
        old(nextId) <= I32Max &&
        posts == old(posts) + [newPost.(id := old(nextId))] && nextId == old(nextId) + 1
      ensures r.Responded? && newPost.id >= 0 ==>
        posts == Overwrite(old(posts), newPost) && nextId == old(nextId)
    {
      if newPost.id < 0 {
        if !queryOk || nextId > I32Max {
          return Panicked;
        }
        var row := newPost.(id := nextId);
        AppendFresh(posts, row, PostId);
        posts := posts + [row];
        nextId := nextId + 1;
      } else {
        if !queryOk {
          return Panicked;
        }
        UpdateReplacesRow(posts, newPost);
        posts := Overwrite(posts, newPost);
      }
      r := Responded(Accepted);
    }

    /** `delete_post`: removes the post with that id, if any; a query error answers BadRequest and changes nothing. */
    method DeletePost(admin: Guards.Admin, postId: i32, queryOk: bool) returns (r: Status)
      requires Valid()
      modifies this
      ensures Valid()
      ensures images == old(images) && nextId == old(nextId)
      ensures queryOk ==> r == Accepted && posts == Without(old(posts), postId)
      ensures !queryOk ==> r == BadRequest && posts == old(posts)
    {
      if !queryOk {
        return BadRequest;
      }
      WithoutDistinct(posts, postId);
      posts := Without(posts, postId);
      r := Accepted;
    }

    /**
     * `upload_image`: decodes the upload, names it by its content, encodes its thumbnail
     * in the format the client's file name implies, inserts the row and answers every
     * stored name, newest first. A failed decode or encode, a failed insert or a name
     * already stored panics and changes nothing; a failed listing answers "Invalid request"
     * after the insert.
     */
    method UploadImage(admin: Guards.Admin, codec: Codec, upload: Bytes, fileName: Guards.FileName, now: Timestamp,
                       insertOk: bool, listOk: bool)
      returns (r: Handled<Result<seq<string>, string>>)
      requires Valid()
      modifies this
      ensures Valid()
      ensures posts == old(posts) && nextId == old(nextId)
      ensures var row := Images.Ingest(codec, upload, fileName.name, now);
        if row.None? || !insertOk || row.value.imagename in Names(old(images)) then
          r == Panicked && images == old(images)
        else
          && images == old(images) + [row.value]
          && r == Responded(GetImages(images, listOk))
          && (listOk ==> row.value.imagename in r.value.value && ListsNewestFirst(images, r.value.value))
    {
      var decoded := codec.load(upload);
      if decoded.None? {
        return Panicked;
      }
      var pic := decoded.value;
      var h := codec.hash(pic);
      var hashV := Base64.Encode(Version.ToLeBytes(h));
      hashV := Version.Truncate(hashV, Version.TokenLength);
      var newName := fileName.name + Version.VersionMark + hashV;
      var thumb := WriteAs(codec, codec.thumbnail(pic), fileName.name);
      if thumb.None? {
        return Panicked;
      }
      if !insertOk || newName in Names(images) {
        return Panicked;
      }
      var row := Image(newName, now, upload, thumb.value);
      assert Images.Ingest(codec, upload, fileName.name, now) == Some(row);
      forall y | y in images ensures ImageName(y) != ImageName(row) {
        var k :| 0 <= k < |images| && images[k] == y;
        assert Names(images)[k] == y.imagename;
      }
      AppendFresh(images, row, ImageName);
      images := images + [row];
      NewestFirstSpec(images);
      assert row in images;
      r := Responded(GetImages(images, listOk));
    }

    /**
     * `images` (`col == Main`) and `thumbnails` (`col == Thumbnail`): the first row with
     * the requested name, re-encoded into a fresh cursor, with the format taken from the
     * client's file name inside the stored name. Changes nothing.
     */
    method Retrieve(codec: Codec, name: string, col: Images.Column, queryOk: bool) returns (r: Handled<Responders.Response>)
      ensures r == Images.Served(images, codec, name, col, queryOk)
    {
      var cursor: Bytes := [];
      if !queryOk {
        return Responded(Responders.CachedImage(cursor, 0));
      }
      var found := Images.Named(images, name);
      if found != [] {
        var stored := if col == Images.Main then found[0].main else found[0].thumbnail;
        var decoded := codec.load(stored);
        if decoded.None? {
          return Panicked;
        }
        var written := WriteAs(codec, decoded.value, Version.ClientName(found[0].imagename));
        if written.None? {
          return Panicked;
        }
        cursor := written.value;
      }
      r := Responded(Responders.CachedImage(cursor, Images.OneYear));
    }
  }
}

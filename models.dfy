/**
 * The two tables of the database (schema.rs) and their row records (models.rs).
 * Timestamps are seconds since the Unix epoch.
 */
module Models {
  import opened Primitives

  type Timestamp = int

  /** A row of `posts`; `id` is the primary key. */
  datatype Post = Post(id: i32, title: string, images: seq<string>, content: string, posttime: Timestamp)

  /** A row of `images`; `imagename` is the primary key. */
  datatype Image = Image(imagename: string, postat: Timestamp, main: Bytes, thumbnail: Bytes)

  function PostId(p: Post): int {
    p.id
  }

  function ImageName(i: Image): string {
    i.imagename
  }
}

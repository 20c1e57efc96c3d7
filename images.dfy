/**
 * The image pipeline of main.rs: the row `upload_image` builds from an upload, and
 * the two serving handlers `images` and `thumbnails`, which look a row up by its
 * stored name and re-encode one of its columns.
 */
module Images {
  import opened Wrappers
  import opened Primitives
  import opened Http
  import opened Models
  import opened Codec
  import opened Responders
  import opened Version

  /** Which stored column a serving handler re-encodes: `images` serves `main`, `thumbnails` the thumbnail. */
  datatype Column = Main | Thumbnail

  /** The freshness of a served image: one year (24*60*60*365 seconds). */
  const OneYear: nat := 31536000

  /**
   * The row `upload_image` inserts for `upload` sent with `File-Name: clientName` at
   * time `now`, or None when the upload does not decode or its thumbnail cannot be
   * encoded in the format the client name implies (both make the handler panic).
   */
  function Ingest(codec: Codec, upload: Bytes, clientName: string, now: Timestamp): (r: Option<Image>)
    ensures r.Some? ==> codec.load(upload).Some? && FormatFromPath(codec, clientName).Some?
    ensures r.Some? ==> r.value.main == upload && r.value.postat == now
    ensures r.Some? ==> ClientName(r.value.imagename) == clientName
  {
    match codec.load(upload)
    case None => None
    case Some(pic) =>
      match WriteAs(codec, codec.thumbnail(pic), clientName)
      case None => None
      case Some(thumb) =>
        ClientNameOfVersioned(clientName, codec.hash(pic));
        Some(Image(VersionedName(clientName, codec.hash(pic)), now, upload, thumb))
  }

  /**
   * The row of an accepted upload keeps the upload verbatim as `main`, is stamped with
   * the upload time, and is named by the client's name, `?v=` and an 11-character
   * base64 token, from which the client's name can be read back.
   */
  lemma IngestedRow(codec: Codec, upload: Bytes, clientName: string, now: Timestamp)
    requires Ingest(codec, upload, clientName, now).Some?
    ensures var row := Ingest(codec, upload, clientName, now).value;
      && row.main == upload
      && row.postat == now
      && |row.imagename| == |clientName| + 14
      && row.imagename[..|clientName|] == clientName
      && row.imagename[|clientName|..|clientName| + 3] == VersionMark
      && (forall i :: |clientName| + 3 <= i < |row.imagename| ==> Base64.IsAlphabetChar(row.imagename[i]))
      && ClientName(row.imagename) == clientName
  {
    var pic := codec.load(upload).value;
    VersionedNameShape(clientName, codec.hash(pic));
    ClientNameOfVersioned(clientName, codec.hash(pic));
  }

  /**
   * When encoding never fails, an upload is refused exactly when it does not decode or
   * when the client's name has no extension naming a known format.
   */
  lemma IngestFails(codec: Codec, upload: Bytes, clientName: string, now: Timestamp)
    requires EncodingKeepsSize(codec)
    ensures Ingest(codec, upload, clientName, now).None? <==>
      codec.load(upload).None? || FormatFromPath(codec, clientName).None?
  {
    if codec.load(upload).Some? && FormatFromPath(codec, clientName).Some? {
      var pic := codec.load(upload).value;
      assert codec.write(codec.thumbnail(pic), FormatFromPath(codec, clientName).value).Some?;
    }
  }

  /**
   * The name is a content version: its token depends on the decoded picture alone,
   * whatever the file name, and two stored names agree exactly when the file names
   * agree and the pictures hash alike.
   */
  lemma IngestedNameIsVersion(codec: Codec, u1: Bytes, u2: Bytes, c1: string, c2: string, t1: Timestamp, t2: Timestamp)
    requires Ingest(codec, u1, c1, t1).Some? && Ingest(codec, u2, c2, t2).Some?
    ensures var n1, n2 := Ingest(codec, u1, c1, t1).value.imagename, Ingest(codec, u2, c2, t2).value.imagename;
      && (codec.load(u1) == codec.load(u2) ==> n1[|c1| + 3..] == n2[|c2| + 3..])
      && (n1[|c1| + 3..] == n2[|c2| + 3..] <==> codec.hash(codec.load(u1).value) == codec.hash(codec.load(u2).value))
      && (n1 == n2 <==> c1 == c2 && codec.hash(codec.load(u1).value) == codec.hash(codec.load(u2).value))
  {
    var h1, h2 := codec.hash(codec.load(u1).value), codec.hash(codec.load(u2).value);
    var n1, n2 := VersionedName(c1, h1), VersionedName(c2, h2);
    assert n1[|c1| + 3..] == Token(h1);
    assert n2[|c2| + 3..] == Token(h2);
    if Token(h1) == Token(h2) {
      TokenInjective(h1, h2);
    }
    VersionedNameInjective(c1, h1, c2, h2);
  }

  /** `filter(imagename.eq(name))`: the rows with that name, in table order. */
  function Named(rows: seq<Image>, name: string): (r: seq<Image>)
    ensures forall i :: i in r <==> i in rows && i.imagename == name
    decreases |rows|
  {
    if rows == [] then []
    else
      var last := rows[|rows| - 1];
      assert forall i :: i in rows <==> i in rows[..|rows| - 1] || i == last by {
        assert rows == rows[..|rows| - 1] + [last];
      }
      Named(rows[..|rows| - 1], name) + (if last.imagename == name then [last] else [])
  }

  /** The stored bytes a handler re-encodes. */
  function Stored(row: Image, col: Column): Bytes {
    match col
    case Main => row.main
    case Thumbnail => row.thumbnail
  }

  /** `load_from_memory(..).unwrap().write_to(.., format of path).expect("")`. */
  function Reencode(codec: Codec, bytes: Bytes, path: string): (r: Handled<Bytes>)
    ensures codec.load(bytes).None? ==> r.Panicked?
    ensures FormatFromPath(codec, path).None? ==> r.Panicked?
    ensures r.Responded? ==> codec.load(bytes).Some? && FormatFromPath(codec, path).Some?
  {
    match codec.load(bytes)
    case None => Panicked
    case Some(pic) =>
      match WriteAs(codec, pic, path)
      case None => Panicked
      case Some(out) => Responded(out)
  }

  /** A re-encoded image served fresh for a year, or the panic of the re-encoding. */
  function Cached(h: Handled<Bytes>): Handled<Response> {
    match h
    case Panicked => Panicked
    case Responded(out) => Responded(CachedImage(out, OneYear))
  }

  /**
   * The serving handlers, with the output format taken from `formatPath` applied to
   * the matched row's name: an empty image fresh for 0 seconds on a query error, an
   * empty image fresh for a year when no row matches, else the first match re-encoded.
   */
  function ServeWith(rows: seq<Image>, codec: Codec, name: string, col: Column, queryOk: bool,
                     formatPath: string -> string): (r: Handled<Response>)
    ensures !queryOk ==> r == Responded(CachedImage([], 0))
    ensures r.Panicked? ==> queryOk && exists i :: i in rows && i.imagename == name
    ensures queryOk && (forall i :: i in rows ==> i.imagename != name) ==> r == Responded(CachedImage([], OneYear))
  {
    if !queryOk then Responded(CachedImage([], 0))
    else
      var found := Named(rows, name);
      if found == [] then Responded(CachedImage([], OneYear))
      else Cached(Reencode(codec, Stored(found[0], col), formatPath(found[0].imagename)))
  }

  /** The handlers as written: the output format is inferred from the stored, versioned name. */
  function ServedAsWritten(rows: seq<Image>, codec: Codec, name: string, col: Column, queryOk: bool): (r: Handled<Response>)
    ensures !queryOk ==> r == Responded(CachedImage([], 0))
    ensures r.Panicked? ==> queryOk && exists i :: i in rows && i.imagename == name
    ensures queryOk && (forall i :: i in rows ==> i.imagename != name) ==> r == Responded(CachedImage([], OneYear))
  {
    ServeWith(rows, codec, name, col, queryOk, s => s)
  }

  /** The handlers as intended: the output format is inferred from the client's name inside the stored name. */
  function Served(rows: seq<Image>, codec: Codec, name: string, col: Column, queryOk: bool): (r: Handled<Response>)
    ensures !queryOk ==> r == Responded(CachedImage([], 0))
    ensures r.Panicked? ==> queryOk && exists i :: i in rows && i.imagename == name
    ensures queryOk && (forall i :: i in rows ==> i.imagename != name) ==> r == Responded(CachedImage([], OneYear))
  {
    ServeWith(rows, codec, name, col, queryOk, ClientName)
  }

  /** The first row of the name filter is the first row of the table with that name. */
  lemma {:induction false} NamedFirst(rows: seq<Image>, name: string, k: nat)
    requires k < |rows| && rows[k].imagename == name
    requires forall j :: 0 <= j < k ==> rows[j].imagename != name
    ensures Named(rows, name) != [] && Named(rows, name)[0] == rows[k]
    decreases |rows|
  {
    var prefix := rows[..|rows| - 1];
    if k == |rows| - 1 {
      forall i | i in prefix ensures i.imagename != name {
        var j :| 0 <= j < |prefix| && prefix[j] == i;
        assert rows[j] == i;
      }
      NamedAbsent(prefix, name);
    } else {
      NamedFirst(prefix, name, k);
    }
  }

  /**
   * The outcomes of a serving handler: an empty image fresh for 0 seconds exactly on a
   * query error, and an empty image fresh for a year when no row has the name.
   */
  lemma ServedOutcomes(rows: seq<Image>, codec: Codec, name: string, col: Column, queryOk: bool)
    ensures !queryOk ==> Served(rows, codec, name, col, queryOk) == Responded(CachedImage([], 0))
    ensures queryOk && (forall i :: i in rows ==> i.imagename != name) ==>
      Served(rows, codec, name, col, queryOk) == Responded(CachedImage([], OneYear))
  {
    if queryOk && (forall i :: i in rows ==> i.imagename != name) {
      NamedAbsent(rows, name);
    }
  }

  /**
   * When rows match, the handler re-encodes the requested column of the first matching
   * row in table order and serves it fresh for a year, or panics when re-encoding fails.
   */
  lemma ServedFirstMatch(rows: seq<Image>, codec: Codec, name: string, col: Column, k: nat)
    requires k < |rows| && rows[k].imagename == name
    requires forall j :: 0 <= j < k ==> rows[j].imagename != name
    ensures Served(rows, codec, name, col, true) == Cached(Reencode(codec, Stored(rows[k], col), ClientName(name)))
  {
    NamedFirst(rows, name, k);
  }

  /**
   * As written, serving a stored upload always panics: the stored name's extension is
   * never a format, so `write_to` is handed an unsupported format and `expect` fails.
   */
  lemma AsWrittenServingPanics(rows: seq<Image>, codec: Codec, clientName: string, h: u64, col: Column)
    requires ExtensionsArePlain(codec)
    requires exists i :: i in rows && i.imagename == VersionedName(clientName, h)
    ensures ServedAsWritten(rows, codec, VersionedName(clientName, h), col, true) == Panicked
  {
    var name := VersionedName(clientName, h);
    var found := Named(rows, name);
    assert found != [] by {
      var i :| i in rows && i.imagename == name;
      assert i in found;
    }
    assert found[0] in found;
    StoredNameHasNoFormat(codec, clientName, h);
  }

  /** As intended, serving re-encodes in the very format the upload's thumbnail was encoded in. */
  lemma ServedFormatIsUploadFormat(codec: Codec, clientName: string, h: u64)
    ensures FormatFromPath(codec, ClientName(VersionedName(clientName, h))) == FormatFromPath(codec, clientName)
  {
    ClientNameOfVersioned(clientName, h);
  }

  lemma {:induction false} NamedAbsent(rows: seq<Image>, name: string)
    requires forall i :: i in rows ==> i.imagename != name
    ensures Named(rows, name) == []
    decreases |rows|
  {
    if rows != [] {
      NamedAbsent(rows[..|rows| - 1], name);
      assert rows[|rows| - 1] in rows;
    }
  }

  /** As intended, the stored thumbnail of an upload re-encodes to a picture within 100x100. */
  lemma IngestedThumbnail(codec: Codec, upload: Bytes, clientName: string, now: Timestamp)
    requires ThumbnailsFit(codec) && EncodingKeepsSize(codec)
    requires Ingest(codec, upload, clientName, now).Some?
    ensures var row := Ingest(codec, upload, clientName, now).value;
      var r := Reencode(codec, row.thumbnail, ClientName(row.imagename));
      && r.Responded?
      && codec.load(r.value).Some?
      && codec.load(r.value).value.width <= 100
      && codec.load(r.value).value.height <= 100
  {
    var row := Ingest(codec, upload, clientName, now).value;
    var pic := codec.load(upload).value;
    var f := FormatFromPath(codec, clientName).value;
    var thumb := codec.thumbnail(pic);
    ServedFormatIsUploadFormat(codec, clientName, codec.hash(pic));
    assert row.thumbnail == codec.write(thumb, f).value;
    var back := codec.load(row.thumbnail).value;
    assert back.width == thumb.width && back.height == thumb.height;
    var out := codec.write(back, f).value;
    assert Reencode(codec, row.thumbnail, ClientName(row.imagename)) == Responded(out);
  }

  /** As intended, the stored upload re-encodes to a picture of the uploaded picture's size. */
  lemma IngestedMain(codec: Codec, upload: Bytes, clientName: string, now: Timestamp)
    requires EncodingKeepsSize(codec)
    requires Ingest(codec, upload, clientName, now).Some?
    ensures var row := Ingest(codec, upload, clientName, now).value;
      var r := Reencode(codec, row.main, ClientName(row.imagename));
      && r.Responded?
      && codec.load(r.value).Some?
      && codec.load(r.value).value.width == codec.load(upload).value.width
      && codec.load(r.value).value.height == codec.load(upload).value.height
  {
    var row := Ingest(codec, upload, clientName, now).value;
    var pic := codec.load(upload).value;
    var f := FormatFromPath(codec, clientName).value;
    ServedFormatIsUploadFormat(codec, clientName, codec.hash(pic));
    var out := codec.write(pic, f).value;
    assert Reencode(codec, row.main, ClientName(row.imagename)) == Responded(out);
  }

  /** In a table with a row appended under a fresh name, that row is the first with its name. */
  lemma AppendedIsFirst(rows: seq<Image>, row: Image, j: nat)
    requires forall i :: i in rows ==> i.imagename != row.imagename
    requires j < |rows|
    ensures (rows + [row])[j].imagename != row.imagename
  {
    assert (rows + [row])[j] in rows;
  }

  /**
   * Upload then serve, as intended: once an upload is stored under a fresh name, the
   * `thumbnails` handler answers that name with an image fresh for a year that decodes
   * to a picture within 100x100.
   */
  lemma UploadedThumbnailFits(rows: seq<Image>, codec: Codec, upload: Bytes, clientName: string, now: Timestamp)
    requires ThumbnailsFit(codec) && EncodingKeepsSize(codec)
    requires Ingest(codec, upload, clientName, now).Some?
    requires forall i :: i in rows ==> i.imagename != Ingest(codec, upload, clientName, now).value.imagename
    ensures var row := Ingest(codec, upload, clientName, now).value;
      var r := Served(rows + [row], codec, row.imagename, Thumbnail, true);
      && r.Responded?
      && r.value == CachedImage(r.value.body, OneYear)
      && codec.load(r.value.body).Some?
      && codec.load(r.value.body).value.width <= 100
      && codec.load(r.value.body).value.height <= 100
  {
    var row := Ingest(codec, upload, clientName, now).value;
    forall j | 0 <= j < |rows| ensures (rows + [row])[j].imagename != row.imagename {
      AppendedIsFirst(rows, row, j);
    }
    ServedFirstMatch(rows + [row], codec, row.imagename, Thumbnail, |rows|);
    IngestedThumbnail(codec, upload, clientName, now);
  }

  /**
   * Upload then serve, as intended: the `images` handler answers the stored name with
   * an image fresh for a year that decodes to a picture of the uploaded picture's size.
   */
  lemma UploadedImageKeepsSize(rows: seq<Image>, codec: Codec, upload: Bytes, clientName: string, now: Timestamp)
    requires EncodingKeepsSize(codec)
    requires Ingest(codec, upload, clientName, now).Some?
    requires forall i :: i in rows ==> i.imagename != Ingest(codec, upload, clientName, now).value.imagename
    ensures var row := Ingest(codec, upload, clientName, now).value;
      var r := Served(rows + [row], codec, row.imagename, Main, true);
      && r.Responded?
      && r.value == CachedImage(r.value.body, OneYear)
      && codec.load(r.value.body).Some?
      && codec.load(r.value.body).value.width == codec.load(upload).value.width
      && codec.load(r.value.body).value.height == codec.load(upload).value.height
  {
    var row := Ingest(codec, upload, clientName, now).value;
    forall j | 0 <= j < |rows| ensures (rows + [row])[j].imagename != row.imagename {
      AppendedIsFirst(rows, row, j);
    }
    ServedFirstMatch(rows + [row], codec, row.imagename, Main, |rows|);
    IngestedMain(codec, upload, clientName, now);
  }
}

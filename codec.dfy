/**
 * The image capabilities the handlers call, taken as given: decoding, hashing,
 * thumbnailing and encoding belong to the `image` crate and to `DefaultHasher`.
 * Only the choice of output format from a path is spelled out.
 */
module Codec {
  import opened Wrappers
  import opened Primitives
  import Paths
  import Version

  /** A decoded image. */
  datatype Picture = Picture(width: nat, height: nat, pixels: Bytes)

  /** An output format of the image crate. */
  datatype Format = Format(name: string)

  /**
   * `load` is `image::load_from_memory`, `hash` feeds the decoded image to a fresh
   * `DefaultHasher` and finishes it, `thumbnail` is `DynamicImage::thumbnail(100, 100)`,
   * `fromExtension` is `ImageFormat::from_extension`, and `write` is `write_to` with a
   * supported output format (None when encoding fails).
   */
  datatype Codec = Codec(
    load: Bytes -> Option<Picture>,
    hash: Picture -> u64,
    thumbnail: Picture -> Picture,
    fromExtension: string -> Option<Format>,
    write: (Picture, Format) -> Option<Bytes>)

  /** `ImageFormat::from_path`: the format named by the path's extension. */
  function FormatFromPath(codec: Codec, path: string): (r: Option<Format>)
    ensures Paths.Extension(path).None? ==> r.None?
    ensures ExtensionsArePlain(codec) && Paths.Extension(path).Some? && '=' in Paths.Extension(path).value ==> r.None?
  {
    match Paths.Extension(path)
    case None => None
    case Some(ext) => codec.fromExtension(ext)
  }

  /** A plain file name `stem.ext` names the format of its extension, as the upload's `File-Name` does. */
  lemma PlainNameFormat(codec: Codec, stem: string, ext: string)
    requires stem != "" && ext != ""
    requires '/' !in stem && '/' !in ext && '.' !in ext
    ensures FormatFromPath(codec, stem + "." + ext) == codec.fromExtension(ext)
  {
    var s := stem + "." + ext;
    assert '/' !in s by {
      forall i | 0 <= i < |s| ensures s[i] != '/' {
        if i < |stem| { assert s[i] == stem[i]; }
        else if i > |stem| { assert s[i] == ext[i - |stem| - 1]; }
      }
    }
    assert Paths.FileName(s) == Some(s);
    Paths.PlainExtension(stem, ext);
  }

  /**
   * `write_to` with the output format inferred from `path`: with no known format the
   * handlers pass `ImageOutputFormat::Unsupported`, for which encoding always fails.
   */
  function WriteAs(codec: Codec, pic: Picture, path: string): (r: Option<Bytes>)
    ensures FormatFromPath(codec, path).None? ==> r.None?
  {
    match FormatFromPath(codec, path)
    case None => None
    case Some(f) => codec.write(pic, f)
  }

  /** Assumed of the crate: a recognised extension is a plain word, never holding '='. */
  ghost predicate ExtensionsArePlain(codec: Codec) {
    forall e :: codec.fromExtension(e).Some? ==> '=' !in e
  }

  /** Assumed of the crate: a thumbnail fits the 100x100 box. */
  ghost predicate ThumbnailsFit(codec: Codec) {
    forall p :: codec.thumbnail(p).width <= 100 && codec.thumbnail(p).height <= 100
  }

  /** Assumed of the crate: encoding to a known format succeeds and decodes to a picture of the same size. */
  ghost predicate EncodingKeepsSize(codec: Codec) {
    forall p, f :: codec.write(p, f).Some? &&
      codec.load(codec.write(p, f).value).Some? &&
      codec.load(codec.write(p, f).value).value.width == p.width &&
      codec.load(codec.write(p, f).value).value.height == p.height
  }

  /**
   * The extension of a stored name `<name>?v=<token>` is never a format name: either
   * there is none, or it runs through the `=` of `?v=`. So inferring the output format
   * from a stored name always yields no format.
   */
  lemma StoredNameHasNoFormat(codec: Codec, clientName: string, h: u64)
    requires ExtensionsArePlain(codec)
    ensures FormatFromPath(codec, Version.VersionedName(clientName, h)) == None
  {
    var s := Version.VersionedName(clientName, h);
    var n := |clientName|;
    Version.VersionedNameShape(clientName, h);
    Paths.ExtensionCovers(s, n, n + 2);
    match Paths.Extension(s)
    case None =>
    case Some(ext) =>
      assert '=' in ext;
      assert codec.fromExtension(ext).None?;
  }
}

# Newsroom content backend — a Dafny model

This project models the server core of a small publishing site, written in Rust on
Rocket and Diesel. The site stores articles ("posts") and images in two Postgres
tables, serves them over HTTP, and lets only allow-listed Google accounts change
them. The model covers:

- **The tables** (`server/src/schema.rs`): `posts` is keyed by `id`, `images` by
  `imagename`. They are sequences of row datatypes. The mutating handlers are
  methods of the class `Store.ContentStore`, whose fields are the two tables and
  the serial sequence behind `posts.id`. `Valid()` states that both keys are unique
  and that the sequence is ahead of every id.
- **The read-only handlers** are functions over a snapshot of the tables:
  - `posts` lists posts ordered by `(posttime desc, id desc)`, from an offset, at
    most three at a time;
  - `linked_post` looks a post up by id;
  - `get_images` lists image names, newest first.

  The ordering is a verified insertion sort, and because keys are unique the
  arrangement it produces is the only possible one.
- **The mutating handlers**:
  - `upload_post` inserts a post when its id is negative and otherwise overwrites
    the post with that id;
  - `delete_post` removes a post;
  - `upload_image` decodes the upload, derives a versioned name, encodes a
    thumbnail, inserts one row and answers the name list.

  Each contract says which rows change and which stay.
- **The versioned name**: the client's file name, then `?v=`, then the first 11
  characters of the padded base64 encoding (section 4 of RFC 4648) of the 8-byte
  little-endian image hash. Base64 is defined in full and proved to round-trip. The
  model shows the truncation drops only the padding `=`, so the token determines
  the hash.
- **Serving**: `images` and `thumbnails` look a row up by name and re-encode one of
  its columns. They answer in three ways, each with a `Cache-control: max-age=N`
  header.
- **The request guards** of `server/src/types.rs`:
  - the admin gate: `is_valid` keeps only the digits and commas of the allow-list,
    in place, then requires a verified token whose subject equals one
    comma-separated segment;
  - `Admin::from_request`, with its outcomes Success, Missing, Invalid, and a
    panic;
  - the `File-Name` header guard;
  - the two `Cache-control` responders.

Some work happens outside the model and is taken as given:
- The `image` crate (decode, thumbnail, encode) and the extension-to-format table
  are fields of the datatype `Codec.Codec`.
- `DefaultHasher` is also a field of `Codec.Codec`.
- The Google sign-in client is `Guards.Provider`.
- What the model needs of the codec is stated as explicit predicates:
  `ExtensionsArePlain`, `ThumbnailsFit` and `EncodingKeepsSize`.

Failures are modelled as follows:
- A Postgres query error is a boolean parameter.
- An `unwrap`/`expect` that fails is the outcome `Panicked`.
- The upload time is a parameter.

Some behaviour of the code differs from what a reader might expect, and the model follows the code:
- A name that matches no row is answered with `max-age=31536000`, the same
  freshness as a found image. Only a failed query gets `max-age=0`.
- One might expect the 11-character truncation to weaken the 64-bit hash.
  It does not: the 12-character encoding of 8 bytes ends in exactly one `=`, and
  that `=` is all the truncation removes (`Version.TokenShape`,
  `Version.TokenInjective`).
- A negative offset or page size in `posts` is not a precondition. Postgres
  refuses a negative OFFSET or LIMIT, so the handler answers its query-error
  message, and the model does the same.

## Model

| member | source | states |
|---|---|---|
| `Http.GetOne` | server/src/types.rs:60 | None exactly when no header has the name (ASCII case-insensitively); otherwise the value of the first header with that name |
| `Http.ReplaceHeader` | server/src/types.rs:95-97 | the new header is present; every header with its name equals it; every other header is kept; nothing else is added |
| `Decimal.Show` | server/src/types.rs:96 | the decimal form of a number is non-empty, all digits, and has no leading zero unless the number is 0 |
| `Decimal.ReadShow` | server/src/types.rs:96 | reading the decimal form back gives the number |
| `Decimal.ShowInjective` | server/src/types.rs:96 | different numbers have different decimal forms |
| `Responders.WithCacheControl` | server/src/types.rs:93-99 | the body is unchanged; the single `Cache-control` value is `max-age=` followed by the decimal freshness; other headers are kept |
| `Responders.CachedFile` | server/src/types.rs:91-99 | the file is passed through unchanged and its single `Cache-control` value is exactly `max-age=` and the decimal freshness, which reads back as the freshness |
| `Responders.CachedImage` | server/src/types.rs:101-109 | the stream is the body, the content type is binary, and the single `Cache-control` value is exactly `max-age=` and the decimal freshness, which reads back as the freshness |
| `Responders.MaxAgeRoundTrip` | server/src/types.rs:96 | parsing the emitted `max-age=` directive yields the freshness it was built with |
| `AllowList.Normalize` | server/src/types.rs:24 | the normalised list holds only digits and commas and is no longer than the original |
| `AllowList.NormalizeAppend` | server/src/types.rs:24 | normalisation works character by character: normalising a concatenation concatenates the normalised parts |
| `AllowList.NormalizeKeepsClean` | server/src/types.rs:24 | a list already made of digits and commas is unchanged |
| `AllowList.NormalizeIdempotent` | server/src/types.rs:23-24 | normalising twice is normalising once |
| `AllowList.NormalizeFrom` | server/src/types.rs:24 | every character of the normalised list occurs in the original |
| `AllowList.RetainInPlace` | server/src/types.rs:23-24 | the in-place `retain` leaves exactly the normalised list in the front of the buffer |
| `AllowList.Split` | server/src/types.rs:27 | splitting on ',' always gives at least one segment |
| `AllowList.JoinSplit` | server/src/types.rs:26-27 | the segments joined with ',' give back the list: splitting loses no character |
| `AllowList.SplitPieces` | server/src/types.rs:26-29 | no segment holds a comma, and every segment character comes from the list |
| `AllowList.ListedSubjectIsDigits` | server/src/types.rs:25-30 | a subject equal to a segment of the normalised list is all digits |
| `Guards.IsValid` | server/src/types.rs:16-45 | answers a panic when the token cannot be inspected; otherwise the subject exactly when verification against the client id succeeds and the subject is a segment of the normalised list; otherwise None |
| `Guards.AdmittedSubject` | server/src/types.rs:25-36 | on admission the returned subject is the token's own subject, verification succeeded, the subject is a segment, and it is all digits |
| `Guards.NonDigitSubjectRefused` | server/src/types.rs:25-43 | a subject with any non-digit character is refused (None) whatever the verifier says |
| `Guards.Admission` | server/src/types.rs:16-45 | a panic exactly when the token cannot be inspected; a granted subject is a segment of the normalised list and all digits |
| `Guards.AdmissionGrants` | server/src/types.rs:25-43 | an inspectable token whose subject verifies against the client id and is listed yields that subject; any other inspectable token yields None |
| `Guards.AdminGuardOutcomes` | server/src/types.rs:59-69 | Missing exactly when no `idToken` header is present; Success(Admin(sub)) exactly when `is_valid` gives sub; Invalid exactly when it gives None; a panic exactly when it panics |
| `Guards.AdminFromRequest` | server/src/types.rs:56-70 | every refusal has status BadRequest, and a granted principal names a listed, all-digit subject (the four outcomes are stated by `Guards.AdminGuardOutcomes`) |
| `Guards.AdminIsListed` | server/src/types.rs:59-69 | a granted admin principal names a digits-only subject held by the allow-list |
| `Guards.FileNameFromRequest` | server/src/types.rs:83-88 | MissingName with BadRequest exactly when no `File-Name` header is present; otherwise the value of the first `File-Name` header, verbatim |
| `Base64.CharOf` | server/src/main.rs:110 | every sextet maps to a character of the standard alphabet |
| `Base64.Encode` | server/src/main.rs:110 | the encoding of n bytes has 4 * ceil(n / 3) characters |
| `Base64.EncodeShape` | server/src/main.rs:110 | the encoding is alphabet characters followed by exactly the padding count of `=` |
| `Base64.DecodeEncode` | server/src/main.rs:110 | decoding an encoding gives back the bytes |
| `Base64.EncodeInjective` | server/src/main.rs:110 | different byte strings have different encodings |
| `Version.LittleEndian` | server/src/main.rs:110 | the little-endian form of a number has the requested byte count |
| `Version.LittleEndianRoundTrip` | server/src/main.rs:110 | reading the bytes back gives the number, when it fits |
| `Version.ToLeBytes` | server/src/main.rs:110 | `to_le_bytes` of a 64-bit hash gives 8 bytes |
| `Version.ToLeBytesInjective` | server/src/main.rs:110 | different hashes give different byte strings |
| `Version.TokenShape` | server/src/main.rs:110-111 | the token is exactly 11 alphabet characters with no `=`, does not end in '/', and is the full encoding minus its single padding `=` |
| `Version.TokenInjective` | server/src/main.rs:110-111 | different hashes give different tokens |
| `Version.Token` | server/src/main.rs:108-111 | the token has 11 characters (its alphabet, padding and injectivity are stated by `Version.TokenShape` and `Version.TokenInjective`) |
| `Version.VersionedName` | server/src/main.rs:112 | the stored name is 14 characters longer than the client name and starts with it (the rest is stated by `Version.VersionedNameShape`) |
| `Version.VersionedNameShape` | server/src/main.rs:112 | the stored name is the client name, `?v=`, and 11 alphabet characters, so it is 14 longer and has no '.' after the client name |
| `Version.VersionedNameInjective` | server/src/main.rs:108-112 | two stored names are equal exactly when their client names and hashes are equal |
| `Version.ClientNameOfVersioned` | server/src/main.rs:112 | the client name can be read back from the stored name |
| `Paths.LastPiece` | server/src/main.rs:117 | the last path piece is a suffix without '/', preceded by '/' when it is not the whole path |
| `Paths.LastDot` | server/src/main.rs:117 | the position of the last '.' in a file name, or None when it has none |
| `Paths.FileName` | server/src/main.rs:117 | `Path::file_name` is never empty, `.` or `..` and holds no '/'; a path ending in an ordinary last component has that component as its file name; a plain name without '/' is its own file name |
| `Paths.NameExtension` | server/src/main.rs:117 | the extension of a file name is None exactly when no '.' follows its first character; otherwise the text after the last '.', which holds no '.' and leaves a non-empty stem |
| `Paths.PlainExtension` | server/src/main.rs:117 | the extension of `stem.ext` is `ext` when the stem is not empty and `ext` holds no '.' |
| `Paths.Extension` | server/src/main.rs:117 | `Path::extension` is None when there is no file name; otherwise it is the extension of the file name as above |
| `Paths.ExtensionCovers` | server/src/main.rs:206 | when no '.' follows a position and the path ends in an ordinary character, any extension runs through that position |
| `Codec.FormatFromPath` | server/src/main.rs:117-121 | no extension means no format; when the format table knows only plain extensions, an extension holding `=` means no format |
| `Codec.PlainNameFormat` | server/src/main.rs:117 | a client name `stem.ext` without '/' names the format of `ext` |
| `Codec.StoredNameHasNoFormat` | server/src/main.rs:206 | no format is inferable from a stored name `<name>?v=<token>`, whatever the client name |
| `Ordering.Insert` | server/src/main.rs:65 | inserting into a descending sequence keeps it descending and adds exactly the element |
| `Ordering.Sort` | server/src/main.rs:65 | the sorted rows are in descending key order and are a permutation of the table |
| `Ordering.SortedUnique` | server/src/main.rs:65 | two descending arrangements of the same rows with distinct keys are identical |
| `Queries.Posts` | server/src/main.rs:60-71 | an Ok page exactly when the query succeeds and the offset and page size are not negative, else the error message; a page holds at most 3 posts (its contents are stated by `Queries.PostsPage`) |
| `Queries.PostsPage` | server/src/main.rs:60-71 | a query error or a negative offset or page size answers the error message; otherwise the page has min(range, 3, remaining) posts, is the contiguous run of the ordered table at the offset, is in non-increasing (posttime, id) order, and holds only stored posts |
| `Queries.PostsStrictlyDescending` | server/src/main.rs:64-68 | with unique ids, consecutive posts of a page strictly decrease in (posttime, id) |
| `Queries.PageIgnoresStorageOrder` | server/src/main.rs:64-68 | the page depends only on which posts are stored, not on the table's storage order |
| `Queries.ScrollShowsAll` | server/src/main.rs:64-68 | reading pages of three one after another from an offset shows the ordered table from that offset, with no gap and no repeat |
| `Queries.ScrollIsPermutation` | server/src/main.rs:64-68 | paging from offset 0 shows every stored post exactly as often as it is stored |
| `Queries.WithId` | server/src/main.rs:76-78 | the lookup returns exactly the rows whose id is the requested one |
| `Queries.LinkedPost` | server/src/main.rs:73-81 | an error message exactly on a query error; otherwise exactly the stored posts with that id (at most one, by `Queries.LinkedPostAtMostOne`) |
| `Queries.LinkedPostAtMostOne` | server/src/main.rs:73-81 | with `id` as primary key, the lookup returns the one post with that id, or nothing when there is none |
| `Queries.NewestFirstSpec` | server/src/main.rs:83-94 | the image listing names every stored image once and nothing else, in an order of non-increasing `postat` |
| `Queries.GetImages` | server/src/main.rs:83-94 | "Invalid request" exactly on a query error; otherwise one name per stored row (its contents and order are stated by `Queries.NewestFirstSpec`) |
| `Images.Ingest` | server/src/main.rs:104-136 | a row only for an upload that decodes and whose client name implies a format; the row keeps the upload and the upload time, and its client name reads back from its name |
| `Images.IngestedRow` | server/src/main.rs:104-136 | the inserted row keeps the raw upload as `main` and the upload time as `postat`; its name is the client name, `?v=`, and 11 alphabet characters, and the client name reads back from it |
| `Images.IngestFails` | server/src/main.rs:105-123 | when encoding never fails, an upload is refused exactly when it does not decode or the client name implies no format |
| `Images.IngestedNameIsVersion` | server/src/main.rs:108-112 | the token depends only on the decoded picture, not on the file name; tokens agree exactly when hashes do; stored names agree exactly when client names and hashes do |
| `Images.Named` | server/src/main.rs:196 | the name filter returns exactly the rows with that name |
| `Images.Reencode` | server/src/main.rs:200-214 | re-encoding panics when the stored bytes do not decode or the path names no format, and succeeds only when both hold (its use by the handlers is stated by `Images.ServedFirstMatch` and `Images.AsWrittenServingPanics`) |
| `Images.ServedAsWritten` | server/src/main.rs:190-261 | as written: a query error gives an empty body fresh for 0 seconds; no row with the name gives an empty body fresh for a year; a panic happens only when some row has the name (`Images.AsWrittenServingPanics` shows that it then always does for the stored name of an upload) |
| `Images.Served` | server/src/main.rs:190-261 | as corrected (format from the client name inside the stored name): a query error gives an empty body fresh for 0 seconds; no row with the name gives an empty body fresh for a year; a panic happens only when some row has the name |
| `Images.ServedOutcomes` | server/src/main.rs:190-226 | a query error gives an empty body fresh for 0 seconds; no row with the name gives an empty body fresh for a year |
| `Images.NamedFirst` | server/src/main.rs:196-201 | the first row of the name filter is the first row of the table, in table order, that has the name |
| `Images.ServedFirstMatch` | server/src/main.rs:196-219 | as corrected (format from the client name inside the stored name): when a row has the name, the answer re-encodes the requested column of the first such row and is fresh for a year, or is a panic when re-encoding fails |
| `Images.IngestedThumbnail` | server/src/main.rs:114-121 | the stored thumbnail of an upload re-encodes, in the format of its client name, to a picture within 100x100 |
| `Images.IngestedMain` | server/src/main.rs:104-136 | the stored upload re-encodes, in the format of its client name, to a picture of the uploaded picture's size |
| `Images.AsWrittenServingPanics` | server/src/main.rs:196-215 | as written, serving any stored upload panics, because the stored name yields no output format |
| `Images.ServedFormatIsUploadFormat` | server/src/main.rs:117 | the format taken from the client name inside a stored name is the one the upload's thumbnail was encoded in |
| `Images.UploadedThumbnailFits` | server/src/main.rs:190-226 | as corrected (format from the client name inside the stored name): once an upload is stored, `thumbnails` answers its name with an image fresh for a year that decodes to at most 100x100 |
| `Images.UploadedImageKeepsSize` | server/src/main.rs:227-261 | as corrected (format from the client name inside the stored name): once an upload is stored, `images` answers its name with an image fresh for a year that decodes to the uploaded picture's size |
| `Store.UpdateReplacesRow` | server/src/main.rs:166-177 | an update keeps ids unique, keeps every row with another id, replaces the row with the id by the new columns, and changes nothing when no row has the id |
| `Store.Overwrite` | server/src/main.rs:167-176 | the update keeps the number of rows and introduces nothing but the new row and rows with other ids (which rows change is stated by `Store.UpdateReplacesRow`) |
| `Store.Without` | server/src/main.rs:184 | a delete keeps exactly the rows whose id differs |
| `Store.DeleteRemovesRow` | server/src/main.rs:181-188 | after a delete the id finds nothing, and every other id finds what it found before |
| `Store.InsertedPostIsLinked` | server/src/main.rs:157-165 | a post inserted under a fresh id is what the lookup by that id returns |
| `Store.ReuploadClashes` | server/src/main.rs:124-138 | uploading the same picture again under the same file name derives a name that is already stored |
| `Store.ContentStore.constructor` | server/src/schema.rs:1-18 | an empty database satisfies the key invariant |
| `Store.ContentStore.UploadPost` | server/src/main.rs:149-179 | a negative id appends one post with the supplied columns under the next serial id; any other id overwrites that post; the answer is Accepted, or a panic on a query error or an exhausted 32-bit sequence, leaving the table unchanged; images untouched; the invariant is kept |
| `Store.ContentStore.DeletePost` | server/src/main.rs:181-188 | on success, removes exactly the posts with that id and answers Accepted even when none matched; on a query error, answers BadRequest and changes nothing |
| `Store.ContentStore.UploadImage` | server/src/main.rs:96-147 | appends exactly the ingested row and answers the listing, which holds the new name and is newest first; on a failed listing, answers "Invalid request" after the insert; a decode or encode failure, a failed insert or an already stored name panics with the table unchanged |
| `Store.ContentStore.Retrieve` | server/src/main.rs:190-261 | answers what the intended serving function gives for the current images table, without changing it |

## Left out

- Rocket routing and route ranks, `main`, and the static-file handlers `index` and
  `files` are not modelled, because they are plumbing and filesystem I/O. `CachedFile`
  is modelled only through the header it adds. The `cors` module is not part of this
  model.
- Postgres, Diesel and the `DbConn` pool are replaced by in-memory tables, and a
  query failure is a boolean parameter. The serial sequence does not advance on a
  failed insert, and concurrent request workers are not modelled.
- Two `postat` values may tie. Postgres may then return those rows in any order, so
  `Queries.NewestFirstSpec` fixes one order and states the listing as one of the
  permitted arrangements.
- `upload.stream_to(..).unwrap()` is not modelled as a failure: the upload is given
  as its bytes. The `SystemTime` clock is a parameter, and a clock before the epoch
  is not modelled.
- The `image` crate (decode, `thumbnail(100, 100)`, `write_to`, the extension table of
  `ImageFormat::from_extension`) and `DefaultHasher` are taken as given functions. The
  100x100 bound and size-preserving encoding are assumptions, not proofs.
- `google_signin` token inspection and verification use the network and
  cryptography, so they are taken as given functions.
- `to_lowercase` of the allow-list before `retain` is not modelled. It changes no
  digit or comma, and no Unicode lowercase mapping produces an ASCII digit or a
  comma from another character, so it cannot change the normalised list.
- The `println!` audit logging is not modelled.
- `Store.ContentStore.Retrieve` follows the corrected format choice (see Findings).
  The code as written is `Images.ServedAsWritten`.
- `Images.ServedFirstMatch` states the corrected serving (format from the client name
  inside the stored name); as written, a match always panics (`Images.AsWrittenServingPanics`).
- `Images.UploadedThumbnailFits` states the corrected `thumbnails`; as written, the
  handler panics on the stored upload instead (see Findings).
- `Images.UploadedImageKeepsSize` states the corrected `images`; as written, the
  handler panics on the stored upload instead (see Findings).
- The handlers' `Guards.Admin` parameter can be built anywhere in the model. In the
  source the field of `Admin` is private to `types.rs`, so only the guard creates one;
  the model does not link the handlers' parameter to `Guards.AdminFromRequest`, and
  `Guards.AdminIsListed` states only the guard's side.
- The `usize` of the responders is an unbounded natural number.

## Findings

| source | as written | input that shows it | evidently intended | confidence | as-written member | corrected member |
|---|---|---|---|---|---|---|
| server/src/main.rs:206 | `thumbnails` and `images` infer the output format from the stored name `<file name>?v=<token>`. Its extension is either absent or runs through the `=` of `?v=`, so no format is found, `write_to` gets an unsupported format, and `expect` panics for every stored upload (the same at main.rs:241) | an upload sent with `File-Name: cat.png` is stored as `cat.png?v=` plus 11 characters; its extension is `png?v=` plus the token | infer the format from the client's file name inside the stored name, as the upload did (main.rs:117) | not executed; holds whenever the format table knows no extension containing `=`, and assumes the handler receives the whole stored name, with the client percent-encoding `?` and any `/` of the token; an unencoded `?v=` is taken as the query string, the lookup by the bare client name misses, and the answer is an empty body fresh for a year | `Images.AsWrittenServingPanics` | `Images.UploadedThumbnailFits` |

/**
 * The two responders of types.rs, `CachedFile` and `CachedImage`: each passes its
 * inner response through and sets `Cache-control: max-age=<N>`.
 */
module Responders {
  import opened Wrappers
  import opened Primitives
  import opened Http
  import opened Decimal

  const CacheControlName: string := "Cache-control"
  const MaxAgePrefix: string := "max-age="

  datatype Response = Response(headers: seq<Header>, body: Bytes)

  function CacheControl(maxAge: nat): Header {
    Header(CacheControlName, MaxAgePrefix + Show(maxAge))
  }

  /** Reads a `max-age=<digits>` directive back into its number. */
  function ParseMaxAge(value: string): Option<nat> {
    if |value| > |MaxAgePrefix| && value[..|MaxAgePrefix|] == MaxAgePrefix && AllDigits(value[|MaxAgePrefix|..])
    then Some(Read(value[|MaxAgePrefix|..]))
    else None
  }

  lemma MaxAgeRoundTrip(maxAge: nat)
    ensures ParseMaxAge(CacheControl(maxAge).value) == Some(maxAge)
  {
    var v := CacheControl(maxAge).value;
    assert v[|MaxAgePrefix|..] == Show(maxAge);
    ReadShow(maxAge);
  }

  /** `respond_to` of both responders: the inner response with its cache directive replaced. */
  function WithCacheControl(inner: Response, maxAge: nat): (r: Response)
    ensures r.body == inner.body
    ensures GetOne(r.headers, CacheControlName) == Some(MaxAgePrefix + Show(maxAge))
    ensures forall h :: h in inner.headers && !SameName(h.name, CacheControlName) ==> h in r.headers
    ensures forall h :: h in r.headers ==> h in inner.headers || h == CacheControl(maxAge)
  {
    var headers := ReplaceHeader(inner.headers, CacheControl(maxAge));
    assert SameName(CacheControlName, CacheControlName);
    Response(headers, inner.body)
  }

  /** `CachedFile`: a static file with the given freshness. */
  function CachedFile(file: Response, maxAge: nat): (r: Response)
    ensures r.body == file.body
    ensures GetOne(r.headers, CacheControlName) == Some(MaxAgePrefix + Show(maxAge))
    ensures var v := GetOne(r.headers, CacheControlName); v.Some? && ParseMaxAge(v.value) == Some(maxAge)
  {
    MaxAgeRoundTrip(maxAge);
    WithCacheControl(file, maxAge)
  }

  /** `CachedImage`: a binary stream with the given freshness. */
  function CachedImage(body: Bytes, maxAge: nat): (r: Response)
    ensures r.body == body
    ensures Header("Content-Type", "application/octet-stream") in r.headers
    ensures GetOne(r.headers, CacheControlName) == Some(MaxAgePrefix + Show(maxAge))
    ensures var v := GetOne(r.headers, CacheControlName); v.Some? && ParseMaxAge(v.value) == Some(maxAge)
  {
    MaxAgeRoundTrip(maxAge);
    var inner := Response([Header("Content-Type", "application/octet-stream")], body);
    assert !SameName("Content-Type", CacheControlName);
    WithCacheControl(inner, maxAge)
  }
}

/**
 * The parts of Rocket the handlers and guards rely on: statuses, request-guard
 * outcomes, panics, and header maps whose names compare without regard to ASCII case.
 */
module Http {
  import opened Wrappers

  datatype Status = Accepted | BadRequest

  /** What a request guard yields (Rocket's `Outcome`, without `Forward`, which no guard here uses). */
  datatype GuardOutcome<+T, +E> = Success(value: T) | Failure(status: Status, error: E)

  /** A handler or guard either responds or panics (`unwrap`/`expect` on an error). */
  datatype Handled<+T> = Responded(value: T) | Panicked

  datatype Header = Header(name: string, value: string)

  function AsciiLower(c: char): char {
    if 'A' <= c <= 'Z' then (c as int + 32) as char else c
  }

  /** Header names are compared as Rocket's `UncasedStr` does. */
  predicate SameName(a: string, b: string) {
    |a| == |b| && forall i :: 0 <= i < |a| ==> AsciiLower(a[i]) == AsciiLower(b[i])
  }

  /** `HeaderMap::get_one`: the value of the first header carrying that name, if any. */
  function GetOne(headers: seq<Header>, name: string): (r: Option<string>)
    ensures r.None? <==> forall h :: h in headers ==> !SameName(h.name, name)
    ensures r.Some? ==>
      exists i :: 0 <= i < |headers| && SameName(headers[i].name, name) && headers[i].value == r.value &&
        forall j :: 0 <= j < i ==> !SameName(headers[j].name, name)
  {
    if headers == [] then None
    else if SameName(headers[0].name, name) then Some(headers[0].value)
    else
      var r := GetOne(headers[1..], name);
      assert forall h :: h in headers ==> h == headers[0] || h in headers[1..];
      if r.Some? then
        var i :| 0 <= i < |headers[1..]| && SameName(headers[1..][i].name, name) && headers[1..][i].value == r.value &&
          forall j :: 0 <= j < i ==> !SameName(headers[1..][j].name, name);
        assert forall j :: 0 <= j < i + 1 ==> !SameName(headers[j].name, name) by {
          forall j | 0 <= j < i + 1 ensures !SameName(headers[j].name, name) {
            if j > 0 { assert headers[j] == headers[1..][j - 1]; }
          }
        }
        r
      else r
  }

  /**
   * `ResponseBuilder::raw_header`: drops every header of that name, then adds the new one.
   */
  function ReplaceHeader(headers: seq<Header>, h: Header): (r: seq<Header>)
    ensures h in r
    ensures forall x :: x in r && SameName(x.name, h.name) ==> x == h
    ensures forall x :: x in headers && !SameName(x.name, h.name) ==> x in r
    ensures forall x :: x in r ==> x == h || x in headers
  {
    if headers == [] then [h]
    else if SameName(headers[0].name, h.name) then ReplaceHeader(headers[1..], h)
    else [headers[0]] + ReplaceHeader(headers[1..], h)
  }
}

/**
 * The admin allow-list of types.rs: a comma-separated list of subject ids, reduced
 * to its digits and commas, then split on commas.
 */
module AllowList {
  /** The characters `retain` keeps: the ten digits and the comma. */
  predicate Kept(c: char) {
    '0' <= c <= '9' || c == ','
  }

  /** The allow-list after `retain`: exactly its digits and commas, in their order. */
  function Normalize(s: string): (r: string)
    ensures |r| <= |s|
    ensures forall i :: 0 <= i < |r| ==> Kept(r[i])
    decreases |s|
  {
    if s == [] then [] else Normalize(s[..|s| - 1]) + (if Kept(s[|s| - 1]) then [s[|s| - 1]] else [])
  }

  lemma {:induction false} NormalizeAppend(a: string, b: string)
    ensures Normalize(a + b) == Normalize(a) + Normalize(b)
    decreases |b|
  {
    if b == [] {
      assert a + b == a;
    } else {
      var c := b[|b| - 1];
      var tail := if Kept(c) then [c] else [];
      assert (a + b)[..|a + b| - 1] == a + b[..|b| - 1];
      assert (a + b)[|a + b| - 1] == c;
      NormalizeAppend(a, b[..|b| - 1]);
      calc {
        Normalize(a + b);
        Normalize(a + b[..|b| - 1]) + tail;
        Normalize(a) + Normalize(b[..|b| - 1]) + tail;
        Normalize(a) + Normalize(b);
      }
    }
  }

  /** A list already made of digits and commas is left as it is; hence normalising twice changes nothing. */
  lemma {:induction false} NormalizeKeepsClean(s: string)
    requires forall i :: 0 <= i < |s| ==> Kept(s[i])
    ensures Normalize(s) == s
    decreases |s|
  {
    if s != [] {
      NormalizeKeepsClean(s[..|s| - 1]);
    }
  }

  lemma NormalizeIdempotent(s: string)
    ensures Normalize(Normalize(s)) == Normalize(s)
  {
    NormalizeKeepsClean(Normalize(s));
  }

  /** Every character the normalised list holds comes from the original list. */
  lemma {:induction false} NormalizeFrom(s: string)
    ensures forall c :: c in Normalize(s) ==> c in s
    decreases |s|
  {
    if s != [] {
      NormalizeFrom(s[..|s| - 1]);
    }
  }

  /** `String::retain` on the allow-list, in place: compacts the kept characters to the front. */
  method RetainInPlace(a: array<char>) returns (len: nat)
    modifies a
    ensures len <= a.Length && a[..len] == Normalize(old(a[..]))
  {
    ghost var s := a[..];
    len := 0;
    var i := 0;
    while i < a.Length
      invariant len <= i <= a.Length
      invariant a[..len] == Normalize(s[..i])
      invariant a[i..] == s[i..]
    {
      var c := a[i];
      assert c == s[i];
      assert s[..i + 1][..i] == s[..i];
      if Kept(c) {
        a[len] := c;
        len := len + 1;
      }
      i := i + 1;
    }
    assert s[..a.Length] == s;
  }

  /** `str::split` on one separator character: never empty; empty pieces are kept. */
  function Split(s: string, sep: char): (pieces: seq<string>)
    ensures |pieces| >= 1
    decreases |s|
  {
    if s == [] then [[]]
    else
      var rest := Split(s[1..], sep);
      if s[0] == sep then [[]] + rest else [[s[0]] + rest[0]] + rest[1..]
  }

  /** The inverse of `Split`: the pieces joined back with the separator. */
  function Join(pieces: seq<string>, sep: char): string
    requires |pieces| >= 1
    decreases |pieces|
  {
    if |pieces| == 1 then pieces[0] else pieces[0] + [sep] + Join(pieces[1..], sep)
  }

  lemma {:induction false} JoinSplit(s: string, sep: char)
    ensures Join(Split(s, sep), sep) == s
    decreases |s|
  {
    if s != [] {
      var rest := Split(s[1..], sep);
      JoinSplit(s[1..], sep);
      if s[0] == sep {
        assert Split(s, sep)[1..] == rest;
      } else {
        var ps := Split(s, sep);
        if |rest| == 1 {
          assert ps == [[s[0]] + rest[0]];
        } else {
          assert ps[1..] == rest[1..];
          assert Join(rest, sep) == rest[0] + [sep] + Join(rest[1..], sep);
        }
      }
    }
  }

  /** Pieces never hold the separator, and hold only characters of the split string. */
  lemma {:induction false} SplitPieces(s: string, sep: char)
    ensures forall p, c :: p in Split(s, sep) && c in p ==> c != sep && c in s
    decreases |s|
  {
    if s != [] {
      SplitPieces(s[1..], sep);
      var rest := Split(s[1..], sep);
      forall p, c | p in Split(s, sep) && c in p ensures c != sep && c in s {
        if s[0] != sep && p == [s[0]] + rest[0] {
          assert c == s[0] || c in rest[0];
        } else {
          assert p in rest;
        }
      }
    }
  }

  /** Admission by the list: the subject equals one comma-separated segment of the normalised list. */
  predicate Lists(admins: string, sub: string) {
    sub in Split(Normalize(admins), ',')
  }

  /** A listed subject consists of digits only; a non-empty subject with any other character is never listed. */
  lemma ListedSubjectIsDigits(admins: string, sub: string)
    requires Lists(admins, sub)
    ensures forall i :: 0 <= i < |sub| ==> '0' <= sub[i] <= '9'
  {
    SplitPieces(Normalize(admins), ',');
    forall i | 0 <= i < |sub| ensures '0' <= sub[i] <= '9' {
      assert sub[i] in sub;
      assert sub[i] in Normalize(admins);
    }
  }
}

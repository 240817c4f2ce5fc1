/** `http.Header`: values listed under canonical header names. */
module HttpHeader {
  import opened Strings

  type Header = map<string, seq<string>>

  function Upper(c: char): char {
    if 'a' <= c <= 'z' then c - 32 as char else c
  }

  function Lower(c: char): char {
    if 'A' <= c <= 'Z' then c + 32 as char else c
  }

  /** `http.CanonicalHeaderKey` on the characters of a token: each part between hyphens starts in upper case. */
  function CanonicalHeaderKey(name: string): (r: string)
    ensures |r| == |name|
  {
    seq(|name|, i requires 0 <= i < |name| => if i == 0 || name[i - 1] == '-' then Upper(name[i]) else Lower(name[i]))
  }

  /** A header is the same under its canonical name. */
  lemma GetCanonical(h: Header, name: string)
    ensures Get(h, CanonicalHeaderKey(name)) == Get(h, name)
  {
    CanonicalTwice(name);
  }

  lemma CanonicalTwice(name: string)
    ensures CanonicalHeaderKey(CanonicalHeaderKey(name)) == CanonicalHeaderKey(name)
  {
    var once := CanonicalHeaderKey(name);
    var twice := CanonicalHeaderKey(once);
    forall i | 0 <= i < |name|
      ensures twice[i] == once[i]
    {
      if i > 0 {
        assert once[i - 1] == '-' <==> name[i - 1] == '-';
      }
    }
  }

  /** `Header.Get`: the first value, or the empty string. */
  function Get(h: Header, name: string): string {
    var key := CanonicalHeaderKey(name);
    if key in h && h[key] != [] then h[key][0] else ""
  }

  function Values(h: Header, name: string): seq<string> {
    var key := CanonicalHeaderKey(name);
    if key in h then h[key] else []
  }

  function Set(h: Header, name: string, value: string): Header {
    h[CanonicalHeaderKey(name) := [value]]
  }

  /** Header names are the same whatever the case of their letters. */
  lemma GetIgnoresCase(h: Header, a: string, b: string)
    requires |a| == |b| && forall i :: 0 <= i < |a| ==> Lower(a[i]) == Lower(b[i])
    ensures Get(h, a) == Get(h, b) && Values(h, a) == Values(h, b)
  {
    assert CanonicalHeaderKey(a) == CanonicalHeaderKey(b);
  }

  function TrimAll(fields: seq<string>): seq<string> {
    seq(|fields|, i requires 0 <= i < |fields| => TrimSpace(fields[i]))
  }

  function CommaSepFields(lines: seq<string>): seq<string> {
    if lines == [] then []
    else CommaSepFields(lines[..|lines| - 1]) + TrimAll(Split(lines[|lines| - 1], ","))
  }

  /** `HeaderAllCommaSepValues`: the loop over the header's lines. */
  method HeaderAllCommaSepValues(h: Header, name: string) returns (values: seq<string>)
    ensures values == CommaSepFields(Values(h, name))
  {
    var lines := Values(h, name);
    values := [];
    for n := 0 to |lines|
      invariant values == CommaSepFields(lines[..n])
    {
      assert lines[..n + 1][..n] == lines[..n];
      values := values + TrimAll(Split(lines[n], ","));
    }
    assert lines[..|lines|] == lines;
  }

  /** `VariedHeaderAllCommaSepValues`: the names in Vary, and whether `*` is one of them. */
  function VariedHeaders(h: Header): (r: (seq<string>, bool))
    ensures r.1 <==> "*" in CommaSepFields(Values(h, "Vary"))
    ensures "*" in r.0 <==> r.1
    ensures !r.1 ==> r.0 == CommaSepFields(Values(h, "Vary"))
  {
    var names := CommaSepFields(Values(h, "Vary"));
    if "*" in names then (["*"], true) else (names, false)
  }
}

/** `url.QueryEscape` and `url.QueryUnescape`, byte by byte. */
module UrlEscape {
  import opened Strings
  import opened Wrappers

  predicate IsUnreserved(c: char) {
    'a' <= c <= 'z' || 'A' <= c <= 'Z' || '0' <= c <= '9' || c in "-_.~"
  }

  function HexDigit(n: nat): (c: char)
    requires n < 16
  {
    "0123456789ABCDEF"[n]
  }

  function HexValue(c: char): (n: Option<nat>)
    ensures n.Some? ==> n.value < 16
  {
    if '0' <= c <= '9' then Some(c as int - '0' as int)
    else if 'A' <= c <= 'F' then Some(c as int - 'A' as int + 10)
    else if 'a' <= c <= 'f' then Some(c as int - 'a' as int + 10)
    else None
  }

  function EscapeByte(c: char): string
    requires c as int < 256
  {
    if IsUnreserved(c) then [c]
    else if c == ' ' then "+"
    else ['%', HexDigit(c as int / 16), HexDigit(c as int % 16)]
  }

  function QueryEscape(s: string): (r: string)
    requires IsBytes(s)
  {
    if s == "" then "" else EscapeByte(s[0]) + QueryEscape(s[1..])
  }

  function QueryUnescape(s: string): Option<string> {
    if s == "" then Some("")
    else if s[0] == '%' then
      if |s| < 3 then None
      else
        match (HexValue(s[1]), HexValue(s[2]), QueryUnescape(s[3..]))
        case (Some(high), Some(low), Some(rest)) => Some([(16 * high + low) as char] + rest)
        case _ => None
    else
      match QueryUnescape(s[1..])
      case Some(rest) => Some([if s[0] == '+' then ' ' else s[0]] + rest)
      case None => None
  }

  /** The value Go code sees when it ignores the error of `url.QueryUnescape`. */
  function UnescapeOrEmpty(s: string): string {
    match QueryUnescape(s)
    case Some(r) => r
    case None => ""
  }

  lemma HexDigitRoundTrip(n: nat)
    requires n < 16
    ensures HexValue(HexDigit(n)) == Some(n)
    ensures HexDigit(n) in "0123456789ABCDEF"
  {
  }

  lemma {:induction false} UnescapeEscapedByte(c: char, rest: string)
    requires c as int < 256 && QueryUnescape(rest).Some?
    ensures QueryUnescape(EscapeByte(c) + rest) == Some([c] + QueryUnescape(rest).value)
  {
    var s := EscapeByte(c) + rest;
    if IsUnreserved(c) || c == ' ' {
      assert s[1..] == rest;
    } else {
      HexDigitRoundTrip(c as int / 16);
      HexDigitRoundTrip(c as int % 16);
      assert s[3..] == rest;
    }
  }

  /** Unescaping undoes escaping on every byte string. */
  lemma {:induction false} EscapeRoundTrip(s: string)
    requires IsBytes(s)
    ensures QueryUnescape(QueryEscape(s)) == Some(s)
  {
    if s != "" {
      EscapeRoundTrip(s[1..]);
      UnescapeEscapedByte(s[0], QueryEscape(s[1..]));
      assert [s[0]] + s[1..] == s;
    }
  }

  lemma EscapeInjective(a: string, b: string)
    requires IsBytes(a) && IsBytes(b) && QueryEscape(a) == QueryEscape(b)
    ensures a == b
  {
    EscapeRoundTrip(a);
    EscapeRoundTrip(b);
  }

  /** The alphabet of escaped text: it holds none of the separators the cache uses. */
  predicate IsEscapedChar(c: char) {
    IsUnreserved(c) || c == '+' || c == '%'
  }

  lemma {:induction false} EscapeAlphabet(s: string)
    requires IsBytes(s)
    ensures forall c :: c in QueryEscape(s) ==> IsEscapedChar(c)
    ensures QueryEscape(s) == "" <==> s == ""
  {
    if s != "" {
      EscapeAlphabet(s[1..]);
      EscapedByteAlphabet(s[0]);
      var head, tail := EscapeByte(s[0]), QueryEscape(s[1..]);
      assert forall c :: c in head + tail ==> c in head || c in tail;
    }
  }

  lemma EscapedByteAlphabet(c: char)
    requires c as int < 256
    ensures EscapeByte(c) != "" && forall e :: e in EscapeByte(c) ==> IsEscapedChar(e)
  {
    if !IsUnreserved(c) && c != ' ' {
      HexDigitRoundTrip(c as int / 16);
      HexDigitRoundTrip(c as int % 16);
    }
  }

  /** Escaping leaves a `%` exactly where a byte is neither unreserved nor a space. */
  lemma {:induction false} EscapePercent(s: string)
    requires IsBytes(s)
    ensures '%' in QueryEscape(s) <==> exists c :: c in s && !IsUnreserved(c) && c != ' '
    ensures '%' !in QueryEscape(s) ==> (QueryEscape(s) == s <==> ' ' !in s)
  {
    if s != "" {
      EscapePercent(s[1..]);
      EscapeAlphabet(s[1..]);
      assert s == [s[0]] + s[1..];
      assert forall c :: c in s <==> c == s[0] || c in s[1..];
      var e := QueryEscape(s);
      if IsUnreserved(s[0]) || s[0] == ' ' {
        assert e[1..] == QueryEscape(s[1..]);
        assert e == [e[0]] + e[1..];
      } else {
        assert e[0] == '%';
      }
    }
  }

  lemma {:induction false} UnescapeBytes(s: string)
    requires IsBytes(s)
    ensures IsBytes(UnescapeOrEmpty(s))
    ensures QueryUnescape(s).Some? ==> IsBytes(QueryUnescape(s).value)
  {
    if s == "" {
    } else if s[0] == '%' {
      if |s| >= 3 {
        UnescapeBytes(s[3..]);
      }
    } else {
      UnescapeBytes(s[1..]);
    }
  }
}

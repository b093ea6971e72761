/**
 * The nine request methods of section 9.1 of RFC 9110, their canonical
 * spelling, and the two case-sensitive parsers (from text and from bytes).
 */
module Method {
  import opened Wrappers
  import Utf8

  datatype HttpMethod = GET | POST | PUT | DELETE | PATCH | CONNECT | OPTIONS | TRACE | HEAD

  /** The one error both parsers return; it displays as "Invalid HTTP method". */
  datatype InvalidHttpMethod = InvalidHttpMethod {
    function Message(): string { "Invalid HTTP method" }
  }

  /** `as_str`: the method token exactly as it appears on the wire. */
  function AsStr(m: HttpMethod): (s: string)
    ensures s != [] && forall i :: 0 <= i < |s| ==> 'A' <= s[i] <= 'Z'
  {
    match m
    case GET => "GET"
    case POST => "POST"
    case PUT => "PUT"
    case DELETE => "DELETE"
    case PATCH => "PATCH"
    case CONNECT => "CONNECT"
    case OPTIONS => "OPTIONS"
    case TRACE => "TRACE"
    case HEAD => "HEAD"
  }

  /** `TryFrom<&str>`: succeeds exactly on the nine canonical spellings. */
  function TryFromStr(s: string): (r: Result<HttpMethod, InvalidHttpMethod>)
    ensures r.Ok? ==> AsStr(r.value) == s
    ensures r.Err? ==> forall m :: AsStr(m) != s
  {
    if s == "GET" then Ok(GET)
    else if s == "POST" then Ok(POST)
    else if s == "PUT" then Ok(PUT)
    else if s == "DELETE" then Ok(DELETE)
    else if s == "PATCH" then Ok(PATCH)
    else if s == "HEAD" then Ok(HEAD)
    else if s == "OPTIONS" then Ok(OPTIONS)
    else if s == "TRACE" then Ok(TRACE)
    else if s == "CONNECT" then Ok(CONNECT)
    else Err(InvalidHttpMethod)
  }

  /** The byte-string literals (`b"GET"`, ...) of the byte parser: the UTF-8 form of `AsStr(m)`. */
  function AsBytes(m: HttpMethod): seq<Utf8.byte> {
    match m
    case GET => [0x47, 0x45, 0x54]
    case POST => [0x50, 0x4F, 0x53, 0x54]
    case PUT => [0x50, 0x55, 0x54]
    case DELETE => [0x44, 0x45, 0x4C, 0x45, 0x54, 0x45]
    case PATCH => [0x50, 0x41, 0x54, 0x43, 0x48]
    case CONNECT => [0x43, 0x4F, 0x4E, 0x4E, 0x45, 0x43, 0x54]
    case OPTIONS => [0x4F, 0x50, 0x54, 0x49, 0x4F, 0x4E, 0x53]
    case TRACE => [0x54, 0x52, 0x41, 0x43, 0x45]
    case HEAD => [0x48, 0x45, 0x41, 0x44]
  }

  lemma AsBytesIsUtf8(m: HttpMethod)
    ensures AsBytes(m) == Utf8.Encode(AsStr(m))
  {
    Utf8.EncodeAsciiIs(AsStr(m), AsBytes(m));
  }

  /** `TryFrom<&[u8]>`: the same table over byte strings. */
  function TryFromBytes(b: seq<Utf8.byte>): (r: Result<HttpMethod, InvalidHttpMethod>)
    ensures r.Ok? ==> AsBytes(r.value) == b
    ensures r.Err? ==> forall m :: AsBytes(m) != b
  {
    if b == AsBytes(GET) then Ok(GET)
    else if b == AsBytes(POST) then Ok(POST)
    else if b == AsBytes(PUT) then Ok(PUT)
    else if b == AsBytes(DELETE) then Ok(DELETE)
    else if b == AsBytes(PATCH) then Ok(PATCH)
    else if b == AsBytes(HEAD) then Ok(HEAD)
    else if b == AsBytes(OPTIONS) then Ok(OPTIONS)
    else if b == AsBytes(TRACE) then Ok(TRACE)
    else if b == AsBytes(CONNECT) then Ok(CONNECT)
    else Err(InvalidHttpMethod)
  }

  /** The nine spellings are pairwise distinct. */
  lemma AsStrInjective(m: HttpMethod, n: HttpMethod)
    requires AsStr(m) == AsStr(n)
    ensures m == n
  {
  }

  /** Parsing the canonical spelling gives the method back, from text and from bytes. */
  lemma RoundTrip(m: HttpMethod)
    ensures TryFromStr(AsStr(m)) == Ok(m)
    ensures TryFromBytes(Utf8.Encode(AsStr(m))) == Ok(m)
  {
    AsStrInjective(TryFromStr(AsStr(m)).value, m);
    AsBytesIsUtf8(m);
    var r := TryFromBytes(Utf8.Encode(AsStr(m)));
    AsBytesIsUtf8(r.value);
    Utf8.EncodeInjective(AsStr(r.value), AsStr(m));
    AsStrInjective(r.value, m);
  }

  /** The byte parser agrees with the text parser on the UTF-8 form of any text. */
  lemma BytesAgreeWithStr(s: string)
    ensures TryFromBytes(Utf8.Encode(s)) == TryFromStr(s)
  {
    var r := TryFromBytes(Utf8.Encode(s));
    if r.Ok? {
      AsBytesIsUtf8(r.value);
      Utf8.EncodeInjective(AsStr(r.value), s);
      RoundTrip(r.value);
    } else if TryFromStr(s).Ok? {
      AsBytesIsUtf8(TryFromStr(s).value);
    }
  }

  /** Matching is case-sensitive: any text with a lower-case ASCII letter is rejected by both parsers. */
  lemma RejectsLowercase(s: string, i: nat)
    requires i < |s| && 'a' <= s[i] <= 'z'
    ensures TryFromStr(s).Err?
    ensures TryFromBytes(Utf8.Encode(s)).Err?
  {
    BytesAgreeWithStr(s);
  }
}

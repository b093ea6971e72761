/**
 * The request parser: locating the blank line that ends the header section
 * (section 2.1 of RFC 9112), reading the request line (section 3) and the
 * field lines (section 5) into a bounded header list, and taking the rest of
 * the buffer as the body, untouched.
 */
module Request {
  import opened Wrappers
  import Utf8
  import Str
  import Method
  import opened Header
  import opened Errors

  type byte = Utf8.byte

  /** Capacity of the header list. */
  const MAX_HEADERS: nat := 16

  datatype HttpRequest = HttpRequest(
    httpMethod: Method.HttpMethod,
    path: string,
    version: string,
    headers: seq<HttpHeader>,
    body: seq<byte>)

  const CRLF: seq<byte> := [0x0D, 0x0A]
  const DOUBLE_CRLF: seq<byte> := [0x0D, 0x0A, 0x0D, 0x0A]

  /** `data` holds CR LF CR LF at offset `i`. */
  predicate SeparatorAt(data: seq<byte>, i: nat) {
    i + 4 <= |data| && data[i] == 0x0D && data[i + 1] == 0x0A && data[i + 2] == 0x0D && data[i + 3] == 0x0A
  }

  /** The search of `find_double_crlf` from candidate offset `i` on. */
  function SearchFrom(data: seq<byte>, i: nat): (r: Option<nat>)
    ensures r.Some? ==> i <= r.value && SeparatorAt(data, r.value)
    ensures r.Some? ==> forall j :: i <= j < r.value ==> !SeparatorAt(data, j)
    ensures r.None? ==> forall j :: i <= j ==> !SeparatorAt(data, j)
    decreases |data| - i
  {
    if i + 3 >= |data| then None
    else if data[i..i + 4] == DOUBLE_CRLF then Some(i)
    else SearchFrom(data, i + 1)
  }

  /**
   * `find_double_crlf`: the offset of the first CR LF CR LF, trying offsets
   * `0 .. len - 3` (none when the data is shorter than four bytes).
   */
  function FindDoubleCrlf(data: seq<byte>): (r: Option<nat>)
    ensures r.Some? ==> SeparatorAt(data, r.value) && r.value + 4 <= |data|
    ensures r.Some? ==> forall j :: 0 <= j < r.value ==> !SeparatorAt(data, j)
    ensures r.None? <==> forall j :: 0 <= j ==> !SeparatorAt(data, j)
  {
    SearchFrom(data, 0)
  }

  /** The first separator is the one `FindDoubleCrlf` reports. */
  lemma FindDoubleCrlfIs(data: seq<byte>, k: nat)
    requires SeparatorAt(data, k)
    requires forall j :: 0 <= j < k ==> !SeparatorAt(data, j)
    ensures FindDoubleCrlf(data) == Some(k)
  {
    var r := FindDoubleCrlf(data);
    assert r.Some?;
  }

  /**
   * The header made from one field line, when the line holds a colon: its
   * name holds no colon, and neither the name nor the value starts or ends
   * with whitespace.
   */
  function HeaderOf(line: string): (h: Option<HttpHeader>)
    ensures h.Some? <==> ':' in line
    ensures h.Some? ==> ':' !in h.value.name && Str.Trimmed(h.value.name) && Str.Trimmed(h.value.value)
  {
    match Str.Find(line, ':')
    case None => None
    case Some(i) =>
      Str.TrimWithin(line[..i], ':');
      Some(HttpHeader(Str.Trim(line[..i]), Str.Trim(line[i + 1..])))
  }

  /** The header of a line whose first colon is at `k`. */
  lemma HeaderOfColon(line: string, k: nat)
    requires Str.Find(line, ':') == Some(k)
    ensures HeaderOf(line) == Some(HttpHeader(Str.Trim(line[..k]), Str.Trim(line[k + 1..])))
  {
  }

  /**
   * The headers the loop of `parse_from` collects from line `i` on: one per
   * line holding a colon, in order, up to the first empty line.
   */
  function HeaderSection(ls: seq<string>, i: nat): (hs: seq<HttpHeader>)
    requires i <= |ls|
    ensures |hs| <= |ls| - i
    decreases |ls| - i
  {
    if i == |ls| || ls[i] == "" then []
    else match HeaderOf(ls[i])
      case None => HeaderSection(ls, i + 1)
      case Some(h) => [h] + HeaderSection(ls, i + 1)
  }

  const ParseErrors: set<string> := {
    "Missing request line", "Missing method", "Missing path", "Missing version",
    "Unknown HTTP method", "Too many headers"}

  /** A header of the section: its name holds no colon and neither part has whitespace at its ends. */
  predicate Parsed(h: HttpHeader) {
    ':' !in h.name && Str.Trimmed(h.name) && Str.Trimmed(h.value)
  }

  lemma {:induction false} SectionParsed(ls: seq<string>, i: nat)
    requires i <= |ls|
    ensures forall k :: 0 <= k < |HeaderSection(ls, i)| ==> Parsed(HeaderSection(ls, i)[k])
    decreases |ls| - i
  {
    if i < |ls| && ls[i] != "" {
      SectionParsed(ls, i + 1);
    }
  }

  /** The outcome of the header loop: the header section, unless it overflows. */
  function CollectHeaders(ls: seq<string>): (r: Result<seq<HttpHeader>, Error>)
    requires |ls| >= 1
    ensures r.Ok? <==> |HeaderSection(ls, 1)| <= MAX_HEADERS
    ensures r.Ok? ==> r.value == HeaderSection(ls, 1)
    ensures r.Err? ==> r.error == InvalidResponse("Too many headers")
  {
    var hs := HeaderSection(ls, 1);
    if |hs| > MAX_HEADERS then Err(InvalidResponse("Too many headers")) else Ok(hs)
  }

  /**
   * Every header the loop yields has a colon-free name, and neither its name
   * nor its value has whitespace at either end.
   */
  lemma CollectParsed(ls: seq<string>)
    requires |ls| >= 1
    ensures CollectHeaders(ls).Ok? ==>
      forall k :: 0 <= k < |CollectHeaders(ls).value| ==> Parsed(CollectHeaders(ls).value[k])
  {
    SectionParsed(ls, 1);
  }

  /** The header section from line `i` on depends only on the lines from `i` on. */
  lemma {:induction false} SectionFrom(ls: seq<string>, i: nat)
    requires i <= |ls|
    ensures HeaderSection(ls, i) == HeaderSection(ls[i..], 0)
    decreases |ls| - i
  {
    if i < |ls| && ls[i] != "" {
      SectionFrom(ls, i + 1);
      SectionFrom(ls[i..], 1);
      assert ls[i..][1..] == ls[i + 1..];
    }
  }

  lemma {:induction false} SectionBeforeEmpty(ls: seq<string>, more: seq<string>, i: nat)
    requires i <= |ls|
    ensures HeaderSection(ls + [""] + more, i) == HeaderSection(ls, i)
    decreases |ls| - i
  {
    var xs := ls + [""] + more;
    if i == |ls| {
      assert xs[i] == "";
    } else {
      assert xs[i] == ls[i];
      SectionBeforeEmpty(ls, more, i + 1);
    }
  }

  /** The header loop stops at the first empty line: nothing after it has any effect. */
  lemma CollectStopsAtEmpty(ls: seq<string>, more: seq<string>)
    requires |ls| >= 1
    ensures CollectHeaders(ls + [""] + more) == CollectHeaders(ls)
  {
    SectionBeforeEmpty(ls, more, 1);
  }

  lemma {:induction false} SectionAroundLine(ls: seq<string>, l: string, k: nat, i: nat)
    requires i <= k <= |ls| && l != "" && ':' !in l
    ensures HeaderSection(ls[..k] + [l] + ls[k..], i) == HeaderSection(ls, i)
    decreases k - i
  {
    var xs := ls[..k] + [l] + ls[k..];
    if i == k {
      SectionAtLine(ls, l, k);
    } else {
      assert xs[i] == ls[i];
      SectionAroundLine(ls, l, k, i + 1);
    }
  }

  lemma SectionAtLine(ls: seq<string>, l: string, k: nat)
    requires k <= |ls| && l != "" && ':' !in l
    ensures HeaderSection(ls[..k] + [l] + ls[k..], k) == HeaderSection(ls, k)
  {
    var xs := ls[..k] + [l] + ls[k..];
    assert xs[k] == l;
    assert HeaderSection(xs, k) == HeaderSection(xs, k + 1);
    SectionFrom(xs, k + 1);
    SectionFrom(ls, k);
    assert xs[k + 1..] == ls[k..];
  }

  /** The header loop passes over a non-empty line without a colon: adding one changes nothing. */
  lemma CollectIgnoresNonFields(ls: seq<string>, l: string, k: nat)
    requires 1 <= k <= |ls| && l != "" && ':' !in l
    ensures CollectHeaders(ls[..k] + [l] + ls[k..]) == CollectHeaders(ls)
  {
    SectionAroundLine(ls, l, k, 1);
  }

  /** What `parse_from` returns for a header text and a body. */
  function ParseSpec(text: string, body: seq<byte>): (r: Result<HttpRequest, Error>)
    ensures r.Err? ==> r.error.message in ParseErrors
    ensures r.Ok? ==> |r.value.headers| <= MAX_HEADERS && r.value.body == body
    ensures r.Ok? ==>
      var ls := Str.Lines(text);
      var ts := if ls == [] then [] else Str.SplitWhitespace(ls[0]);
      |ts| >= 3 && Method.AsStr(r.value.httpMethod) == ts[0]
      && r.value.path == ts[1] && r.value.version == ts[2]
      && r.value.headers == HeaderSection(ls, 1)
  {
    var lines := Str.Lines(text);
    if lines == [] then Err(InvalidResponse("Missing request line"))
    else
      var parts := Str.SplitWhitespace(lines[0]);
      if |parts| == 0 then Err(InvalidResponse("Missing method"))
      else if |parts| == 1 then Err(InvalidResponse("Missing path"))
      else if |parts| == 2 then Err(InvalidResponse("Missing version"))
      else match Method.TryFromStr(parts[0])
        case Err(_) => Err(InvalidResponse("Unknown HTTP method"))
        case Ok(m) =>
          match CollectHeaders(lines)
          case Err(e) => Err(e)
          case Ok(hs) => Ok(HttpRequest(m, parts[1], parts[2], hs, body))
  }

  /** The tokens of the request line of `text`, none when there is no line. */
  function RequestTokens(text: string): seq<string> {
    var ls := Str.Lines(text);
    if ls == [] then [] else Str.SplitWhitespace(ls[0])
  }

  /**
   * Which outcome `parse_from` has: each error exactly in its own case, and
   * success exactly when the request line has at least three tokens, the
   * first names a method, and at most `MAX_HEADERS` headers precede the
   * first empty line.
   */
  lemma ParseOutcomes(text: string, body: seq<byte>)
    ensures var r, ls, ts := ParseSpec(text, body), Str.Lines(text), RequestTokens(text);
      && (r == Err(InvalidResponse("Missing request line")) <==> ls == [])
      && (r == Err(InvalidResponse("Missing method")) <==> ls != [] && |ts| == 0)
      && (r == Err(InvalidResponse("Missing path")) <==> ls != [] && |ts| == 1)
      && (r == Err(InvalidResponse("Missing version")) <==> ls != [] && |ts| == 2)
      && (r == Err(InvalidResponse("Unknown HTTP method")) <==> |ts| >= 3 && Method.TryFromStr(ts[0]).Err?)
      && (r == Err(InvalidResponse("Too many headers")) <==>
            |ts| >= 3 && Method.TryFromStr(ts[0]).Ok? && |HeaderSection(ls, 1)| > MAX_HEADERS)
      && (r.Ok? <==> |ts| >= 3 && Method.TryFromStr(ts[0]).Ok? && |HeaderSection(ls, 1)| <= MAX_HEADERS)
  {
  }

  /**
   * `HttpRequest::parse_from`: reads the request line (method, path and
   * version, separated by whitespace), then the headers.
   */
  method ParseFrom(text: string, body: seq<byte>) returns (r: Result<HttpRequest, Error>)
    ensures r == ParseSpec(text, body)
  {
    var lines := Str.Lines(text);
    if lines == [] {
      return Err(InvalidResponse("Missing request line"));
    }
    var parts := Str.SplitWhitespace(lines[0]);
    if |parts| == 0 {
      return Err(InvalidResponse("Missing method"));
    }
    if |parts| == 1 {
      return Err(InvalidResponse("Missing path"));
    }
    if |parts| == 2 {
      return Err(InvalidResponse("Missing version"));
    }
    var httpMethod := Method.TryFromStr(parts[0]);
    if httpMethod.Err? {
      return Err(InvalidResponse("Unknown HTTP method"));
    }
    var headers := ReadHeaders(lines);
    if headers.Err? {
      return Err(headers.error);
    }
    assert Method.TryFromStr(parts[0]) == Ok(httpMethod.value);
    return Ok(HttpRequest(httpMethod.value, parts[1], parts[2], headers.value, body));
  }

  /**
   * The header loop of `parse_from`: pushes one header per colon-bearing line
   * after the request line into a list of capacity `MAX_HEADERS`, stopping at
   * the first empty line and failing on the push that does not fit.
   */
  method ReadHeaders(lines: seq<string>) returns (r: Result<seq<HttpHeader>, Error>)
    requires |lines| >= 1
    ensures r == CollectHeaders(lines)
  {
    var headers: seq<HttpHeader> := [];
    var i := 1;
    while i < |lines|
      invariant 1 <= i <= |lines|
      invariant |headers| <= MAX_HEADERS
      invariant HeaderSection(lines, 1) == headers + HeaderSection(lines, i)
    {
      var line := lines[i];
      if line == "" {
        SectionEnds(lines, i, headers);
        return Ok(headers);
      }
      var header := ReadHeaderLine(line);
      if header.Some? {
        SectionTakes(lines, i, headers);
        if |headers| == MAX_HEADERS {
          CollectOverflows(lines, headers + [header.value], i + 1);
          return Err(InvalidResponse("Too many headers"));
        }
        headers := headers + [header.value];
      } else {
        SectionSkips(lines, i);
      }
      i := i + 1;
    }
    SectionEnds(lines, i, headers);
    return Ok(headers);
  }

  /** Once more than `MAX_HEADERS` headers are collected, the header loop fails. */
  lemma CollectOverflows(lines: seq<string>, headers: seq<HttpHeader>, i: nat)
    requires 1 <= i <= |lines| && |headers| > MAX_HEADERS
    requires HeaderSection(lines, 1) == headers + HeaderSection(lines, i)
    ensures CollectHeaders(lines) == Err(InvalidResponse("Too many headers"))
  {
  }

  /**
   * One line of the header loop: split at the first colon, both halves
   * trimmed; a line without a colon yields nothing.
   */
  method ReadHeaderLine(line: string) returns (h: Option<HttpHeader>)
    ensures h == HeaderOf(line)
  {
    var colon := Str.Find(line, ':');
    if colon.None? {
      return None;
    }
    HeaderOfColon(line, colon.value);
    return Some(HttpHeader(Str.Trim(line[..colon.value]), Str.Trim(line[colon.value + 1..])));
  }

  /** At the end of the lines or at an empty line, the headers collected are all of them. */
  lemma SectionEnds(lines: seq<string>, i: nat, headers: seq<HttpHeader>)
    requires 1 <= i <= |lines| && (i == |lines| || lines[i] == "")
    requires |headers| <= MAX_HEADERS
    requires HeaderSection(lines, 1) == headers + HeaderSection(lines, i)
    ensures CollectHeaders(lines) == Ok(headers)
  {
    assert headers + [] == headers;
  }

  lemma SectionSkips(lines: seq<string>, i: nat)
    requires 1 <= i < |lines| && lines[i] != "" && HeaderOf(lines[i]).None?
    ensures HeaderSection(lines, i) == HeaderSection(lines, i + 1)
  {
  }

  /** A line with a colon adds its header to those collected. */
  lemma SectionTakes(lines: seq<string>, i: nat, headers: seq<HttpHeader>)
    requires 1 <= i < |lines| && lines[i] != "" && HeaderOf(lines[i]).Some?
    requires HeaderSection(lines, 1) == headers + HeaderSection(lines, i)
    ensures HeaderSection(lines, 1) ==
      (headers + [HeaderOf(lines[i]).value]) + HeaderSection(lines, i + 1)
  {
    var h := HeaderOf(lines[i]).value;
    var later := HeaderSection(lines, i + 1);
    assert HeaderSection(lines, i) == [h] + later;
    assert headers + ([h] + later) == (headers + [h]) + later;
  }

  /**
   * `TryFrom<&[u8]>`: splits the buffer at the first CR LF CR LF, checks that
   * the part before it is UTF-8, and parses it with everything after the
   * separator as the body.
   */
  function TryFrom(buffer: seq<byte>): (r: Result<HttpRequest, Error>)
    ensures FindDoubleCrlf(buffer).None? ==> r == Err(InvalidResponse("Incomplete request headers"))
    ensures FindDoubleCrlf(buffer).Some? ==>
      var e := FindDoubleCrlf(buffer).value;
      && (!Utf8.Valid(buffer[..e]) ==> r == Err(InvalidResponse("Invalid UTF-8 in request")))
      && (Utf8.Valid(buffer[..e]) ==> r == ParseSpec(Utf8.Decode(buffer[..e]), buffer[e + 4..]))
    ensures r.Ok? ==>
      && FindDoubleCrlf(buffer).Some? && Utf8.Valid(buffer[..FindDoubleCrlf(buffer).value])
      && r.value.body == buffer[FindDoubleCrlf(buffer).value + 4..]
  {
    match FindDoubleCrlf(buffer)
    case None => Err(InvalidResponse("Incomplete request headers"))
    case Some(e) =>
      if !Utf8.Valid(buffer[..e]) then Err(InvalidResponse("Invalid UTF-8 in request"))
      else ParseSpec(Utf8.Decode(buffer[..e]), buffer[e + 4..])
  }

  /**
   * The three outcomes of `TryFrom<&[u8]>` are told apart by their messages:
   * a missing separator and a non-UTF-8 head each have their own, which the
   * parser never returns.
   */
  lemma TryFromOutcomes(buffer: seq<byte>)
    ensures TryFrom(buffer) == Err(InvalidResponse("Incomplete request headers")) <==> FindDoubleCrlf(buffer).None?
    ensures TryFrom(buffer) == Err(InvalidResponse("Invalid UTF-8 in request")) <==>
      FindDoubleCrlf(buffer).Some? && !Utf8.Valid(buffer[..FindDoubleCrlf(buffer).value])
  {
    assert "Incomplete request headers" !in ParseErrors;
    assert "Invalid UTF-8 in request" !in ParseErrors;
  }

  /** A line of bytes that can stand between CR LF pairs: not empty, no line feed. */
  predicate LineOk(l: seq<byte>) {
    l != [] && 0x0A !in l
  }

  /** Joined lines followed by a CR: the first line, then a CR. */
  lemma CrAfterFirstLine(ls: seq<seq<byte>>, tail: seq<byte>)
    requires |ls| >= 1 && |tail| >= 1 && tail[0] == 0x0D
    ensures |ls[0]| < |Str.Join(ls, CRLF) + tail|
    ensures (Str.Join(ls, CRLF) + tail)[..|ls[0]|] == ls[0]
    ensures (Str.Join(ls, CRLF) + tail)[|ls[0]|] == 0x0D
  {
    if |ls| > 1 {
      assert Str.Join(ls, CRLF) + tail == ls[0] + (CRLF + (Str.Join(ls[1..], CRLF) + tail));
    }
  }

  /**
   * No CR LF CR LF starts inside lines joined by CR LF, whatever follows them
   * as long as it starts with a CR.
   */
  lemma {:induction false} NoEarlySeparator(ls: seq<seq<byte>>, tail: seq<byte>)
    requires |ls| >= 1 && forall i :: 0 <= i < |ls| ==> LineOk(ls[i])
    requires |tail| >= 1 && tail[0] == 0x0D
    ensures forall j :: 0 <= j < |Str.Join(ls, CRLF)| ==> !SeparatorAt(Str.Join(ls, CRLF) + tail, j)
  {
    var data := Str.Join(ls, CRLF) + tail;
    var l := ls[0];
    CrAfterFirstLine(ls, tail);
    if |ls| == 1 {
      forall j | 0 <= j < |l| ensures !SeparatorAt(data, j) {
        if j + 1 < |l| {
          assert data[j + 1] == l[j + 1];
        }
      }
    } else {
      var rest := Str.Join(ls[1..], CRLF) + tail;
      assert data == l + CRLF + rest;
      NoEarlySeparator(ls[1..], tail);
      CrAfterFirstLine(ls[1..], tail);
      assert LineOk(ls[1]);
      forall j | 0 <= j < |Str.Join(ls, CRLF)| ensures !SeparatorAt(data, j) {
        if j + 1 < |l| {
          assert data[j + 1] == l[j + 1];
        } else if j + 1 == |l| {
          assert data[j + 1] == 0x0D;
        } else if j == |l| {
          assert data[j + 3] == rest[1];
          if |ls[1]| >= 2 {
            assert rest[1] == ls[1][1];
          }
        } else if j == |l| + 1 {
          assert data[j + 1] == rest[0] == ls[1][0];
        } else if j + 4 <= |data| {
          assert !SeparatorAt(rest, j - |l| - 2);
        }
      }
    }
  }

  /**
   * Framing: after non-empty lines without line feeds, joined by CR LF, the
   * first CR LF CR LF is the one that ends them, whatever the body holds.
   */
  lemma FramedAt(ls: seq<seq<byte>>, body: seq<byte>)
    requires |ls| >= 1 && forall i :: 0 <= i < |ls| ==> LineOk(ls[i])
    ensures FindDoubleCrlf(Str.Join(ls, CRLF) + DOUBLE_CRLF + body) == Some(|Str.Join(ls, CRLF)|)
  {
    var h := Str.Join(ls, CRLF);
    var data := h + DOUBLE_CRLF + body;
    assert data == h + (DOUBLE_CRLF + body);
    NoEarlySeparator(ls, DOUBLE_CRLF + body);
    assert SeparatorAt(data, |h|);
    FindDoubleCrlfIs(data, |h|);
  }

  /** The request line a well-formed request is written with. */
  function RequestLineOf(req: HttpRequest): string {
    Method.AsStr(req.httpMethod) + " " + req.path + " " + req.version
  }

  /** A header written as a field line. */
  function FieldLine(h: HttpHeader): string {
    h.name + ": " + h.value
  }

  function HeadLines(req: HttpRequest): seq<string> {
    [RequestLineOf(req)] + seq(|req.headers|, i requires 0 <= i < |req.headers| => FieldLine(req.headers[i]))
  }

  /** The head of a request: its request line and field lines, joined by CR LF. */
  function Head(req: HttpRequest): string {
    Str.Join(HeadLines(req), "\r\n")
  }

  /** A request as a client sends it: the UTF-8 head, CR LF CR LF, the body. */
  function Serialize(req: HttpRequest): seq<byte> {
    Utf8.Encode(Head(req)) + DOUBLE_CRLF + req.body
  }

  predicate Token(s: string) {
    s != [] && Str.NoWhitespace(s)
  }

  /** A header that survives being written as a field line and read back. */
  predicate FieldOk(h: HttpHeader) {
    ':' !in h.name && '\n' !in h.name && '\n' !in h.value
    && Str.Trimmed(h.name) && Str.Trimmed(h.value)
  }

  predicate WellFormed(req: HttpRequest) {
    Token(req.path) && Token(req.version)
    && forall i :: 0 <= i < |req.headers| ==> FieldOk(req.headers[i])
  }

  /** A field line is read back as the header it was written from. */
  lemma HeaderOfField(h: HttpHeader)
    requires FieldOk(h)
    ensures HeaderOf(FieldLine(h)) == Some(h)
  {
    var line := FieldLine(h);
    assert line == h.name + [':'] + (" " + h.value);
    Str.FindAfter(h.name, ':', " " + h.value);
    assert line[..|h.name|] == h.name;
    assert line[|h.name| + 1..] == [' '] + h.value;
    HeaderOfColon(line, |h.name|);
    Str.TrimOfTrimmed(h.name);
    Str.TrimSkipsLeading(' ', h.value);
    Str.TrimOfTrimmed(h.value);
  }

  lemma SuffixFrom<T>(s: seq<T>, k: nat)
    requires k < |s|
    ensures s[k..] == [s[k]] + s[k + 1..]
  {
  }

  /** The header section of the written head is the request's headers. */
  lemma {:induction false} SectionOfFields(req: HttpRequest, i: nat)
    requires WellFormed(req) && 1 <= i <= |HeadLines(req)|
    ensures HeaderSection(HeadLines(req), i) == req.headers[i - 1..]
    decreases |HeadLines(req)| - i
  {
    var ls := HeadLines(req);
    if i < |ls| {
      var h := req.headers[i - 1];
      assert ls[i] == FieldLine(h);
      HeaderOfField(h);
      assert ls[i][|h.name|] == ':';
      SectionOfFields(req, i + 1);
      SuffixFrom(req.headers, i - 1);
    }
  }

  /** The written request line splits into method, path and version. */
  lemma RequestLineTokens(req: HttpRequest)
    requires WellFormed(req)
    ensures Str.SplitWhitespace(RequestLineOf(req)) == [Method.AsStr(req.httpMethod), req.path, req.version]
  {
    var m := Method.AsStr(req.httpMethod);
    var tail := req.path + " " + req.version;
    assert Token(m);
    TwoTokens(req.path, req.version);
    Str.SplitFirstToken(m, ' ', tail);
    assert RequestLineOf(req) == m + [' '] + tail;
  }

  lemma TwoTokens(a: string, b: string)
    requires Token(a) && Token(b)
    ensures Str.SplitWhitespace(a + " " + b) == [a, b]
  {
    Str.SplitSingleToken(b);
    Str.SplitFirstToken(a, ' ', b);
  }

  /** No line of the written head is empty or holds a line feed. */
  lemma HeadLinesOk(req: HttpRequest)
    requires WellFormed(req)
    ensures forall i :: 0 <= i < |HeadLines(req)| ==> HeadLines(req)[i] != [] && '\n' !in HeadLines(req)[i]
  {
    var ls := HeadLines(req);
    forall i | 0 <= i < |ls| ensures ls[i] != [] && '\n' !in ls[i] {
      if i > 0 {
        assert FieldOk(req.headers[i - 1]);
      }
    }
  }

  /**
   * Parsing the written head of a well-formed request gives the request back,
   * unless it carries more headers than the list holds.
   */
  lemma ParseHead(req: HttpRequest)
    requires WellFormed(req)
    ensures ParseSpec(Head(req), req.body) ==
      if |req.headers| <= MAX_HEADERS then Ok(req)
      else Err(InvalidResponse("Too many headers"))
  {
    var ls := HeadLines(req);
    HeadLinesOk(req);
    Str.LinesOfJoin(ls);
    RequestLineTokens(req);
    Method.RoundTrip(req.httpMethod);
    SectionOfFields(req, 1);
    assert req.headers[0..] == req.headers;
  }

  function EncodeEach(ls: seq<string>): seq<seq<byte>> {
    seq(|ls|, i requires 0 <= i < |ls| => Utf8.Encode(ls[i]))
  }

  /** Encoding distributes over joining with CR LF. */
  lemma {:induction false} EncodeJoin(ls: seq<string>)
    ensures Utf8.Encode(Str.Join(ls, "\r\n")) == Str.Join(EncodeEach(ls), CRLF)
  {
    if |ls| > 1 {
      EncodeJoin(ls[1..]);
      Utf8.EncodeAppend(ls[0] + "\r\n", Str.Join(ls[1..], "\r\n"));
      Utf8.EncodeAppend(ls[0], "\r\n");
      assert Utf8.Encode("\r\n") == CRLF;
      assert EncodeEach(ls)[1..] == EncodeEach(ls[1..]);
    }
  }

  /**
   * Round trip through `TryFrom<&[u8]>`: a well-formed request, written out
   * and followed by any body, is read back whole, unless it carries more
   * headers than the list holds.
   */
  lemma TryFromSerialized(req: HttpRequest)
    requires WellFormed(req)
    ensures TryFrom(Serialize(req)) ==
      if |req.headers| <= MAX_HEADERS then Ok(req)
      else Err(InvalidResponse("Too many headers"))
  {
    var ls := HeadLines(req);
    var bls := EncodeEach(ls);
    HeadLinesOk(req);
    EncodeJoin(ls);
    forall i | 0 <= i < |bls| ensures LineOk(bls[i]) {
      Utf8.EncodeNoLineFeed(ls[i]);
    }
    FramedAt(bls, req.body);
    var head := Utf8.Encode(Head(req));
    Utf8.EncodeValid(Head(req));
    ParseHead(req);
    var data := Serialize(req);
    assert data[..|head|] == head;
    assert data[|head| + 4..] == req.body;
  }

  /** An empty text has no request line. */
  lemma EmptyText(body: seq<byte>)
    ensures ParseSpec("", body) == Err(InvalidResponse("Missing request line"))
  {
  }

  /**
   * A request line of two tokens is reported as a missing version, whatever
   * follows it: `GET HTTP/1.1` lacks its path, but the version is taken to
   * be the path.
   */
  lemma TwoTokenLine(a: string, b: string, rest: string, body: seq<byte>)
    requires Token(a) && Token(b) && '\n' !in a && '\n' !in b
    ensures ParseSpec(a + " " + b + "\r\n" + rest, body) == Err(InvalidResponse("Missing version"))
  {
    Str.LinesCrlf(a + " " + b, rest);
    TwoTokens(a, b);
  }
}

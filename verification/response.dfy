/**
 * The response side of the codec: the body and its views, header lookup,
 * the `Content-Length` and status-class queries, and the builder that writes
 * a response into a fixed-capacity byte list in the HTTP/1.1 message format
 * of section 2.1 of RFC 9112.
 */
module Response {
  import opened Wrappers
  import Utf8
  import Str
  import Request
  import opened Header
  import opened Errors
  import opened Status
  import opened Buffer

  type byte = Utf8.byte

  /** The largest `usize` of a 64-bit target. */
  const USIZE_MAX: nat := 0xFFFF_FFFF_FFFF_FFFF

  /** Capacity of a response's header list. */
  const MAX_HEADERS: nat := 16

  type Headers = hs: seq<HttpHeader> | |hs| <= MAX_HEADERS

  datatype ResponseBody = Text(text: string) | Binary(bytes: seq<byte>) | Empty

  datatype HttpResponse = HttpResponse(statusCode: StatusCode, headers: Headers, body: ResponseBody)

  // ---------------------------------------------------------------------
  // The body

  /** `str::len`: the length of the UTF-8 form, counted character by character. */
  function ByteLen(s: string): nat {
    if s == [] then 0 else Utf8.Width(s[0]) + ByteLen(s[1..])
  }

  lemma {:induction false} EncodeLength(s: string)
    ensures |Utf8.Encode(s)| == ByteLen(s)
  {
    if s != [] {
      EncodeLength(s[1..]);
    }
  }

  /** `ResponseBody::as_bytes`: the bytes of the body; a text body as UTF-8. */
  function AsBytes(b: ResponseBody): (r: seq<byte>)
    ensures b.Empty? ==> r == []
    ensures b.Text? ==> Utf8.Valid(r)
  {
    match b
    case Text(s) => Utf8.EncodeValid(s); Utf8.Encode(s)
    case Binary(bs) => bs
    case Empty => []
  }

  /**
   * `ResponseBody::as_str`: the body as text, present exactly when its bytes
   * are UTF-8, and then the text those bytes encode.
   */
  function AsStr(b: ResponseBody): (r: Option<string>)
    ensures r.Some? <==> Utf8.Valid(AsBytes(b))
    ensures r.Some? ==> Utf8.Encode(r.value) == AsBytes(b)
  {
    match b
    case Text(s) => Some(s)
    case Binary(bs) => if Utf8.Valid(bs) then Some(Utf8.Decode(bs)) else None
    case Empty => Some("")
  }

  /** A text body and a binary body holding its UTF-8 form read back as the same text. */
  lemma AsStrOfText(s: string)
    ensures AsStr(Text(s)) == Some(s)
    ensures AsStr(Binary(Utf8.Encode(s))) == Some(s)
    ensures AsBytes(Text(s)) == AsBytes(Binary(Utf8.Encode(s)))
  {
    Utf8.EncodeValid(s);
  }

  /** `ResponseBody::len`: the number of bytes of the body. */
  function Len(b: ResponseBody): (n: nat)
    ensures n == |AsBytes(b)|
  {
    match b
    case Text(s) => EncodeLength(s); ByteLen(s)
    case Binary(bs) => |bs|
    case Empty => 0
  }

  /** `ResponseBody::is_empty`: the body has no bytes. */
  function IsEmpty(b: ResponseBody): (r: bool)
    ensures r <==> AsBytes(b) == []
    ensures r <==> Len(b) == 0
  {
    match b
    case Text(s) => s == []
    case Binary(bs) => bs == []
    case Empty => true
  }

  // ---------------------------------------------------------------------
  // Header lookup

  /** The index of the first header from `i` on whose name matches `name`, ignoring ASCII case. */
  function FindHeader(hs: seq<HttpHeader>, name: string, i: nat): (r: Option<nat>)
    requires i <= |hs|
    ensures r.Some? ==> i <= r.value < |hs| && Str.EqIgnoreAsciiCase(hs[r.value].name, name)
    ensures r.Some? ==> forall j :: i <= j < r.value ==> !Str.EqIgnoreAsciiCase(hs[j].name, name)
    ensures r.None? ==> forall j :: i <= j < |hs| ==> !Str.EqIgnoreAsciiCase(hs[j].name, name)
    decreases |hs| - i
  {
    if i == |hs| then None
    else if Str.EqIgnoreAsciiCase(hs[i].name, name) then Some(i)
    else FindHeader(hs, name, i + 1)
  }

  /**
   * `get_header`: the value of the first header whose name matches `name`,
   * ignoring ASCII case; none when no name matches.
   */
  function GetHeader(resp: HttpResponse, name: string): (r: Option<string>)
    ensures r.None? <==> forall j :: 0 <= j < |resp.headers| ==> !Str.EqIgnoreAsciiCase(resp.headers[j].name, name)
    ensures r.Some? ==>
      exists i :: 0 <= i < |resp.headers| && Str.EqIgnoreAsciiCase(resp.headers[i].name, name)
        && resp.headers[i].value == r.value
        && forall j :: 0 <= j < i ==> !Str.EqIgnoreAsciiCase(resp.headers[j].name, name)
  {
    match FindHeader(resp.headers, name, 0)
    case None => None
    case Some(i) => Some(resp.headers[i].value)
  }

  lemma EqIgnoreAsciiCaseTrans(a: string, b: string, c: string)
    requires Str.EqIgnoreAsciiCase(a, b) && Str.EqIgnoreAsciiCase(b, c)
    ensures Str.EqIgnoreAsciiCase(a, c)
  {
  }

  /** The lookup does not depend on the case of the name asked for. */
  lemma GetHeaderIgnoresCase(resp: HttpResponse, a: string, b: string)
    requires Str.EqIgnoreAsciiCase(a, b)
    ensures GetHeader(resp, a) == GetHeader(resp, b)
  {
    var hs := resp.headers;
    forall j | 0 <= j < |hs|
      ensures Str.EqIgnoreAsciiCase(hs[j].name, a) <==> Str.EqIgnoreAsciiCase(hs[j].name, b)
    {
      if Str.EqIgnoreAsciiCase(hs[j].name, a) {
        EqIgnoreAsciiCaseTrans(hs[j].name, a, b);
      }
      if Str.EqIgnoreAsciiCase(hs[j].name, b) {
        EqIgnoreAsciiCaseTrans(hs[j].name, b, a);
      }
    }
    FindSameMatches(hs, a, b, 0);
  }

  lemma {:induction false} FindSameMatches(hs: seq<HttpHeader>, a: string, b: string, i: nat)
    requires i <= |hs|
    requires forall j :: 0 <= j < |hs| ==>
      (Str.EqIgnoreAsciiCase(hs[j].name, a) <==> Str.EqIgnoreAsciiCase(hs[j].name, b))
    ensures FindHeader(hs, a, i) == FindHeader(hs, b, i)
    decreases |hs| - i
  {
    if i < |hs| {
      FindSameMatches(hs, a, b, i + 1);
    }
  }

  /** `u8::to_ascii_lowercase`: only the bytes of `A`..`Z` change. */
  function LowerByte(b: byte): byte {
    if 0x41 <= b <= 0x5A then b + 32 else b
  }

  /** `eq_ignore_ascii_case` as Rust computes it, on the UTF-8 bytes. */
  predicate BytesEqIgnoreAsciiCase(x: seq<byte>, y: seq<byte>) {
    |x| == |y| && forall i :: 0 <= i < |x| ==> LowerByte(x[i]) == LowerByte(y[i])
  }

  /** Lower-casing keeps a byte on its side of 0x80, so it keeps the width a leading byte announces. */
  lemma LowerKeepsWidth(x: byte, y: byte)
    requires LowerByte(x) == LowerByte(y)
    ensures Utf8.LeadWidth(x) == Utf8.LeadWidth(y)
    ensures x >= 0x80 ==> x == y
  {
  }

  /** One character: comparing it ignoring ASCII case agrees with comparing its bytes. */
  lemma CharEqIgnoreAsciiCase(c: char, d: char)
    requires |Utf8.EncodeChar(c)| == |Utf8.EncodeChar(d)|
    ensures Str.ToAsciiLowercase(c) == Str.ToAsciiLowercase(d) <==>
            BytesEqIgnoreAsciiCase(Utf8.EncodeChar(c), Utf8.EncodeChar(d))
  {
    var ec, ed := Utf8.EncodeChar(c), Utf8.EncodeChar(d);
    if c as int >= 0x80 && d as int >= 0x80 {
      if BytesEqIgnoreAsciiCase(ec, ed) {
        assert ec == ed;
        Utf8.EncodeCharInjective(c, d);
      }
    }
  }

  lemma BytesEqSplit(x1: seq<byte>, x2: seq<byte>, y1: seq<byte>, y2: seq<byte>)
    requires |x1| == |y1|
    ensures BytesEqIgnoreAsciiCase(x1 + x2, y1 + y2) <==>
            BytesEqIgnoreAsciiCase(x1, y1) && BytesEqIgnoreAsciiCase(x2, y2)
  {
    var x, y := x1 + x2, y1 + y2;
    if BytesEqIgnoreAsciiCase(x, y) {
      forall i | 0 <= i < |x1| ensures LowerByte(x1[i]) == LowerByte(y1[i]) {
        assert x[i] == x1[i] && y[i] == y1[i];
      }
      forall i | 0 <= i < |x2| ensures LowerByte(x2[i]) == LowerByte(y2[i]) {
        assert x[|x1| + i] == x2[i] && y[|y1| + i] == y2[i];
      }
    }
    if BytesEqIgnoreAsciiCase(x1, y1) && BytesEqIgnoreAsciiCase(x2, y2) {
      forall i | 0 <= i < |x| ensures LowerByte(x[i]) == LowerByte(y[i]) {
        if i >= |x1| {
          assert x[i] == x2[i - |x1|] && y[i] == y2[i - |x1|];
        }
      }
    }
  }

  /**
   * Comparing characters ignoring ASCII case gives the same answer as Rust's
   * `eq_ignore_ascii_case`, which compares the UTF-8 bytes.
   */
  lemma {:induction false} EqIgnoreAsciiCaseBytes(a: string, b: string)
    ensures Str.EqIgnoreAsciiCase(a, b) <==> BytesEqIgnoreAsciiCase(Utf8.Encode(a), Utf8.Encode(b))
  {
    if a != [] && b != [] {
      var ea, eb := Utf8.EncodeChar(a[0]), Utf8.EncodeChar(b[0]);
      var x, y := Utf8.Encode(a), Utf8.Encode(b);
      assert x == ea + Utf8.Encode(a[1..]) && y == eb + Utf8.Encode(b[1..]);
      assert x[0] == ea[0] && y[0] == eb[0];
      EqIgnoreAsciiCaseBytes(a[1..], b[1..]);
      assert Str.EqIgnoreAsciiCase(a, b) <==>
        Str.ToAsciiLowercase(a[0]) == Str.ToAsciiLowercase(b[0]) && Str.EqIgnoreAsciiCase(a[1..], b[1..]);
      if |ea| == |eb| {
        CharEqIgnoreAsciiCase(a[0], b[0]);
        BytesEqSplit(ea, Utf8.Encode(a[1..]), eb, Utf8.Encode(b[1..]));
      } else {
        if BytesEqIgnoreAsciiCase(x, y) {
          LowerKeepsWidth(x[0], y[0]);
        }
      }
    } else if a != [] || b != [] {
      assert |Utf8.Encode(a)| != |Utf8.Encode(b)|;
    }
  }

  /** `content_type`: the value of the first `Content-Type` header, in any case. */
  function ContentType(resp: HttpResponse): (r: Option<string>)
    ensures r.None? <==> forall j :: 0 <= j < |resp.headers| ==> !Str.EqIgnoreAsciiCase(resp.headers[j].name, "Content-Type")
    ensures r.Some? ==>
      exists i :: 0 <= i < |resp.headers| && Str.EqIgnoreAsciiCase(resp.headers[i].name, "Content-Type")
        && resp.headers[i].value == r.value
        && forall j :: 0 <= j < i ==> !Str.EqIgnoreAsciiCase(resp.headers[j].name, "Content-Type")
  {
    GetHeader(resp, "Content-Type")
  }

  // ---------------------------------------------------------------------
  // Decimal numbers

  predicate IsDigit(b: byte) {
    0x30 <= b <= 0x39
  }

  predicate AllDigits(ds: seq<byte>) {
    forall i :: 0 <= i < |ds| ==> IsDigit(ds[i])
  }

  /** The number ASCII digits spell, most significant first. */
  function DigitsValue(ds: seq<byte>): nat
    requires AllDigits(ds)
  {
    if ds == [] then 0 else DigitsValue(ds[..|ds| - 1]) * 10 + (ds[|ds| - 1] - 0x30)
  }

  /**
   * `usize::from_str` on the bytes of a text: an optional `+`, then at least
   * one ASCII digit and nothing else, the value not above `usize::MAX`.
   */
  function ParseUsize(s: seq<byte>): (r: Option<nat>)
    ensures r.Some? ==> r.value <= USIZE_MAX
    ensures AllDigits(s) && s != [] && DigitsValue(s) <= USIZE_MAX ==> r == Some(DigitsValue(s))
    ensures AllDigits(s) && s != [] && DigitsValue(s) > USIZE_MAX ==> r.None?
    ensures s == [] ==> r.None?
  {
    var ds := if s != [] && s[0] == 0x2B then s[1..] else s;
    if ds == [] || !AllDigits(ds) then None
    else
      var v := DigitsValue(ds);
      if v > USIZE_MAX then None else Some(v)
  }

  /** `content_length`: the first `Content-Length` header's value read as a `usize`. */
  function ContentLength(resp: HttpResponse): (r: Option<nat>)
    ensures r.Some? ==> r.value <= USIZE_MAX
    ensures r.Some? ==> GetHeader(resp, "Content-Length").Some?
  {
    match GetHeader(resp, "Content-Length")
    case None => None
    case Some(v) => ParseUsize(Utf8.Encode(v))
  }

  function Pow10(k: nat): (p: nat)
    ensures p >= 1
  {
    if k == 0 then 1 else 10 * Pow10(k - 1)
  }

  lemma {:induction false} Pow10Monotone(a: nat, b: nat)
    requires a <= b
    ensures Pow10(a) <= Pow10(b)
    decreases b
  {
    if a < b {
      Pow10Monotone(a, b - 1);
    }
  }

  lemma {:induction false} Pow10Add(a: nat, b: nat)
    ensures Pow10(a + b) == Pow10(a) * Pow10(b)
  {
    if a > 0 {
      Pow10Add(a - 1, b);
    }
  }

  /** The decimal digits of `n`, without leading zeros, as ASCII bytes. */
  function Decimal(n: nat): (ds: seq<byte>)
    ensures ds != [] && AllDigits(ds)
    ensures |ds| > 1 ==> ds[0] != 0x30
  {
    if n < 10 then [0x30 + n] else Decimal(n / 10) + [0x30 + n % 10]
  }

  /** The digits spell the number back. */
  lemma {:induction false} DecimalValue(n: nat)
    ensures DigitsValue(Decimal(n)) == n
  {
    if n >= 10 {
      DecimalValue(n / 10);
      var ds := Decimal(n);
      assert ds[..|ds| - 1] == Decimal(n / 10);
    }
  }

  /** `n` has `k` digits exactly when it lies in `[10^(k-1), 10^k)` (from 0 for one digit). */
  lemma {:induction false} DecimalWidth(n: nat)
    ensures n < Pow10(|Decimal(n)|)
    ensures n >= 10 ==> Pow10(|Decimal(n)| - 1) <= n
  {
    if n >= 10 {
      DecimalWidth(n / 10);
    }
  }

  /** A number below `10^k` has at most `k` digits; one of `10^k` or more has more. */
  lemma DecimalLength(n: nat, k: nat)
    requires k >= 1
    ensures n < Pow10(k) ==> |Decimal(n)| <= k
    ensures n >= Pow10(k) ==> |Decimal(n)| > k
  {
    DecimalWidth(n);
    if |Decimal(n)| > k && n < Pow10(k) {
      Pow10Monotone(k, |Decimal(n)| - 1);
    }
    if |Decimal(n)| <= k {
      Pow10Monotone(|Decimal(n)|, k);
    }
  }

  /** A `usize` has at most twenty digits. */
  lemma UsizeDigits(n: nat)
    requires n <= USIZE_MAX
    ensures |Decimal(n)| <= DIGIT_SLOTS
  {
    Pow10Add(10, 10);
    Pow10Add(5, 5);
    assert Pow10(5) == 100_000;
    DecimalLength(n, 20);
  }

  /** Reading back a written number: `parse` undoes the decimal writer. */
  lemma ParseDecimal(n: nat)
    requires n <= USIZE_MAX
    ensures ParseUsize(Decimal(n)) == Some(n)
  {
    DecimalValue(n);
  }

  /** A `Content-Length` header holding the decimal form of `n` is read as `n`. */
  lemma ContentLengthOfDecimal(resp: HttpResponse, n: nat, v: string)
    requires n <= USIZE_MAX
    requires GetHeader(resp, "Content-Length") == Some(v) && Utf8.Encode(v) == Decimal(n)
    ensures ContentLength(resp) == Some(n)
  {
    ParseDecimal(n);
  }

  /**
   * The status classes are disjoint, and each is read off the first of the
   * three digits the status line carries.
   */
  lemma StatusClasses(s: StatusCode)
    ensures !(IsSuccess(s) && IsClientError(s)) && !(IsSuccess(s) && IsServerError(s))
      && !(IsClientError(s) && IsServerError(s))
    ensures IsSuccess(s) <==> |Decimal(s.code)| == 3 && Decimal(s.code)[0] == 0x32
    ensures IsClientError(s) <==> |Decimal(s.code)| == 3 && Decimal(s.code)[0] == 0x34
    ensures IsServerError(s) <==> |Decimal(s.code)| == 3 && Decimal(s.code)[0] == 0x35
  {
    var n := s.code;
    DecimalWidth(n);
    if |Decimal(n)| == 3 {
      assert Decimal(n) == Decimal(n / 10) + [0x30 + n % 10];
      assert Decimal(n / 10) == Decimal(n / 100) + [0x30 + n / 10 % 10];
      assert Decimal(n)[0] == 0x30 + n / 100;
    } else if |Decimal(n)| < 3 {
      Pow10Monotone(|Decimal(n)|, 2);
    } else {
      Pow10Monotone(3, |Decimal(n)| - 1);
    }
  }

  // ---------------------------------------------------------------------
  // Writing numbers and the status line

  /** Room for the digits of any `usize`. */
  const DIGIT_SLOTS: nat := 20

  /**
   * The first loop of `write_decimal_to_buffer`: the digits of `n > 0`, least
   * significant first, stored one by one into a scratch array of `slots`
   * bytes. Storing past the end is the out-of-bounds index Rust stops with a
   * panic; here it ends the loop with `ok` false.
   */
  method CollectDigits(n: nat, slots: nat) returns (digits: array<byte>, count: nat, ok: bool)
    requires n > 0
    ensures fresh(digits) && digits.Length == slots
    ensures ok <==> |Decimal(n)| <= slots
    ensures ok ==> count == |Decimal(n)|
    ensures ok ==> forall k :: 0 <= k < count ==> digits[k] == Decimal(n)[count - 1 - k]
  {
    ghost var ds := Decimal(n);
    digits := new byte[slots](_ => 0);
    var num: nat := n;
    count := 0;
    while num > 0
      invariant count <= |ds| && count <= slots
      invariant num > 0 ==> |Decimal(num)| + count == |ds| && ds[..|ds| - count] == Decimal(num)
      invariant num == 0 ==> count == |ds|
      invariant forall k :: 0 <= k < count ==> digits[k] == ds[|ds| - 1 - k]
      decreases num
    {
      if count == slots {
        return digits, count, false;
      }
      digits[count] := num % 10 + 0x30;
      if num >= 10 {
        assert ds[..|ds| - count - 1] == Decimal(num)[..|Decimal(num)| - 1];
      }
      num := num / 10;
      count := count + 1;
    }
    ok := true;
  }

  /** The second loop: pushes the stored digits back, most significant first. */
  method PushDigits(buf: ByteBuffer, digits: array<byte>, count: nat, ghost ds: seq<byte>)
    requires buf.Valid() && count == |ds| <= digits.Length
    requires forall k :: 0 <= k < count ==> digits[k] == ds[count - 1 - k]
    requires digits != buf.data
    modifies buf, buf.data
    ensures buf.Valid()
    ensures buf.Contents() == ExtendAll(Singles(ds), buf.capacity, old(buf.Contents()))
  {
    ghost var start := buf.Contents();
    var j := count;
    while j > 0
      invariant 0 <= j <= count
      invariant buf.Valid()
      invariant forall k :: 0 <= k < count ==> digits[k] == ds[count - 1 - k]
      invariant buf.Contents() == ExtendAll(Singles(ds[..count - j]), buf.capacity, start)
    {
      j := j - 1;
      var _ := buf.Push(digits[j]);
      PushNext(ds, count - j - 1, buf.capacity, start);
    }
    assert ds[..count] == ds;
  }

  /**
   * `write_decimal_to_buffer`, with a scratch array of `DIGIT_SLOTS` bytes:
   * pushes the decimal digits of `n` one by one, most significant first,
   * each push dropped once the list is full.
   */
  method WriteDecimal(buf: ByteBuffer, n: nat)
    requires buf.Valid() && n <= USIZE_MAX
    modifies buf, buf.data
    ensures buf.Valid()
    ensures buf.Contents() == ExtendAll(Singles(Decimal(n)), buf.capacity, old(buf.Contents()))
  {
    if n == 0 {
      var _ := buf.Push(0x30);
      return;
    }
    UsizeDigits(n);
    var digits, count, ok := CollectDigits(n, DIGIT_SLOTS);
    PushDigits(buf, digits, count, Decimal(n));
  }

  /**
   * `write_decimal_to_buffer` as written, with a ten-byte scratch array:
   * `panics` is the out-of-bounds store, which happens exactly for numbers
   * of more than ten digits.
   */
  method WriteDecimalTenSlots(buf: ByteBuffer, n: nat) returns (panics: bool)
    requires buf.Valid()
    modifies buf, buf.data
    ensures buf.Valid()
    ensures panics <==> |Decimal(n)| > 10
    ensures !panics ==> buf.Contents() == ExtendAll(Singles(Decimal(n)), buf.capacity, old(buf.Contents()))
  {
    if n == 0 {
      var _ := buf.Push(0x30);
      return false;
    }
    var digits, count, ok := CollectDigits(n, 10);
    if !ok {
      return true;
    }
    PushDigits(buf, digits, count, Decimal(n));
    panics := false;
  }

  /**
   * Ten slots are too few for a `usize`: `10^10` fits a 64-bit `usize` and
   * has eleven digits, so the ten-slot writer stores past its array.
   */
  lemma TenSlotsOverflow()
    ensures Pow10(10) <= USIZE_MAX && |Decimal(Pow10(10))| == 11
  {
    Pow10Add(5, 5);
    assert Pow10(5) == 100_000;
    DecimalLength(Pow10(10), 10);
    DecimalLength(Pow10(10), 11);
    Pow10Monotone(10, 11);
    assert Pow10(11) == 10 * Pow10(10);
  }

  /** The ASCII bytes of `"HTTP/1.1 "`, `" "`, `": "` and `"Content-Length: "`. */
  const HTTP_1_1: seq<byte> := [0x48, 0x54, 0x54, 0x50, 0x2F, 0x31, 0x2E, 0x31, 0x20]
  const SP: seq<byte> := [0x20]
  const COLON_SP: seq<byte> := [0x3A, 0x20]
  const CONTENT_LENGTH: seq<byte> :=
    [0x43, 0x6F, 0x6E, 0x74, 0x65, 0x6E, 0x74, 0x2D, 0x4C, 0x65, 0x6E, 0x67, 0x74, 0x68, 0x3A, 0x20]

  /** The appends `write_status_line` makes, in order; the code is pushed digit by digit. */
  function StatusPieces(s: StatusCode): seq<seq<byte>> {
    [HTTP_1_1] + Singles(Decimal(s.code)) + [SP, Utf8.Encode(s.text), Request.CRLF]
  }

  /** `write_status_line`: `HTTP/1.1 `, the code, a space, the reason phrase, CR LF. */
  method WriteStatusLine(buf: ByteBuffer, s: StatusCode)
    requires buf.Valid()
    modifies buf, buf.data
    ensures buf.Valid()
    ensures buf.Contents() == ExtendAll(StatusPieces(s), buf.capacity, old(buf.Contents()))
  {
    ghost var start := buf.Contents();
    var cap := buf.capacity;
    var _ := buf.ExtendFromSlice(HTTP_1_1);
    ghost var afterVersion := buf.Contents();
    WriteDecimal(buf, s.code);
    ghost var afterCode := buf.Contents();
    var _ := buf.Push(0x20);
    ghost var afterSpace := buf.Contents();
    var _ := buf.ExtendFromSlice(Utf8.Encode(s.text));
    ghost var afterText := buf.Contents();
    var _ := buf.ExtendFromSlice(Request.CRLF);
    ghost var digits := Singles(Decimal(s.code));
    ghost var tail := [SP, Utf8.Encode(s.text), Request.CRLF];
    assert ExtendAll([HTTP_1_1], cap, start) == afterVersion;
    ExtendAllAppend([HTTP_1_1], digits, cap, start);
    assert ExtendAll([Request.CRLF], cap, afterText) == buf.Contents();
    assert ExtendAll([Utf8.Encode(s.text), Request.CRLF], cap, afterSpace) == buf.Contents();
    assert tail[1..] == [Utf8.Encode(s.text), Request.CRLF];
    assert ExtendAll(tail, cap, afterCode) == buf.Contents();
    ExtendAllAppend([HTTP_1_1] + digits, tail, cap, start);
  }

  // ---------------------------------------------------------------------
  // Building a response

  /** The appends one header makes: its name, `: `, its value, CR LF. */
  function HeaderPieces(h: HttpHeader): seq<seq<byte>> {
    [Utf8.Encode(h.name), COLON_SP, Utf8.Encode(h.value), Request.CRLF]
  }

  /** The appends for the first `n` headers. */
  function HeadersPieces(hs: seq<HttpHeader>, n: nat): seq<seq<byte>>
    requires n <= |hs|
  {
    if n == 0 then [] else HeadersPieces(hs, n - 1) + HeaderPieces(hs[n - 1])
  }

  /** The appends of the `Content-Length` line, made only for a body with bytes. */
  function LengthPieces(body: seq<byte>): seq<seq<byte>> {
    if body == [] then [] else [CONTENT_LENGTH] + Singles(Decimal(|body|)) + [Request.CRLF]
  }

  /** Every append `build_bytes` makes, in order. */
  function Pieces(resp: HttpResponse): seq<seq<byte>> {
    var body := AsBytes(resp.body);
    StatusPieces(resp.statusCode) + HeadersPieces(resp.headers, |resp.headers|) + LengthPieces(body) + [Request.CRLF, body]
  }

  /** What `build_bytes` returns for a list of capacity `cap`: each append all or nothing. */
  function BuildSpec(resp: HttpResponse, cap: nat): seq<byte> {
    ExtendAll(Pieces(resp), cap, [])
  }

  /** The response as a message, nothing dropped. */
  function Wire(resp: HttpResponse): seq<byte> {
    Concat(Pieces(resp))
  }

  /** One header as `build_bytes` writes it: its name, `: `, its value, CR LF. */
  method WriteField(buf: ByteBuffer, h: HttpHeader)
    requires buf.Valid()
    modifies buf, buf.data
    ensures buf.Valid()
    ensures buf.Contents() == ExtendAll(HeaderPieces(h), buf.capacity, old(buf.Contents()))
  {
    ghost var start := buf.Contents();
    var _ := buf.ExtendFromSlice(Utf8.Encode(h.name));
    ghost var a1 := buf.Contents();
    var _ := buf.ExtendFromSlice(COLON_SP);
    ghost var a2 := buf.Contents();
    var _ := buf.ExtendFromSlice(Utf8.Encode(h.value));
    ghost var a3 := buf.Contents();
    var _ := buf.ExtendFromSlice(Request.CRLF);
    var ps := HeaderPieces(h);
    assert ExtendAll(ps[3..], buf.capacity, a3) == buf.Contents();
    assert ExtendAll(ps[2..], buf.capacity, a2) == buf.Contents();
    assert ExtendAll(ps[1..], buf.capacity, a1) == buf.Contents();
  }

  /** The field lines of `hs`, in order. */
  method WriteHeaders(buf: ByteBuffer, hs: seq<HttpHeader>)
    requires buf.Valid()
    modifies buf, buf.data
    ensures buf.Valid()
    ensures buf.Contents() == ExtendAll(HeadersPieces(hs, |hs|), buf.capacity, old(buf.Contents()))
  {
    ghost var start := buf.Contents();
    var i := 0;
    while i < |hs|
      invariant 0 <= i <= |hs|
      invariant buf.Valid()
      invariant buf.Contents() == ExtendAll(HeadersPieces(hs, i), buf.capacity, start)
    {
      WriteField(buf, hs[i]);
      ExtendAllAppend(HeadersPieces(hs, i), HeaderPieces(hs[i]), buf.capacity, start);
      i := i + 1;
    }
  }

  /** The `Content-Length` line for a body of `n` bytes. */
  method WriteLength(buf: ByteBuffer, body: seq<byte>)
    requires buf.Valid() && |body| <= USIZE_MAX
    modifies buf, buf.data
    ensures buf.Valid()
    ensures buf.Contents() == ExtendAll(LengthPieces(body), buf.capacity, old(buf.Contents()))
  {
    if body != [] {
      ghost var start := buf.Contents();
      var _ := buf.ExtendFromSlice(CONTENT_LENGTH);
      ghost var a1 := buf.Contents();
      WriteDecimal(buf, |body|);
      ghost var a2 := buf.Contents();
      var _ := buf.ExtendFromSlice(Request.CRLF);
      ghost var digits := Singles(Decimal(|body|));
      assert ExtendAll([CONTENT_LENGTH], buf.capacity, start) == a1;
      ExtendAllAppend([CONTENT_LENGTH], digits, buf.capacity, start);
      ExtendAllSnoc([CONTENT_LENGTH] + digits, Request.CRLF, buf.capacity, start);
    }
  }

  /**
   * `build_bytes`: the status line, one field line per header, a
   * `Content-Length` line when the body has bytes, an empty line and the
   * body, into a fresh list of capacity `cap`; appends that do not fit are
   * dropped without notice.
   */
  method BuildBytes(resp: HttpResponse, cap: nat) returns (buf: ByteBuffer)
    requires |AsBytes(resp.body)| <= USIZE_MAX
    ensures fresh(buf) && fresh(buf.data) && buf.Valid() && buf.capacity == cap
    ensures buf.Contents() == BuildSpec(resp, cap)
  {
    var body := AsBytes(resp.body);
    ghost var status := StatusPieces(resp.statusCode);
    ghost var fields := HeadersPieces(resp.headers, |resp.headers|);
    ghost var length := LengthPieces(body);
    buf := new ByteBuffer(cap);
    WriteStatusLine(buf, resp.statusCode);
    WriteHeaders(buf, resp.headers);
    ExtendAllAppend(status, fields, cap, []);
    WriteLength(buf, body);
    ExtendAllAppend(status + fields, length, cap, []);
    var _ := buf.ExtendFromSlice(Request.CRLF);
    ExtendAllSnoc(status + fields + length, Request.CRLF, cap, []);
    var _ := buf.ExtendFromSlice(body);
    ExtendAllSnoc(status + fields + length + [Request.CRLF], body, cap, []);
    assert status + fields + length + [Request.CRLF] + [body] == Pieces(resp);
  }

  // ---------------------------------------------------------------------
  // The message the builder lays out

  /** The status line without its terminator: `HTTP/1.1 `, the code, a space, the reason phrase. */
  function StatusLine(s: StatusCode): seq<byte> {
    HTTP_1_1 + Decimal(s.code) + SP + Utf8.Encode(s.text)
  }

  /** A field line without its terminator: the name, `: `, the value. */
  function FieldLine(h: HttpHeader): seq<byte> {
    Utf8.Encode(h.name) + COLON_SP + Utf8.Encode(h.value)
  }

  /** The field lines of the first `n` headers. */
  function FieldLines(hs: seq<HttpHeader>, n: nat): (ls: seq<seq<byte>>)
    requires n <= |hs|
    ensures |ls| == n && forall i :: 0 <= i < n ==> ls[i] == FieldLine(hs[i])
  {
    if n == 0 then [] else FieldLines(hs, n - 1) + [FieldLine(hs[n - 1])]
  }

  /** The `Content-Length` line, present only for a body with bytes. */
  function LengthLines(body: seq<byte>): seq<seq<byte>> {
    if body == [] then [] else [CONTENT_LENGTH + Decimal(|body|)]
  }

  /** The lines of the head, in order. */
  function HeadLines(resp: HttpResponse): seq<seq<byte>> {
    [StatusLine(resp.statusCode)] + FieldLines(resp.headers, |resp.headers|) + LengthLines(AsBytes(resp.body))
  }

  /** Each line followed by CR LF. */
  function Terminated(ls: seq<seq<byte>>): seq<byte> {
    if ls == [] then [] else ls[0] + Request.CRLF + Terminated(ls[1..])
  }

  lemma {:induction false} TerminatedAppend(a: seq<seq<byte>>, b: seq<seq<byte>>)
    ensures Terminated(a + b) == Terminated(a) + Terminated(b)
  {
    if a == [] {
      assert a + b == b;
    } else {
      assert (a + b)[0] == a[0] && (a + b)[1..] == a[1..] + b;
      TerminatedAppend(a[1..], b);
    }
  }

  /** Terminating every line is joining them with CR LF and adding one more. */
  lemma {:induction false} JoinTerminated(ls: seq<seq<byte>>)
    requires |ls| >= 1
    ensures Str.Join(ls, Request.CRLF) + Request.CRLF == Terminated(ls)
  {
    if |ls| > 1 {
      JoinTerminated(ls[1..]);
    }
  }

  lemma TerminatedOne(l: seq<byte>)
    ensures Terminated([l]) == l + Request.CRLF
  {
    assert [l][1..] == [];
  }

  lemma ConcatThree(a: seq<byte>, b: seq<byte>, c: seq<byte>)
    ensures Concat([a, b, c]) == a + b + c
  {
    assert [a, b, c][1..] == [b, c];
    assert [b, c][1..] == [c];
    ConcatOne(c);
  }

  lemma ConcatStatus(s: StatusCode)
    ensures Concat(StatusPieces(s)) == Terminated([StatusLine(s)])
  {
    var ds := Decimal(s.code);
    var text := Utf8.Encode(s.text);
    ConcatAppend([HTTP_1_1] + Singles(ds), [SP, text, Request.CRLF]);
    ConcatAppend([HTTP_1_1], Singles(ds));
    ConcatSingles(ds);
    ConcatOne(HTTP_1_1);
    ConcatThree(SP, text, Request.CRLF);
    TerminatedOne(StatusLine(s));
  }

  lemma ConcatField(h: HttpHeader)
    ensures Concat(HeaderPieces(h)) == FieldLine(h) + Request.CRLF
  {
    var ps := HeaderPieces(h);
    assert Concat(ps[3..]) == Request.CRLF;
    assert Concat(ps[2..]) == Utf8.Encode(h.value) + Request.CRLF;
  }

  lemma {:induction false} ConcatHeaders(hs: seq<HttpHeader>, n: nat)
    requires n <= |hs|
    ensures Concat(HeadersPieces(hs, n)) == Terminated(FieldLines(hs, n))
  {
    if n > 0 {
      ConcatHeaders(hs, n - 1);
      ConcatAppend(HeadersPieces(hs, n - 1), HeaderPieces(hs[n - 1]));
      ConcatField(hs[n - 1]);
      TerminatedAppend(FieldLines(hs, n - 1), [FieldLine(hs[n - 1])]);
    }
  }

  lemma ConcatLength(body: seq<byte>)
    ensures Concat(LengthPieces(body)) == Terminated(LengthLines(body))
  {
    if body != [] {
      var digits := Singles(Decimal(|body|));
      ConcatAppend([CONTENT_LENGTH] + digits, [Request.CRLF]);
      ConcatAppend([CONTENT_LENGTH], digits);
      ConcatSingles(Decimal(|body|));
      ConcatOne(CONTENT_LENGTH);
      ConcatOne(Request.CRLF);
    }
  }

  /** Laying out the status line, the field lines and the length lines, then the empty line and the body. */
  lemma {:induction false} JoinParts(status: seq<byte>, fields: seq<seq<byte>>, lengths: seq<seq<byte>>,
                                     s: seq<seq<byte>>, h: seq<seq<byte>>, l: seq<seq<byte>>, body: seq<byte>)
    requires Concat(s) == Terminated([status])
    requires Concat(h) == Terminated(fields) && Concat(l) == Terminated(lengths)
    ensures Concat(s + h + l + [Request.CRLF, body]) ==
            Str.Join([status] + fields + lengths, Request.CRLF) + Request.DOUBLE_CRLF + body
  {
    ConcatAppend(s + h + l, [Request.CRLF, body]);
    ConcatAppend(s + h, l);
    ConcatAppend(s, h);
    ConcatAppend([Request.CRLF], [body]);
    assert [Request.CRLF] + [body] == [Request.CRLF, body];
    ConcatOne(Request.CRLF);
    ConcatOne(body);
    TerminatedAppend([status] + fields, lengths);
    TerminatedAppend([status], fields);
    JoinTerminated([status] + fields + lengths);
  }

  /**
   * With nothing dropped, the builder writes an HTTP/1.1 message: the head
   * lines joined by CR LF, an empty line, then the body.
   */
  lemma WireShape(resp: HttpResponse)
    ensures Wire(resp) == Str.Join(HeadLines(resp), Request.CRLF) + Request.DOUBLE_CRLF + AsBytes(resp.body)
  {
    var body := AsBytes(resp.body);
    ConcatStatus(resp.statusCode);
    ConcatHeaders(resp.headers, |resp.headers|);
    ConcatLength(body);
    JoinParts(StatusLine(resp.statusCode), FieldLines(resp.headers, |resp.headers|), LengthLines(body),
              StatusPieces(resp.statusCode), HeadersPieces(resp.headers, |resp.headers|), LengthPieces(body), body);
  }

  // ---------------------------------------------------------------------
  // What a receiver sees

  /** No line feed in the reason phrase or in any header name or value. */
  predicate WellFormed(resp: HttpResponse) {
    '\n' !in resp.statusCode.text
    && forall i :: 0 <= i < |resp.headers| ==> '\n' !in resp.headers[i].name && '\n' !in resp.headers[i].value
  }

  lemma StatusLineOk(s: StatusCode)
    requires '\n' !in s.text
    ensures Request.LineOk(StatusLine(s))
  {
    Utf8.EncodeNoLineFeed(s.text);
  }

  lemma FieldLineOk(h: HttpHeader)
    requires '\n' !in h.name && '\n' !in h.value
    ensures Request.LineOk(FieldLine(h))
  {
    Utf8.EncodeNoLineFeed(h.name);
    Utf8.EncodeNoLineFeed(h.value);
  }

  lemma LinesOk(first: seq<byte>, more: seq<seq<byte>>, last: seq<seq<byte>>)
    requires Request.LineOk(first)
    requires forall i :: 0 <= i < |more| ==> Request.LineOk(more[i])
    requires forall i :: 0 <= i < |last| ==> Request.LineOk(last[i])
    ensures forall i :: 0 <= i < |[first] + more + last| ==> Request.LineOk(([first] + more + last)[i])
  {
  }

  /** Every head line of a well-formed response is non-empty and free of line feeds. */
  lemma HeadLinesOk(resp: HttpResponse)
    requires WellFormed(resp)
    ensures forall i :: 0 <= i < |HeadLines(resp)| ==> Request.LineOk(HeadLines(resp)[i])
  {
    var hs := resp.headers;
    var fs := FieldLines(hs, |hs|);
    StatusLineOk(resp.statusCode);
    forall i | 0 <= i < |hs| ensures Request.LineOk(fs[i]) {
      FieldLineOk(hs[i]);
    }
    LinesOk(StatusLine(resp.statusCode), fs, LengthLines(AsBytes(resp.body)));
  }

  /**
   * Framing: in the full message of a well-formed response, the first
   * CR LF CR LF is the one after the head, and what follows it is exactly
   * the body, whatever bytes the body holds.
   */
  lemma BodyFramed(resp: HttpResponse)
    requires WellFormed(resp)
    ensures var head := Str.Join(HeadLines(resp), Request.CRLF);
      Request.FindDoubleCrlf(Wire(resp)) == Some(|head|) && Wire(resp)[|head| + 4..] == AsBytes(resp.body)
  {
    var head := Str.Join(HeadLines(resp), Request.CRLF);
    WireShape(resp);
    HeadLinesOk(resp);
    Request.FramedAt(HeadLines(resp), AsBytes(resp.body));
    assert Wire(resp)[|head| + 4..] == AsBytes(resp.body);
  }

  /**
   * The `Content-Length` line: for a body with bytes, the last head line is
   * `Content-Length: ` followed by digits that read back as the body's
   * length; an empty body adds no line.
   */
  lemma AnnouncedLength(resp: HttpResponse)
    requires |AsBytes(resp.body)| <= USIZE_MAX
    ensures var body := AsBytes(resp.body); var ls := HeadLines(resp);
      body != [] ==> ls[|ls| - 1][..|CONTENT_LENGTH|] == CONTENT_LENGTH
                     && ParseUsize(ls[|ls| - 1][|CONTENT_LENGTH|..]) == Some(|body|)
    ensures AsBytes(resp.body) == [] <==> |HeadLines(resp)| == 1 + |resp.headers|
  {
    var body := AsBytes(resp.body);
    if body != [] {
      var l := CONTENT_LENGTH + Decimal(|body|);
      assert l[|CONTENT_LENGTH|..] == Decimal(|body|);
      ParseDecimal(|body|);
    }
  }

  /** When every append fits, nothing is dropped: the builder writes the whole message. */
  lemma BuildFits(resp: HttpResponse, cap: nat)
    requires |Wire(resp)| <= cap
    ensures BuildSpec(resp, cap) == Wire(resp)
  {
    ExtendAllFits(Pieces(resp), cap, []);
    assert [] + Wire(resp) == Wire(resp);
  }

  /**
   * Silent truncation as written: when the head fits but the body does not,
   * the builder returns the head alone. That head still ends with the
   * `Content-Length` line announcing the whole body, which never follows.
   */
  lemma TruncatedBody(resp: HttpResponse, cap: nat)
    requires AsBytes(resp.body) != []
    requires |Wire(resp)| - |AsBytes(resp.body)| <= cap < |Wire(resp)|
    ensures BuildSpec(resp, cap) == Str.Join(HeadLines(resp), Request.CRLF) + Request.DOUBLE_CRLF
  {
    var body := AsBytes(resp.body);
    var ps := Pieces(resp);
    var front := ps[..|ps| - 1];
    assert ps == front + [body];
    ConcatAppend(front, [body]);
    ConcatOne(body);
    ExtendAllFits(front, cap, []);
    assert [] + Concat(front) == Concat(front);
    ExtendAllSnoc(front, body, cap, []);
    WireShape(resp);
    var head := Str.Join(HeadLines(resp), Request.CRLF) + Request.DOUBLE_CRLF;
    assert Concat(front) == Wire(resp)[..|Concat(front)|] == head;
  }

  /**
   * The builder with failures propagated: each append that does not fit
   * ends the build with no result instead of being dropped.
   */
  function ExtendAllChecked(ps: seq<seq<byte>>, cap: nat, cur: seq<byte>): Option<seq<byte>> {
    if ps == [] then Some(cur)
    else if |cur| + |ps[0]| > cap then None
    else ExtendAllChecked(ps[1..], cap, cur + ps[0])
  }

  /** Propagating failures yields everything or nothing. */
  lemma {:induction false} ExtendAllCheckedWhole(ps: seq<seq<byte>>, cap: nat, cur: seq<byte>)
    requires |cur| <= cap
    ensures ExtendAllChecked(ps, cap, cur) ==
      if |cur| + |Concat(ps)| <= cap then Some(cur + Concat(ps)) else None
  {
    if ps != [] {
      assert Concat(ps) == ps[0] + Concat(ps[1..]);
      if |cur| + |ps[0]| <= cap {
        ExtendAllCheckedWhole(ps[1..], cap, cur + ps[0]);
        assert cur + ps[0] + Concat(ps[1..]) == cur + Concat(ps);
      }
    } else {
      assert cur + Concat(ps) == cur;
    }
  }

  /** `build_bytes` with every append's failure surfaced. */
  function BuildChecked(resp: HttpResponse, cap: nat): Option<seq<byte>> {
    ExtendAllChecked(Pieces(resp), cap, [])
  }

  /**
   * The checked builder never yields a cut message: it yields the whole
   * message exactly when it fits, and then agrees with the unchecked one.
   */
  lemma BuildCheckedWhole(resp: HttpResponse, cap: nat)
    ensures BuildChecked(resp, cap).Some? <==> |Wire(resp)| <= cap
    ensures BuildChecked(resp, cap).Some? ==>
      BuildChecked(resp, cap).value == Wire(resp) == BuildSpec(resp, cap)
  {
    ExtendAllCheckedWhole(Pieces(resp), cap, []);
    assert [] + Wire(resp) == Wire(resp);
    if |Wire(resp)| <= cap {
      BuildFits(resp, cap);
    }
  }
}

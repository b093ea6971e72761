# nanofish-client HTTP codec, modelled in Dafny

This project models the message codec of the `nanofish-client` crate, a
`no_std` HTTP/1.1 client and server library. The codec has three parts:

- **Methods** (`src/method.rs`). `HttpMethod` is the nine request methods.
  `as_str` gives each method's canonical spelling. Two case-sensitive parsers
  read a method back, one from text and one from bytes.
- **Requests** (`src/request.rs`). `find_double_crlf` locates the CR LF CR LF
  that ends the head. `HttpRequest::parse_from` reads the request line and up
  to `MAX_HEADERS` (16) field lines. `TryFrom<&[u8]>` splits a raw buffer into
  head and body, checks that the head is UTF-8 and parses it.
- **Responses** (`src/response.rs`). `ResponseBody` has four views: `as_str`,
  `as_bytes`, `is_empty` and `len`. The header queries are `get_header`
  (ASCII case-insensitive), `content_type` and `content_length`. The status
  classes are `is_success`, `is_client_error` and `is_server_error`. The
  builder is `build_bytes`, with its helpers `write_status_line` and
  `write_decimal_to_buffer`. It writes a response into a fixed-capacity
  `heapless::Vec<u8, N>`.

Pure code is modelled as Dafny functions and lemmas. The code that changes
state step by step is modelled as methods with loop invariants:

- the header loop of `parse_from` (`Request.ReadHeaders`);
- the two loops of `write_decimal_to_buffer`;
- the builder, which writes into a fixed-capacity buffer `Buffer.ByteBuffer`.

`Buffer.ByteBuffer` has an `array` of bytes and a length. Each method is
proved against a specification function. The builder writes a list of
pieces, and each piece is appended whole or not at all
(`Buffer.ExtendAll`). The properties the source promises are then proved
about those functions:

- round trips;
- message framing;
- the announced body length;
- the status classes;
- what gets dropped when the capacity is too small.

The Rust core library functions the codec relies on are defined in the
modules `Str` and `Utf8`:

- `Str`: `str::lines`, `split_whitespace`, `find`, `trim`,
  `char::is_whitespace` (the Unicode White_Space list) and
  `eq_ignore_ascii_case`.
- `Utf8`: UTF-8 encoding and decoding as defined in RFC 3629, and
  `core::str::from_utf8`.

Their properties are proved only as far as the codec needs them.

The code and one of its test comments disagree, and the model follows the
code. The test at `src/request.rs:158-162` labels `"GET HTTP/1.1"` as
"Missing path". `parse_from` takes the second token as the path, so the
error it actually returns is "Missing version" (`Request.TwoTokenLine`).

## Model

| member | source | states |
|---|---|---|
| Method.AsStr | src/method.rs:44-56 | every canonical spelling is a non-empty run of upper-case ASCII letters |
| Method.TryFromStr | src/method.rs:59-76 | success only on a method's exact spelling; failure only when no method is spelled that way |
| Method.TryFromBytes | src/method.rs:78-95 | success only on a method's exact byte literal; failure only when no method has those bytes |
| Method.AsBytesIsUtf8 | src/method.rs:82-92 | each byte literal of the byte parser is the UTF-8 form of the method's `as_str` |
| Method.AsStrInjective | src/method.rs:44-56 | two methods with the same spelling are the same method |
| Method.RoundTrip | src/method.rs:190-209 | parsing `as_str(m)` gives `m` back, from text and from its UTF-8 bytes |
| Method.BytesAgreeWithStr | src/method.rs:59-95 | on the UTF-8 form of any text, the byte parser returns exactly what the text parser returns |
| Method.RejectsLowercase | src/method.rs:114-132 | any text holding a lower-case ASCII letter is rejected by both parsers (matching is case-sensitive) |
| Request.FindDoubleCrlf | src/request.rs:23-26 | the result is the offset of the first CR LF CR LF and lies within the data; none exactly when no offset holds one |
| Request.FindDoubleCrlfIs | src/request.rs:23-26 | when the first separator is at `k`, the search reports `k` |
| Request.HeaderOf | src/request.rs:65-69 | a field line yields a header exactly when it holds a colon; the header's name then holds no colon, and neither name nor value has whitespace at either end |
| Request.HeaderOfColon | src/request.rs:65-69 | the header is the trimmed text before the first colon and the trimmed text after it |
| Request.CollectParsed | src/request.rs:58-74 | every header the loop yields has a colon-free name, and neither its name nor its value has whitespace at either end |
| Request.CollectStopsAtEmpty | src/request.rs:60-63 | the loop stops at the first empty line: whatever lines follow it, the outcome is the same |
| Request.CollectIgnoresNonFields | src/request.rs:65-73 | a non-empty line without a colon is passed over: inserting one anywhere after the request line changes nothing |
| Request.ReadHeaders | src/request.rs:58-74 | the loop's result is `CollectHeaders`: headers in order, stopping at the first empty line, failing on the 17th push |
| Request.SectionTakes | src/request.rs:65-72 | a line with a colon appends its header to those already collected |
| Request.SectionSkips | src/request.rs:65 | a line without a colon adds nothing |
| Request.SectionEnds | src/request.rs:60-63 | at an empty line or the end of the text, the collected headers are the result |
| Request.CollectOverflows | src/request.rs:70-72 | once more than 16 headers are collected, the outcome is "Too many headers" |
| Request.ParseSpec | src/request.rs:38-83 | every failure carries one of the parser's six messages; on success, method, path and version are the first three tokens of the first line, the headers are the header section (at most 16), and the body is passed through untouched |
| Request.ParseOutcomes | src/request.rs:39-74 | each error is returned exactly in its own case: no line; no, one or two tokens on the request line; an unknown first token; more than 16 headers. Success happens exactly when there are three tokens or more, the first names a method, and there are at most 16 headers (both directions for each) |
| Request.ParseFrom | src/request.rs:38-83 | the step-by-step parser returns exactly `ParseSpec` |
| Request.TryFrom | src/request.rs:86-102 | a buffer is accepted only when it holds a CR LF CR LF and the bytes before the first one are UTF-8; the request's body is then exactly the bytes after that first separator |
| Request.TryFromOutcomes | src/request.rs:89-102 | each of the two framing errors is returned exactly when its cause holds (both directions) |
| Request.NoEarlySeparator | src/request.rs:25 | no CR LF CR LF starts inside lines joined by CR LF when no line is empty or holds a line feed and what follows the lines starts with a CR |
| Request.FramedAt | src/request.rs:23-26 | after such lines, the first separator is the one that ends them, whatever the body holds |
| Request.HeaderOfField | src/request.rs:65-69 | a trimmed, colon-free name and a trimmed value, written as `name: value`, are read back as the same header |
| Request.SectionOfFields | src/request.rs:58-74 | the header section of a written head is the request's header list |
| Request.RequestLineTokens | src/request.rs:45-53 | a written request line splits into method, path and version |
| Request.ParseHead | src/request.rs:38-83 | parsing the written head of a well-formed request gives the request back, or "Too many headers" when it has more than 16 |
| Request.TryFromSerialized | src/request.rs:86-102 | round trip: a well-formed request followed by any body is read back whole from its bytes, or "Too many headers" |
| Request.EmptyText | src/request.rs:169-172 | an empty head fails with "Missing request line" |
| Request.TwoTokenLine | src/request.rs:157-167 | a request line of two tokens fails with "Missing version", whatever follows it |
| Response.AsBytes | src/response.rs:28-34 | an empty body has no bytes; a text body's bytes are valid UTF-8 |
| Response.AsStr | src/response.rs:18-24 | there is a text view exactly when the body's bytes are UTF-8, and its encoding is those bytes |
| Response.AsStrOfText | src/response.rs:18-34 | a text body and a binary body holding its UTF-8 form have the same bytes and the same text view |
| Response.Len | src/response.rs:48-54 | the length is the number of bytes of the body |
| Response.EncodeLength | src/response.rs:50 | `str::len` counts the bytes of the UTF-8 form |
| Response.IsEmpty | src/response.rs:38-44 | empty exactly when the body has no bytes, exactly when its length is 0 |
| Response.FindHeader | src/response.rs:74-79 | the index of the first header whose name matches ignoring ASCII case; none when none matches |
| Response.GetHeader | src/response.rs:74-79 | none exactly when no name matches; otherwise the value of the first matching header |
| Response.GetHeaderIgnoresCase | src/response.rs:74-79 | two names equal ignoring ASCII case look up the same value |
| Response.EqIgnoreAsciiCaseBytes | src/response.rs:77 | comparing names character by character ignoring ASCII case gives the same answer as Rust's comparison of their UTF-8 bytes (both directions) |
| Response.ContentType | src/response.rs:83-85 | the value of the first header named `Content-Type` in any case, none when there is none |
| Response.ParseUsize | src/response.rs:90 | a non-empty run of ASCII digits reads as its value when it fits a `usize` and fails above; empty text fails |
| Response.ContentLength | src/response.rs:89-91 | a result is a `usize` and only comes from a `Content-Length` header |
| Response.ContentLengthOfDecimal | src/response.rs:89-91 | a `Content-Length` holding the decimal form of `n` reads as `n` |
| Response.DecimalValue | src/response.rs:163-188 | the digits written for `n` spell `n` |
| Response.ParseDecimal | src/response.rs:163-188 | `parse` reads the written digits of any `usize` back as the same number |
| Response.UsizeDigits | src/response.rs:163-188 | every `usize` has at most 20 digits |
| Response.StatusClasses | src/response.rs:93-109 | the three classes are pairwise disjoint; each holds exactly when the code has three digits and the first is 2, 4 or 5 |
| Response.CollectDigits | src/response.rs:172-182 | the scratch array receives the digits least significant first; the store overflows exactly when the number has more digits than slots |
| Response.PushDigits | src/response.rs:184-187 | the stored digits are pushed most significant first, each push dropped once the buffer is full |
| Response.WriteDecimal | src/response.rs:163-188 | the buffer gains the decimal digits of `n`, most significant first, each single-byte push all or nothing |
| Response.WriteDecimalTenSlots | src/response.rs:163-188 | as written with a ten-byte array: it panics exactly when the number has more than ten digits, and otherwise writes its digits |
| Response.TenSlotsOverflow | src/response.rs:172 | `10^10` is a 64-bit `usize` with eleven digits |
| Response.WriteStatusLine | src/response.rs:145-160 | the buffer gains `HTTP/1.1 `, the code's digits, a space, the reason phrase and CR LF, each append all or nothing |
| Response.WriteField | src/response.rs:120-125 | one header is written as name, `: `, value, CR LF, each append all or nothing |
| Response.WriteHeaders | src/response.rs:119-125 | the headers' field lines are written in list order |
| Response.WriteLength | src/response.rs:127-133 | a body with bytes adds `Content-Length: `, its length in decimal and CR LF; an empty body adds nothing |
| Response.BuildBytes | src/response.rs:111-142 | a fresh buffer of the given capacity holds every append of `build_bytes` in order, each one kept whole or dropped |
| Response.WireShape | src/response.rs:111-142 | with nothing dropped, the output is the head lines joined by CR LF, an empty line, then the body |
| Response.HeadLinesOk | src/response.rs:116-133 | in a response with no line feed in its reason phrase or headers, every head line is non-empty and free of line feeds |
| Response.BodyFramed | src/response.rs:111-142 | in the full output, the first CR LF CR LF ends the head and everything after it is exactly the body |
| Response.AnnouncedLength | src/response.rs:127-133 | for a body with bytes, the last head line is `Content-Length: ` and digits that parse to the body's length; an empty body adds no line (both directions) |
| Response.BuildFits | src/response.rs:111-142 | when the whole message fits, the builder's output is the whole message |
| Response.TruncatedBody | src/response.rs:136-139 | when the head fits but the body does not, the output is the head alone, which still announces the full body length |
| Response.ExtendAllCheckedWhole | src/response.rs:111-142 | appending with failures surfaced yields all the pieces or nothing |
| Response.BuildCheckedWhole | src/response.rs:111-142 | the checked builder yields a message exactly when it fits, and then it is the whole message |
| Buffer.Extend | src/response.rs:121-124 | `extend_from_slice` appends all of the slice or nothing, never grows a list past its capacity, and appends it whole whenever it fits |
| Buffer.ExtendAllBounded | src/response.rs:111-142 | writing never outgrows the capacity and never changes bytes already written |
| Buffer.ExtendAllFits | src/response.rs:111-142 | when every piece fits, nothing is dropped |
| Buffer.PushEachPrefix | src/response.rs:184-187 | pushing digits one at a time keeps as many leading digits as there is room for, so a number can be cut short |
| Buffer.ByteBuffer.constructor | src/response.rs:114 | `Vec::new()` is empty and has the given capacity |
| Buffer.ByteBuffer.Push | src/response.rs:157 | `push` appends the byte exactly when there is room, and reports whether it did |
| Buffer.ByteBuffer.ExtendFromSlice | src/response.rs:121 | `extend_from_slice` appends the slice whole exactly when it fits, and reports whether it did |
| Str.Find | src/request.rs:65 | `find(':')` gives the first colon's index; none exactly when there is no colon |
| Str.Trim | src/request.rs:66-67 | `trim` leaves no whitespace at either end and never lengthens |
| Str.TrimIsSlice | src/request.rs:66-67 | `trim` keeps one contiguous stretch of the text and drops only whitespace before and after it |
| Str.TrimWithin | src/request.rs:66 | trimming adds no character: a name cut before the first colon holds no colon after trimming |
| Str.TrimOfTrimmed | src/request.rs:66-67 | text already trimmed is left as it is |
| Str.TrimSkipsLeading | src/request.rs:67 | leading whitespace does not change the trimmed value (the space after a colon) |
| Str.SplitWhitespace | src/request.rs:45 | every token is non-empty and free of whitespace |
| Str.SplitFirstToken | src/request.rs:45-53 | a whitespace-free token followed by whitespace is split off first |
| Str.SplitAround | src/request.rs:45 | whitespace separates: the tokens of `a`, a whitespace character and `b` are those of `a` followed by those of `b` |
| Str.Lines | src/request.rs:39 | no line holds a line feed |
| Str.LinesLf | src/request.rs:39 | a line ended by a line feed is the first line, less a carriage return just before the line feed |
| Str.LinesOfJoin | src/request.rs:39 | `lines` undoes joining with CR LF when no line holds a line feed and the last one is not empty |
| Utf8.Decode | src/request.rs:95-96 | decoding valid UTF-8 gives text whose encoding is exactly those bytes |
| Utf8.EncodeValid | src/response.rs:21 | every text encodes to valid UTF-8 that decodes back to the same text |
| Utf8.EncodeInjective | src/response.rs:30 | distinct texts have distinct encodings |
| Utf8.EncodeAppend | src/response.rs:30 | encoding distributes over concatenation |

## Left out

- I/O is not modelled: the sockets, the client and server drivers, and the
  request handler in `src/handler.rs` and `src/lib.rs`. Nothing in the core
  depends on them.
- `StatusCode` is reduced to the two things the codec reads from it, the
  number (`as_u16`) and the reason phrase (`text()`). The registry of named
  statuses is static data and is not part of this model.
- `HttpHeader::new` is the datatype constructor `Header.HttpHeader`. The
  crate's `Error` keeps only the `InvalidResponse` variant the codec builds.
- Lifetimes and borrowing are not modelled. Request and response fields are
  values, not slices that borrow from the buffer.
- `usize` is modelled as a 64-bit unsigned integer (`Response.USIZE_MAX`).
- Response.BuildBytes: requires the body length to be at most
  `usize::MAX`. A Rust slice length always satisfies this. It writes the
  length with the 20-slot `Response.WriteDecimal`, so for a body of 10^10
  bytes or more it does not panic as the source does on a 64-bit target
  (see Findings).
- Response.WriteDecimal: requires `n <= usize::MAX`, which the `usize`
  parameter guarantees. It uses a 20-byte scratch array, the corrected form
  (see Findings).
- Response.WriteDecimalTenSlots: the out-of-bounds panic is modelled as
  the returned `panics` flag, and the buffer's state after a panic is left
  unspecified.
- `str::parse::<usize>` is modelled only as the crate calls it, on ASCII
  digits with an optional leading `+`. Rust's `ParseIntError` kinds collapse
  into `None`.
- `trim`, `find` and `split_whitespace` are modelled on Unicode scalar values
  rather than UTF-8 bytes. For these functions the two agree, since Rust's
  `str` is always valid UTF-8.

## Findings

| source | as written | input that shows it | evidently intended | confidence | as-written member | corrected member |
|---|---|---|---|---|---|---|
| src/response.rs:172 | the digit scratch array of `write_decimal_to_buffer` has 10 slots, but a 64-bit `usize` can have 20 digits | `n = 10_000_000_000` (11 digits), e.g. a body of 10^10 bytes: `digits[10]` is out of bounds and the function panics | room for every digit of a `usize`, i.e. 20 slots | not executed | Response.WriteDecimalTenSlots, Response.TenSlotsOverflow | Response.WriteDecimal |
| src/response.rs:111-142 | every append's failure is discarded (`let _ =`), so a response that does not fit is cut short without notice | status 200 "OK", no headers, text body "hello", capacity 40: the 38-byte head announcing `Content-Length: 5` is returned, with no body after it | an output that is either the whole message or a reported failure | not executed | Response.TruncatedBody | Response.BuildCheckedWhole |

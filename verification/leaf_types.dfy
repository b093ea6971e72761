/** `HttpHeader`: a field line's name and value, borrowed text. */
module Header {
  datatype HttpHeader = HttpHeader(name: string, value: string)
}

/** The crate's error type; the codec only ever builds `InvalidResponse` with a fixed message. */
module Errors {
  datatype Error = InvalidResponse(message: string)
}

/**
 * `StatusCode`: its registry is static lookup data, so a status is modelled by
 * what the codec reads from it: the number (`as_u16`) and the reason phrase
 * (`text()`).
 */
module Status {
  type Code = n: nat | n < 0x1_0000

  datatype StatusCode = StatusCode(code: Code, text: string)

  /** `is_success`: the 2xx class of section 15 of RFC 9110. */
  predicate IsSuccess(s: StatusCode) {
    200 <= s.code <= 299
  }

  /** `is_client_error`: the 4xx class. */
  predicate IsClientError(s: StatusCode) {
    400 <= s.code <= 499
  }

  /** `is_server_error`: the 5xx class. */
  predicate IsServerError(s: StatusCode) {
    500 <= s.code <= 599
  }
}

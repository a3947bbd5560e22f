/**
 * The status-code table of cws/cws_response_code.c: a sparse array of
 * reason phrases indexed by the numeric code, one entry per enumerator of
 * `cws_response_code_t` (the status codes of section 15 of RFC 9110, with
 * the phrases spelled as this server spells them).
 */
module ResponseCode {
  import opened Strings

  /** The enumerators of `cws_response_code_t`. */
  predicate IsCode(c: int) {
    c == 100 || c == 101 || c == 102 || c == 103 || c == 200 || c == 201 || c ==
    202 || c == 203 || c == 204 || c == 205 || c == 206 || c == 207 || c == 208
    || c == 226 || c == 300 || c == 301 || c == 302 || c == 303 || c == 304 || c
    == 305 || c == 306 || c == 307 || c == 308 || c == 400 || c == 401 || c ==
    402 || c == 403 || c == 404 || c == 405 || c == 406 || c == 407 || c == 408
    || c == 409 || c == 410 || c == 411 || c == 412 || c == 413 || c == 414 || c
    == 415 || c == 416 || c == 417 || c == 418 || c == 421 || c == 422 || c ==
    423 || c == 424 || c == 425 || c == 426 || c == 428 || c == 429 || c == 431
    || c == 451 || c == 500 || c == 501 || c == 502 || c == 503 || c == 504 || c
    == 505 || c == 506 || c == 507 || c == 508 || c == 510 || c == 511
  }

  /** The designated initializers of `cws_response_code_str`: the phrase at
      each index, NULL in the gaps. */
  function Phrase(code: int): (r: Option<string>)
    ensures r.Some? ==> IsCode(code) && |r.value| > 0
  {
    match code
    case 100 => Some("Continue")
    case 101 => Some("Switching Protocols")
    case 102 => Some("Processing")
    case 103 => Some("Early Hints")
    case 200 => Some("OK")
    case 201 => Some("Created")
    case 202 => Some("Accepted")
    case 203 => Some("Non Authoritative Information")
    case 204 => Some("No Content")
    case 205 => Some("Reset Content")
    case 206 => Some("Partial Content")
    case 207 => Some("Multi Status")
    case 208 => Some("Already Reported")
    case 226 => Some("Im Used")
    case 300 => Some("Multiple Choices")
    case 301 => Some("Moved Permanently")
    case 302 => Some("Found")
    case 303 => Some("See Other")
    case 304 => Some("Not Modified")
    case 305 => Some("User Proxy")
    case 306 => Some("Switch Proxy")
    case 307 => Some("Temporary Redirect")
    case 308 => Some("Permanent Redirect")
    case 400 => Some("Bad Request")
    case 401 => Some("Unauthorized")
    case 402 => Some("Payment Required")
    case 403 => Some("Forbidden")
    case 404 => Some("Not Found")
    case 405 => Some("Method Not Allowed")
    case 406 => Some("Not Acceptable")
    case 407 => Some("Proxy Authentication Required")
    case 408 => Some("Request Timeout")
    case 409 => Some("Conflict")
    case 410 => Some("Gone")
    case 411 => Some("Length Required")
    case 412 => Some("Precondition Failed")
    case 413 => Some("Payload Too Large")
    case 414 => Some("Uri Too Long")
    case 415 => Some("Unsupported Media Type")
    case 416 => Some("Range Not Satisfyable")
    case 417 => Some("Expectation Failed")
    case 418 => Some("Im A Teapot")
    case 421 => Some("Misdirected Request")
    case 422 => Some("Unprocessable Entity")
    case 423 => Some("Locked")
    case 424 => Some("Failed Dependency")
    case 425 => Some("Too Early")
    case 426 => Some("Upgrade Required")
    case 428 => Some("Precondition Required")
    case 429 => Some("Too Many Requests")
    case 431 => Some("Request Header Fields Too Large")
    case 451 => Some("Unavailable For Legal Reasons")
    case 500 => Some("Internal Server Error")
    case 501 => Some("Not Implemented")
    case 502 => Some("Bad Gateway")
    case 503 => Some("Service Unavailable")
    case 504 => Some("Gateway Timeout")
    case 505 => Some("Http Version Not Supported")
    case 506 => Some("Variant Also Negotiates")
    case 507 => Some("Insufficient Storage")
    case 508 => Some("Loop Detected")
    case 510 => Some("Not Extended")
    case 511 => Some("Network Authentication Required")
    case _ => None
  }

  /** `sizeof(cws_response_code_str) / sizeof(char *)`: one past the largest
      designated index. */
  const TableLen: int := 512

  /** `cws_response_code_stringify(code)`: the phrase, or NULL outside the
      table or in one of its gaps. */
  function Stringify(code: int): (r: Option<string>)
    ensures r.Some? <==> IsCode(code)
    ensures r.Some? ==> |r.value| > 0
    ensures code < 0 || code >= TableLen ==> r.None?
  {
    if code < 0 || code >= TableLen then None
    else
      PhraseDefined(code);
      Phrase(code)
  }

  /** Every code of the enumeration has a phrase. */
  lemma PhraseDefined(code: int)
    ensures IsCode(code) ==> Phrase(code).Some?
  {
  }

  /** The table's length is one past the largest enumerator. */
  lemma TableLength()
    ensures forall c :: IsCode(c) ==> 0 <= c < TableLen
    ensures IsCode(TableLen - 1)
  {
  }

  /** Some values: the common codes, and integers in range that fall into the
      table's gaps. */
  lemma Examples()
    ensures Stringify(200) == Some("OK")
    ensures Stringify(400) == Some("Bad Request")
    ensures Stringify(404) == Some("Not Found")
    ensures Stringify(500) == Some("Internal Server Error")
    ensures Stringify(209).None? && Stringify(299).None? && Stringify(512).None? && Stringify(-1).None?
  {
  }
}

# cwebsrv in Dafny

A model of the core of cWebSrv, a small multi-threaded HTTP/1.1 server in C,
with proofs about that model. The server reads a request in segments. It
parses the request line and header fields (sections 3 and 5 of RFC 9112). It
reads the body that `Content-Length` announces (section 8.6 of RFC 9110). It
answers with a status line, header fields, an empty line and a body. Its data
structures are a chained hash table, a growable slot array and a
reference-counting memory manager. The repository also keeps an older
generation of the request parser and of an open-addressing hash table, and
both are modelled too.

Every operation is a pure function over immutable data. C's `NULL` becomes
`Option`, a parser's error message becomes `Result`, and a mutated structure
is returned as a new value. Where the code and the behaviour its comments
describe part ways, both are modelled: the member named `...AsWritten` is the
code, the plain name is the intended behaviour, and a lemma shows the
difference (see "## Findings").

| file | module | models |
|---|---|---|
| strings.dfy | `Strings` | `Option`/`Result`, the cut of `partial_strdup`, `strclone`, `strncmp` prefixes |
| decimal.dfy | `Decimal` | decimal digits and the text `%lu` prints |
| str2int.dfy | `Str2Int` | util/str2int.c and `longp` |
| common.dfy | `Common` | `rp_exit` of cws/cws_common.c |
| http_method.dfy | `HttpMethod` | cws/cws_http_method.c |
| response_code.dfy | `ResponseCode` | cws/cws_response_code.c |
| fnv.dfy | `Fnv` | the 64-bit FNV-1a hash both hash tables use (datastruct/htable.c:63-76 and htable.c:31-44 compute it the same way) |
| htable.dfy | `HTable` | the chained table of datastruct/htable.c |
| htable_append.dfy | `HTableAppend` | `htable_append_table` |
| dynarr.dfy | `Dynarr` | datastruct/dynarr.c |
| uri.dfy | `Uri` | cws/cws_uri.c: path and query parameters |
| request.dfy | `Request` | the staged head parser of cws/cws_request.c |
| response.dfy | `Response` | the response builder of cws/cws_response.c |
| client_handler.dfy | `ClientHandler` | the segment loop of cws/cws_client_handler.c |
| mman.dfy | `Mman` | mman.c |
| legacy_htable.dfy | `LegacyTable` | the open-addressing table of htable.c |
| legacy_request.dfy | `LegacyRequest` | the single-function parser of cws_request.c |

Each hash table is also given an abstract meaning, and the lemmas prove every
operation against it:

- For the chained table, `HTable.View` maps each stored key to the value
  `fetch` returns for it. `Insert` updates that map, `Remove` deletes from it,
  and `htable_append_table` merges two maps.
- For the open-addressing table, `LegacyTable.Has` is the set of key/value
  pairs it stores. `LegacyTable.Valid` is the linear-probing invariant: every
  key can be reached from its home slot without crossing an empty slot.

## Readings of helpers whose source is not part of this model

- `partial_strdup(s, &offs, sep, skip)` is `Strings.PartialStrdup`.
  - At or after the end of the string it gives NULL and leaves the offset alone.
  - Otherwise the piece runs up to the first `sep`, or to the end, and the offset moves past the separator.
  - The separator `"\0"` never matches, so it takes the rest of the string.
  - Skip mode moves the offset the same way.
- `cws_strdup_until`, used by the older parser, is read the same way, as its header describes it. Called on a NULL string it is taken to give NULL.
- `strclone(s, max)` copies `s`, or gives NULL when `s` is longer than `max`.
- `longp` follows the rules of `str2int` with the bounds of a 64-bit `long`.
- `strfmt`/`vstrfmt` produce the formatted text.
  - In the client handler they fail only when the message would exceed `maxMessage` characters, a parameter that stands for the memory there is.
  - In `rp_exit` their result is a parameter.
  - The response builder ignores their result.
- `errif_resp(client, cond, code, msg)` sends a response with `code` and reports whether `cond` held.
- `CRLF` is `"\r\n"`.
- Strings are NUL-free. The exception is the client handler's segment buffer, which is modelled byte for byte because it is read as a C string.
- A Dafny `char` stands for one byte, a C `char`. The FNV-1a hash takes each character modulo 256 and sign-extends it as a signed `char` (`Fnv.CharWord`). Elsewhere the model only compares characters and reads decimal digits, which come out the same for bytes.
- `CWS_RESPONSE_MAX_HEADERS` is not defined in any file of this model. It is the parameter `maxHeaders` of `Response.HeaderBuffer`.
- The older parser calls `htable_alloc(4, 128)`, but the `htable_alloc` of htable.c takes one argument. The header table has 4 slots.
- Memory allocation always succeeds.
- The compare-and-swap loops of mman.c are single steps.
- Cleanup functions are named by numbers. What the memory manager does outside its store (cleanup calls, `free`, messages) is recorded in order in a log.

Two consequences of these readings:

- A CR before the LF stays in the last token of a line. A request line ending in CRLF therefore gives the minor version `"1\r"`, which neither parser reads as a number.
- In the older parser a cut line never equals `"\n"` or `"\r\n"` (`LegacyRequest.NoStopLine`). So its stop test never fires, and an empty line after the headers is refused as a malformed header (`LegacyRequest.EmptyLineMalformed`, `LegacyRequest.CrLineMalformed`).

## Model

| member | source | states |
|---|---|---|
| Strings.PartialStrdup | cws/cws_request.c:46-61 | the cut is NULL exactly when the offset is at or past the end, and then the offset stays; otherwise the piece is the text from the offset, containing no separator, and the offset moves past the first separator after it, or to the end when none follows; the separator `"\0"` takes the whole rest |
| Strings.StrClone | cws/cws_uri.c:16 | the clone equals the string, and is NULL exactly when the string is longer than the limit |
| Decimal.ValueOfRender | cws/cws_response.c:67-72 | the digits printed for a body length read back as that length |
| Decimal.Render | cws/cws_response.c:73 | the body length printed with `%lu` is a non-empty run of digits with no leading zero unless the length is 0 |
| Str2Int.Str2Int | util/str2int.c:3-29 | an empty string or one starting with white space is inconvertible; overflow exactly when `strtol` would read a value above `INT_MAX`, underflow exactly when it would read one below `INT_MIN`; success exactly when the whole string is an optional sign followed by decimal digits whose value fits an `int`, with that value |
| Str2Int.ParseBoundedSuccess | util/str2int.c:10-28 | for any bounds, the strtol-then-range-then-trailing-character sequence succeeds exactly on a signed decimal string whose value lies within the bounds, and yields that value |
| Str2Int.ParseBounded | util/str2int.c:3-29 | for any bounds: empty or space-led text is inconvertible; a success lies within the bounds and consumed the whole non-empty string; overflow and underflow mean the value `strtol` reads is above or below the bounds |
| Str2Int.OverflowBeforeTrailing | util/str2int.c:14-24 | a digit run above `INT_MAX` followed by a non-digit reports overflow, not inconvertible, because the range checks come before the trailing-character check |
| Str2Int.UnderflowBeforeTrailing | util/str2int.c:18-24 | a negative digit run below `INT_MIN` followed by a non-digit reports underflow, not inconvertible |
| Str2Int.TrailingInconvertible | util/str2int.c:22-24 | a digit run in range followed by a non-digit is inconvertible |
| Str2Int.RenderRoundTrip | util/str2int.c:3-29 | reading back the decimal text of any non-negative `int` gives that number |
| Str2Int.LongParse | cws/cws_client_handler.c:27-32 | the `longp` conversion the handler uses on Content-Length: a success exactly on a signed decimal string within the 64-bit `long` range, carrying its value |
| Str2Int.RenderRoundTripLong | cws/cws_response.c:67-73 | reading back, with `longp`, the decimal text of any non-negative `long` gives that number |
| Common.RpExit | cws/cws_common.c:17-33 | the parser is told to stop exactly when the exit condition holds, an error slot was given and formatting succeeded; the slot then holds the message, and otherwise it is unchanged |
| Common.RpExitIsGuard | cws/cws_common.c:17-33 | with a slot and a working formatter, the stop decision equals the exit condition and a stop stores the message |
| Common.RpExitWithoutSlotContinues | cws/cws_common.c:19 | without an error slot the caller is told to carry on whatever the exit condition |
| HttpMethod.Ordinal | include/cws/cws_http_method.h:8-18 | every enumerator indexes the name table |
| HttpMethod.FromOrdinal | include/cws/cws_http_method.h:8-18 | the enumerator for a numeric value in range has that value |
| HttpMethod.Stringify | cws/cws_http_method.c:16-22 | a name exactly for values in [0, 8), and then the non-empty name at that index |
| HttpMethod.ParseFrom | cws/cws_http_method.c:26-34 | the scan from index `i` returns the first method at or after `i` whose name is a prefix of the input, and nothing only when no such name exists |
| HttpMethod.Parse | cws/cws_http_method.c:24-35 | the result is the first method in table order whose name is a prefix of the input; failure exactly when no name is a prefix |
| HttpMethod.NameStartsIsPrefix | cws/cws_http_method.c:29 | `strncmp(curr, s, strlen(curr)) == 0` holds exactly when the name is a prefix of the input |
| HttpMethod.NamesPrefixFree | cws/cws_http_method.c:3-12 | no method name is a prefix of another, so prefix matching is unambiguous |
| HttpMethod.ParseStringify | cws/cws_http_method.c:16-35 | round trip: parsing the name of any method gives that method back |
| HttpMethod.ParseExamples | cws/cws_http_method.c:24-35 | "GETX" and "GET" parse as GET; "FETCH" and the empty string are refused |
| ResponseCode.Phrase | cws/cws_response_code.c:3-96 | a phrase is present only at the index of a status code of the enumeration, and it is non-empty |
| ResponseCode.Stringify | cws/cws_response_code.c:100-105 | a phrase exactly for the codes of the enumeration; NULL outside [0, table length) and in the gaps |
| ResponseCode.PhraseDefined | cws/cws_response_code.c:3-96 | every code of the enumeration has a phrase |
| ResponseCode.TableLength | cws/cws_response_code.c:98 | the table length is one past the largest code: every code is below it and 511 is a code |
| ResponseCode.Examples | cws/cws_response_code.c:19-105 | 200, 400, 404, 500 give their phrases; 209, 299, 512 and -1 give NULL |
| ClientHandler.RemainingLen | cws/cws_client_handler.c:18-36 | any error leaves 0 as the result, and the only errors are the missing-header and the unparsable-length messages |
| ClientHandler.RemainingSpec | cws/cws_client_handler.c:18-36 | the missing-header error occurs exactly when there is no Content-Length field; no error occurs exactly when the field reads as a `long`, and then the result plus the body part's length is the announced length |
| ClientHandler.RemainingFromView | cws/cws_client_handler.c:18-36 | the same outcome, stated over the map the head's header table represents |
| ClientHandler.RequiredComplete | cws/cws_client_handler.c:18-36 | a head carrying the required response headers for its own body length has nothing left to read |
| ClientHandler.OwnResponseComplete | cws/cws_client_handler.c:18-36 | read back with these rules, the header table and body of one of the server's own responses have nothing left to read |
| ClientHandler.CStrPadded | cws/cws_client_handler.c:84-91 | NUL-free bytes followed by a cleared tail are read by `%s` as exactly those bytes |
| ClientHandler.CStr | cws/cws_client_handler.c:84 | `%s` on the segment buffer reads a NUL-free prefix of it, stopping at the first NUL or at the end of the buffer |
| ClientHandler.ToLong | cws/cws_client_handler.c:90 | the stored value is a `long`, equals the true difference when that fits, and differs from it by a multiple of 2^64 |
| ClientHandler.ParseHeadOk | cws/cws_request.c:111-184 | every head the staged parser produces has a usable header table |
| ClientHandler.Start | cws/cws_client_handler.c:46-53 | before the first read: first-segment mode, one byte still expected, empty message, and a segment buffer assumed cleared |
| ClientHandler.FirstSegment | cws/cws_client_handler.c:58-78 | a head the parser refuses stops with 400 and its message; a missing or unreadable Content-Length stops with 400 and that message; otherwise the 500 head-space refusal occurs exactly when the body part does not fit the message; a pass that goes on holds the head, leaves first-segment mode and has appended the body part |
| ClientHandler.NextSegment | cws/cws_client_handler.c:81-91 | a later segment either stops with the 500 segment message, or appends the buffer's string, counts down by the read size (wrapped to a `long`) and clears the buffer |
| ClientHandler.Step | cws/cws_client_handler.c:54-92 | as intended, a read that is not a positive byte count closes the loop and changes nothing else |
| ClientHandler.StepAsWritten | cws/cws_client_handler.c:54-92 | as written, a read of 0 bytes closes the loop and changes nothing else, while a failed read (-1 in a `size_t`) does not close it |
| ClientHandler.LoopAsWritten | cws/cws_client_handler.c:54-92 | as written, a loop still reading still expects bytes, and a loop that ends content-satisfied has nothing left to read |
| ClientHandler.Loop | cws/cws_client_handler.c:54-92 | as intended, a loop still reading still expects bytes, and a loop that ends content-satisfied has nothing left to read |
| ClientHandler.Serve | cws/cws_client_handler.c:38-92 | the serving routine up to the end of its loop keeps the buffer size; it is still reading only while bytes are expected, and content-satisfied only when none are |
| ClientHandler.LoopConcat | cws/cws_client_handler.c:54-92 | the loop over two runs of reads one after the other is the loop over the second run started where the first left off |
| ClientHandler.FirstTracks | cws/cws_client_handler.c:58-78 | after the first pass either the loop has stopped or a head with a readable Content-Length is held and the remaining count plus the collected bytes equals that length |
| ClientHandler.NextTracks | cws/cws_client_handler.c:81-91 | a later pass keeps remaining plus collected equal to the announced length and appends exactly the bytes received |
| ClientHandler.LoopTracks | cws/cws_client_handler.c:54-92 | over any run of NUL-free reads that fit the buffer, the loop keeps that balance and the head, and a loop still reading has collected exactly the concatenated bytes |
| ClientHandler.LoopSatisfied | cws/cws_client_handler.c:54-92 | the loop ends content-satisfied only after parsing a head and collecting at least the announced length |
| ClientHandler.ServeSatisfied | cws/cws_client_handler.c:38-92 | the same for the serving routine from its start, over the corrected loop |
| ClientHandler.FailureStops | cws/cws_client_handler.c:54-56 | as intended, a failed read ends the loop with everything else unchanged |
| ClientHandler.FailureContinuesAsWritten | cws/cws_client_handler.c:48-56 | as written, `recv` returning -1 stored in a `size_t` passes the `> 0` test, appends nothing and raises the remaining count by one |
| ClientHandler.HeadSegment | cws/cws_client_handler.c:58-78 | on the first segment, the code as written leaves the request bytes in the buffer, while the intended step differs only by a cleared buffer |
| ClientHandler.ResidueAsWritten | cws/cws_client_handler.c:76-91 | as written, a shorter second read is followed by the stale tail of the first segment, so the message gains bytes never received and the length balance breaks |
| Response.StatusLine | cws/cws_response.c:9-26 | a status line exists exactly for the codes of the enumeration, and it is `HTTP/1.1 <code> <phrase>` and CRLF |
| Response.StatusText | cws/cws_response.c:24 | the line starts with `HTTP/1.1 ` and ends with CRLF |
| Response.StatusCodeReadBack | cws/cws_response.c:24 | the token after `HTTP/1.1 ` is the decimal code, and reading it back gives the code |
| Response.InsertAll | cws/cws_response.c:69-75 | inserting distinct short keys one by one succeeds exactly when the item ceiling leaves room for all of them, and adds one item each |
| Response.InsertAllSpec | cws/cws_response.c:69-75 | the inserts extend the map with exactly the inserted pairs and keep the table valid |
| Response.RequiredEntries | cws/cws_response.c:70-73 | the four required header names are distinct, short enough, and map to Closed, text/html, the server name and the decimal body length |
| Response.RequiredStage | cws/cws_response.c:56-76 | the stage succeeds exactly when four more items fit, and then adds four |
| Response.RequiredStageView | cws/cws_response.c:56-76 | on an empty buffer the stage leaves exactly the four required fields |
| Response.AdditionalStage | cws/cws_response.c:78-95 | with no caller headers the buffer is unchanged |
| Response.AdditionalSpec | cws/cws_response.c:78-95 | the caller's headers are added except where a name is already present: the result maps the caller's headers overridden by the buffer's |
| Response.SkipKeepsUnique | cws/cws_response.c:92 | appending in skip mode never stores a name twice |
| Response.EmitFieldsMatch | cws/cws_response.c:42-51 | when every listed key fetches its mapped value, the loop writes `key: value` and CRLF for each key in order |
| Response.EmitFields | cws/cws_response.c:42-53 | the key loop completes exactly when every listed key can be fetched |
| Response.EmitFieldsListed | cws/cws_response.c:28-54 | for a valid table, every listed key is mapped and the field lines are exactly those of the listed keys with their values |
| Response.HeaderBuffer | cws/cws_response.c:155 | the shared header table has 8 slots |
| Response.HeaderBufferFits | cws/cws_response.c:155 | the header stages fail when the ceiling is below 4, and succeed when it covers the 4 required headers plus the caller's |
| Response.HeaderBufferSpec | cws/cws_response.c:56-95 | after the header stages the table is valid with unique names, and maps the caller's headers overridden by the four required ones |
| Response.FieldKeysOnce | cws/cws_response.c:40-51 | every header name of the response is written exactly once |
| Response.OverlayHasRequired | cws/cws_response.c:91-92 | whatever the caller's headers hold, the required fields survive the overlay |
| Response.RequiredWin | cws/cws_response.c:67-92 | the response carries the four required fields, and its Content-Length reads back as the body length |
| Response.Assemble | cws/cws_response.c:97-125 | the assembled response starts with the status line |
| Response.AssembleSpec | cws/cws_response.c:28-54 | the last three stages give the status line, one field line per listed key, the empty line and the body |
| Response.Respond | cws/cws_response.c:133-168 | no response for a code outside the enumeration; a response starts with its status line |
| Response.RespondStages | cws/cws_response.c:145-168 | the chain runs its stages in order: a missing status phrase or a failed header stage stops it, otherwise the rest is assembled on the filled table |
| Response.Build | cws/cws_response.c:133-168 | no response for a code outside the enumeration; a response starts with its status line |
| Response.BuildSpec | cws/cws_response.c:133-168 | a response exists exactly when the code is valid and the header stages succeed, and it is the status line, the field lines of the header table, an empty line and the body |
| Request.MethodStage | cws/cws_request.c:18-30 | "HTTP method missing!" exactly when the cursor is at the end; any other failure is "Unsupported HTTP method!"; success exactly when the token up to the next space parses as a method, and then the stage holds that method and moves the cursor past the space |
| Request.UriStage | cws/cws_request.c:32-44 | "URI missing!" exactly when the cursor is at the end; any other failure is "Could not parse the URI!"; success exactly when the token up to the next space parses as a URI, and then the stage holds that URI and moves the cursor past the space |
| Request.VersionStage | cws/cws_request.c:46-75 | "HTTP version missing!" exactly at the end of input; the major, minor and non-numeric messages each exactly when that cut is missing or fails to read as a `long`; success exactly when both cuts read as numbers, and then the stage holds those two numbers and moves the cursor past the line |
| Request.MethodStageName | cws/cws_request.c:18-30 | wherever a method name stands in the request, followed by a space, the stage reads it back as that method and moves the cursor just past the space |
| Request.VersionOfNumbers | cws/cws_request.c:46-75 | a line `HTTP/<a>.<b>` and LF with decimal digit strings `a` and `b` gives the version of their values, and the cursor lands after the LF |
| Request.VersionCrLfRefused | cws/cws_request.c:46-75 | the same line ending in CRLF is refused as non-numeric, because the CR stays in the minor version |
| Request.SplitHeader | cws/cws_request.c:92-96 | a split header line starts with the key followed by `": "`, and key and value fit within the line |
| Request.HeaderLines | cws/cws_request.c:84-96 | the reference reading of the header block fails only with the malformed-header message |
| Request.HeaderLoop | cws/cws_request.c:84-104 | the loop fails only with the malformed-header or too-many-headers message, and keeps the table's shape |
| Request.HeaderLoopOk | cws/cws_request.c:84-104 | the loop succeeds exactly when every line of the block is well formed and no header arrives at a full table, and it stops where the block ends |
| Request.HeaderLoopView | cws/cws_request.c:84-104 | after a successful loop the table is valid and maps each header name to the last value given for it |
| Request.HeaderLoopTooMany | cws/cws_request.c:84-104 | a well-formed block whose headers do not fit the table is refused with the too-many-headers message |
| Request.HeadersStage | cws/cws_request.c:77-108 | the stage succeeds exactly when the block is well formed and has at most 64 stored headers, and its table then maps the block's headers |
| Request.BodyStage | cws/cws_request.c:110-116 | the body part is NULL exactly when nothing is left, and otherwise is the unread rest of the request |
| Request.ParseHead | cws/cws_request.c:124-145 | a failing method stage is the result; a parsed head carries the parsed method, a URI that parsed and a valid header table; "Duplicate header in request!" is never returned |
| Request.ParseHeadSpec | cws/cws_request.c:124-145 | the stages run in order and the first failing one gives the result; a well-formed header block with more than 64 headers gives the too-many message; otherwise the head holds the method, URI and version the stages read, the map of the header lines and the rest of the request as body part; and a parsed head implies the first three stages succeeded |
| Uri.SplitParam | cws/cws_uri.c:33-37 | a split segment is `name=value` with no `=` in the name and a non-empty value; the split fails exactly when the segment has no `=` or its only `=` is the last character |
| Uri.SplitJoin | cws/cws_uri.c:33-37 | round trip: `name=value` with no `=` in the name and a non-empty value splits back into that name and value |
| Uri.EmptyValues | cws/cws_uri.c:43 | a fresh value list is valid and holds no values |
| Uri.PushInto | cws/cws_uri.c:48-50 | the push fails exactly when the list is full, with the same-named message, and otherwise the table entry holds the grown list |
| Uri.AddValue | cws/cws_uri.c:39-50 | the only failures are the two capacity messages; a new name arriving at a full table is refused with "Too many query parameters" |
| Uri.AddValueGroups | cws/cws_uri.c:39-50 | adding a parameter appends its value to the list of values for its name |
| Uri.AddExistingGroups | cws/cws_uri.c:41-50 | for a name already present, the value is appended to its existing list |
| Uri.AddNewInserts | cws/cws_uri.c:41-46 | for a new name, an empty list is inserted first and the value is then pushed into it |
| Uri.AddNewGroups | cws/cws_uri.c:41-50 | for a new name, the result maps it to the one-value list |
| Uri.PushIntoGroups | cws/cws_uri.c:48-50 | pushing appends the value to the name's list and keeps every other name's list |
| Uri.LongNameDropped | cws/cws_uri.c:39-50 | a name longer than the table's key limit is never stored, so its value is dropped without an error |
| Uri.QueryLoop | cws/cws_uri.c:26-53 | the loop fails only with the malformed, too-many or too-many-same messages, and fails whenever a segment is malformed |
| Uri.LoopReachesParams | cws/cws_uri.c:26-53 | a successful loop saw only well-formed segments |
| Uri.QueryLoopGroups | cws/cws_uri.c:26-53 | a successful loop over short names groups the values of the query's parameters by name, in order of appearance |
| Uri.Overflow | cws/cws_uri.c:39-50 | the message of the first parameter that finds no room is one of the two capacity messages |
| Uri.AddValueRoom | cws/cws_uri.c:39-50 | one parameter is refused exactly when its name is new and 128 names are taken (too many parameters) or its name already has 128 values (too many same-named), and an accepted one keeps the counts |
| Uri.QueryLoopRoom | cws/cws_uri.c:26-53 | over well-formed segments the loop fails exactly when some parameter finds no room, with the message of the first such parameter |
| Uri.OverflowBounds | cws/cws_uri.c:39-50 | no parameter finds room lacking exactly when the final grouping has at most 128 names with at most 128 values each |
| Uri.PathCut | cws/cws_uri.c:20-22 | the path is the text up to the first `?`, with no `?` in it |
| Uri.ParseWithCopy | cws/cws_uri.c:19-61 | an empty URI fails with the path message; a parsed URI has a `?`-free path that is all of the input or the part before its first `?`, and keeps the copy |
| Uri.Parse | cws/cws_uri.c:13-62 | with the length check on the copy: "too long" exactly when the URI exceeds 1024 characters, and a parsed URI keeps the raw text |
| Uri.ParseGroups | cws/cws_uri.c:13-62 | a parsed URI's query maps each short parameter name to its values in order |
| Uri.ParseRoom | cws/cws_uri.c:13-62 | a URI within the length limit with well-formed query segments parses exactly when it has at most 128 distinct names with at most 128 values each; otherwise the message is that of the first parameter that finds no room |
| Uri.ParseAsWritten | cws/cws_uri.c:13-62 | as written, the stored raw URI is whatever the length-limited clone gave |
| Uri.LongUriAccepted | cws/cws_uri.c:15-17 | as written, a URI over the limit is accepted with no raw copy, while the corrected check refuses it |
| Fnv.SlotOf | datastruct/htable.c:63-76 | the slot of a key is below the slot count |
| Fnv.SlotOfIsHashMod | datastruct/htable.c:63-76 | the slot is the 64-bit FNV-1a hash of the key (offset basis, xor each character, multiply by the prime, wrapping at 2^64) reduced modulo the slot count |
| Fnv.HashSnoc | datastruct/htable.c:69-73 | hashing one more character is one more xor-and-multiply step on the hash so far |
| HTable.HashSlot | datastruct/htable.c:63-76 | a key's slot is an index of the slot array |
| HTable.FindIn | datastruct/htable.c:110-121 | the walk returns the first entry of the chain whose key compares equal within 128 characters, and nothing only when none does |
| HTable.Make | datastruct/htable.c:39-54 | a new table has the given slot count and capacity, no items, every chain empty and no keys |
| HTable.Insert | datastruct/htable.c:78-103 | FULL when the item count has reached the capacity; then NULL_VALUE for a NULL value; then KEY_TOO_LONG for a key over 128 characters; otherwise the entry is put at the head of its hash slot's chain, every other slot is unchanged and the count grows by one; an existing key is never reported |
| HTable.InsertValid | datastruct/htable.c:78-103 | a successful insert keeps every key in its hash slot, every key short, and the count equal to the stored entries |
| HTable.InsertKeys | datastruct/htable.c:78-103 | a successful insert adds exactly one occurrence of the key to the listed keys |
| HTable.FetchInserted | datastruct/htable.c:78-103 | fetching a key just inserted gives the inserted value |
| HTable.FetchAfterInsert | datastruct/htable.c:78-103 | inserting one key does not change what any other short key fetches |
| HTable.InsertView | datastruct/htable.c:78-103 | on the map the table represents, a successful insert is a map update of the key to the value |
| HTable.InsertUnique | datastruct/htable.c:78-103 | inserting a key not yet mapped keeps every key stored at most once |
| HTable.FindEntry | datastruct/htable.c:105-122 | the entry found is the first matching entry of the key's hash chain, and there is none exactly when no entry of that chain matches |
| HTable.Contains | datastruct/htable.c:124-143 | true exactly when some entry of the key's hash chain matches the key |
| HTable.Fetch | datastruct/htable.c:180-192 | SUCCESS with the found entry's value exactly when the table contains the key, and KEY_NOT_FOUND with a NULL output otherwise |
| HTable.FetchStored | datastruct/htable.c:180-192 | for a short key, fetch succeeds exactly when the key is among the listed keys |
| HTable.FetchView | datastruct/htable.c:180-192 | for a short key, fetch gives the value the represented map holds for it, or nothing when the key is unmapped |
| HTable.ListKeysCount | datastruct/htable.c:242-262 | a valid table lists as many keys as its item counter says |
| HTable.ViewCount | datastruct/htable.c:78-103 | in a valid table storing each key once, the represented map has as many keys as the item counter says |
| HTable.ViewKeys | datastruct/htable.c:242-262 | the listed keys are exactly the keys of the represented map |
| HTable.Remove | datastruct/htable.c:145-178 | with the head case corrected: KEY_NOT_FOUND and no change when the key is absent; otherwise exactly the first matching entry is unlinked from its chain, its value is released and the count drops by one |
| HTable.RemoveValid | datastruct/htable.c:145-178 | a successful remove keeps the table valid |
| HTable.RemoveKeys | datastruct/htable.c:145-178 | a successful remove takes exactly one occurrence of the key from the listed keys |
| HTable.FetchAfterRemove | datastruct/htable.c:145-178 | removing one key does not change what any other short key fetches |
| HTable.RemoveView | datastruct/htable.c:145-178 | on a table without repeated keys, removing a mapped key releases its value and deletes it from the represented map |
| HTable.RemoveUnique | datastruct/htable.c:145-178 | removing keeps every key stored at most once |
| HTable.RemoveUndoesInsert | datastruct/htable.c:78-178 | removing a key just inserted gives back the original table and releases the inserted value |
| HTable.RemoveAsWritten | datastruct/htable.c:145-178 | as written, the status is SUCCESS exactly when the key is contained, and when the match is the head of its chain the chains are left as they were |
| HTable.RemoveAsWrittenKeepsHead | datastruct/htable.c:157-168 | as written, removing a key just inserted reports success, yet the key still fetches its value and the counter is one below the number of listed keys |
| HTable.SetFound | cws/cws_uri.c:41-49 | a change made through the address fetch handed out: the key now fetches the new value, shape and counters are kept, and an absent key changes nothing |
| HTable.SetFoundValid | cws/cws_uri.c:41-49 | such a change keeps the table valid and its listed keys |
| HTable.FetchAfterSetFound | cws/cws_uri.c:41-49 | it does not change what any other short key fetches |
| HTable.SetFoundView | cws/cws_uri.c:41-49 | on the represented map it is an update of the key |
| HTableAppend.StepKey | datastruct/htable.c:212-237 | one key's step can only succeed, report a missing key, a full table or a too-long key, and a key the source does not fetch ends the append with KEY_NOT_FOUND |
| HTableAppend.StepKeyFetched | datastruct/htable.c:212-237 | override removes then inserts; skip leaves the destination unchanged when it contains the key; otherwise the key is inserted |
| HTableAppend.StepStatus | datastruct/htable.c:212-237 | for a listed source key a step only succeeds or reports FULL, and it succeeds whenever the destination has room |
| HTableAppend.StepMapped | datastruct/htable.c:212-237 | a successful step maps the key to the source's value, except that skip mode leaves a contained key as it was |
| HTableAppend.ReplaceView | datastruct/htable.c:222-235 | removing a key and then inserting it gives a map update of that key |
| HTableAppend.AppendKeys | datastruct/htable.c:212-239 | the key loop keeps the slot count and reports only SUCCESS, KEY_NOT_FOUND, FULL or KEY_TOO_LONG |
| HTableAppend.AppendKeysStatus | datastruct/htable.c:212-239 | over listed source keys the loop only succeeds or reports FULL, and succeeds when the destination has room for all of them |
| HTableAppend.AppendKeysView | datastruct/htable.c:212-239 | a successful loop gives the destination map merged with the source's values key by key in the given mode |
| HTableAppend.AppendTable | datastruct/htable.c:194-240 | in DUPERR mode a destination that already contains a source key is left unchanged with KEY_ALREADY_EXISTS, and only that mode reports it |
| HTableAppend.AppendTableSpec | datastruct/htable.c:194-240 | the append only succeeds, reports FULL or reports an existing key, succeeds when the destination has room; skip mode gives the source overridden by the destination, the other modes the destination overridden by the source, and DUPERR succeeds only on disjoint key sets |
| HTableAppend.DisjointWhenNoneContained | datastruct/htable.c:201-209 | the DUPERR pre-check passes exactly when the two tables map disjoint key sets |
| Dynarr.Make | datastruct/dynarr.c:30-44 | a new array has the given size and ceiling and every slot NULL |
| Dynarr.ResizeArr | datastruct/dynarr.c:46-58 | resizing keeps the ceiling and every old slot, and the new slots are NULL |
| Dynarr.Growth | datastruct/dynarr.c:61-78 | as the comment describes it: the new size is above the old, at most the ceiling, and either double the old size or the ceiling |
| Dynarr.GrowthAsWritten | datastruct/dynarr.c:63-69 | the size the code computes is also above the old size and at most the ceiling |
| Dynarr.GrowthAsWrittenOvershoots | datastruct/dynarr.c:63-69 | whenever doubling fits under the ceiling but not under the remaining room, the code jumps to the ceiling where doubling was meant |
| Dynarr.GrowthExample | datastruct/dynarr.c:63-69 | from 4 slots under a ceiling of 10 the code grows to 10, the description to 8 |
| Dynarr.TryResize | datastruct/dynarr.c:61-78 | growing fails exactly when the array is at its ceiling, and otherwise resizes to the growth size |
| Dynarr.FirstFree | datastruct/dynarr.c:83-92 | the slot found is the first NULL slot, and there is none only when every slot is occupied |
| Dynarr.Push | datastruct/dynarr.c:80-99 | FULL exactly when the array is at its ceiling with no NULL slot, and nothing changes then; otherwise the item goes into the first NULL slot after growing as needed, that slot is reported, and with a free slot at hand the array does not grow |
| Dynarr.PushAppends | datastruct/dynarr.c:80-99 | on an array filled only by pushes, a push appends the item to the values in order and keeps the array packed |
| Dynarr.PushFullCount | datastruct/dynarr.c:80-99 | on a packed array the number of values is at most the ceiling, and push reports FULL exactly when it equals the ceiling |
| Dynarr.MakeIsPacked | datastruct/dynarr.c:30-44 | a new array is packed and holds no values |
| Dynarr.SetAt | datastruct/dynarr.c:101-112 | as intended: INDEX_NOT_FOUND and no change outside the array; otherwise the old item is released and the slot holds the new item |
| Dynarr.SetAtAsWritten | datastruct/dynarr.c:101-112 | as written, the array never changes, and the status is SUCCESS exactly for an index inside it |
| Dynarr.SetAtAsWrittenKeepsReleased | datastruct/dynarr.c:107-110 | as written, the slot keeps the item the cleanup function was just run on, while the intended version stores the new item |
| Dynarr.RemoveAt | datastruct/dynarr.c:131-141 | as intended: INDEX_NOT_FOUND and no change outside the array; otherwise the item is handed out and its slot becomes NULL, every other slot unchanged |
| Dynarr.RemoveAtAsWritten | datastruct/dynarr.c:131-141 | as written, the array never changes; the item is handed out for an index inside it |
| Dynarr.RemoveAtAsWrittenKeepsItem | datastruct/dynarr.c:137-139 | as written, the removed item is still in its slot after being handed out, while the intended version clears the slot |
| Dynarr.LastOccupied | datastruct/dynarr.c:117-125 | the slot found is the last occupied one, and there is none only when every slot is NULL |
| Dynarr.Pop | datastruct/dynarr.c:114-129 | as intended: EMPTY exactly when every slot is NULL, with no change; otherwise the last occupied slot is removed and its item handed out |
| Dynarr.PopAsWritten | datastruct/dynarr.c:114-129 | as written, when some slot is occupied the scan stops at the slot the intended pop removes, and it stops at an occupied slot only then |
| Dynarr.ScanDownAsWritten | datastruct/dynarr.c:117-120 | the downward scan with a `size_t` counter only stops at an occupied slot inside the array |
| Dynarr.ScanDownFindsLast | datastruct/dynarr.c:117-125 | when some slot is occupied, the scan as written stops at the last occupied slot, as intended |
| Dynarr.ScanDownAllNull | datastruct/dynarr.c:117 | when every slot is NULL, the scan as written wraps from 0 to SIZE_MAX and reads past the array |
| Dynarr.PopAsWrittenReadsPastEnd | datastruct/dynarr.c:114-129 | as written, popping an array of NULL slots reads at index SIZE_MAX instead of reporting EMPTY |
| Mman.Increment | mman.c:16-39 | adding one to a `size_t` counter stays in range and agrees with the true sum modulo 2^64 |
| Mman.Decrement | mman.c:16-28 | taking one from a `size_t` counter stays in range and agrees with the true difference modulo 2^64 |
| Mman.CleanupCall | mman.c:110 | a cleanup call is made exactly when a cleanup function was given |
| Mman.Create | mman.c:65-76 | a new block gets the next fresh pointer, and nothing is logged |
| Mman.CreateSpec | mman.c:65-76 | the new block is fresh, holds one reference, the given size and cleanup function, and every other block is unchanged |
| Mman.Alloc | mman.c:85-89 | allocating logs nothing |
| Mman.From | mman.c:101-116 | wrapping a block runs the cleanup function on the original, if any, and then frees it |
| Mman.FromSpec | mman.c:101-116 | the wrapped copy is a fresh block with one reference holding exactly the original's bytes; other blocks are unchanged; the cleanup call comes before the free |
| Mman.ReleaseValid | mman.c:129-156 | dropping a reference keeps every live block with at least one reference |
| Mman.Release | mman.c:129-156 | dropping a reference only appends to the log, touches no block but the one released, adds no block, and does nothing for NULL |
| Mman.ReleaseCases | mman.c:145-155 | with more than one reference the count drops by one and nothing else changes; with the last one the block is gone and the log gains the cleanup call, the free and the message, in that order |
| Mman.InvalidPointer | mman.c:137-143 | a pointer that is not a managed block only produces the error message, for dealloc and for ref, and ref returns NULL |
| Mman.DeallocNull | mman.c:132-135 | a NULL variable is left alone |
| Mman.Ref | mman.c:170-183 | ref returns its argument exactly when it is a managed block, and NULL otherwise |
| Mman.RefValid | mman.c:170-183 | adding a reference below the counter's ceiling keeps the store valid |
| Mman.RefThenRelease | mman.c:129-183 | a ref followed by a dealloc gives back the original store |
| Mman.AllocThenRelease | mman.c:85-156 | a block allocated and dropped once is cleaned up, freed and reported, and no other block changes |
| Mman.CleanupOnce | mman.c:145-155 | dropping k of a block's n references keeps it with n - k references while k < n, and frees it with one cleanup call when k = n |
| Mman.Dealloc | mman.c:129-156 | as intended, the caller's variable is cleared exactly when the call freed its block; it is kept when NULL, when not a managed block, and while other references remain |
| Mman.DeallocAsWritten | mman.c:129-156 | as written, the caller's variable is never changed |
| Mman.DoubleReleaseAsWritten | mman.c:129-155 | as written, after the call that freed a block with one reference the variable still holds the pointer, so a second call is handed a block that is gone |
| Mman.DoubleRelease | mman.c:129-156 | as intended, after the call that freed a block the variable is NULL and a second call does nothing |
| Mman.DeallocAgrees | mman.c:145-152 | the corrected and the written dealloc change the store alike, and they leave different variables exactly on the call that frees the block |
| LegacyTable.Probe | htable.c:76 | the i-th probe from a home slot stays inside the table |
| LegacyTable.ProbeIsMod | htable.c:76 | the probe is `(i + home) % size` |
| LegacyTable.Dist | htable.c:74-77 | every slot is reached by the probe at exactly its distance from the home slot |
| LegacyTable.ProbeEnd | htable.c:74-92 | the probe stops at the first slot that is empty or holds the key, having passed only slots that hold other keys |
| LegacyTable.FindEntry | htable.c:103-122 | a slot found holds the key, and nothing is found for a key not stored |
| LegacyTable.FindComplete | htable.c:103-122 | in a table where every key is reachable from its home without crossing an empty slot, the stored key's slot is found |
| LegacyTable.Fetch | htable.c:138-150 | SUCCESS only for a stored key, with its value; KEY_NOT_FOUND and a NULL output for a key not stored |
| LegacyTable.FetchStored | htable.c:138-150 | in such a table fetch gives the stored key's value |
| LegacyTable.FetchHas | htable.c:138-150 | in such a table fetch gives a value exactly when the table holds that key with that value |
| LegacyTable.AllocEmpty | htable.c:3-17 | a new table is valid, has no occupied slot, stores nothing and fetches nothing |
| LegacyTable.Insert | htable.c:67-101 | a failing insert changes nothing; KEY_ALREADY_EXISTS only for a stored key; remove's KEY_NOT_FOUND never comes back; the table keeps its size |
| LegacyTable.InsertStatus | htable.c:67-101 | in a valid table KEY_ALREADY_EXISTS is returned exactly when the key is stored, and FULL exactly when it is not and every slot is occupied |
| LegacyTable.InsertLands | htable.c:67-101 | a successful insert writes the first free slot of the key's probe sequence |
| LegacyTable.InsertValid | htable.c:67-101 | an insert keeps the table valid: keys unique and each reachable from its home |
| LegacyTable.InsertHas | htable.c:67-101 | after a successful insert the table holds exactly its old pairs and the new one |
| LegacyTable.InsertStored | htable.c:67-101 | a successful insert adds exactly its key to the stored keys and one occupied slot |
| LegacyTable.FetchAfterInsert | htable.c:67-150 | after a successful insert the key fetches its value and every other key fetches what it did before |
| LegacyTable.OccupiedBound | htable.c:171-176 | the occupied count is at most the table size, and below it exactly when some slot is free |
| LegacyTable.ListKeysSpec | htable.c:171-186 | as many keys as occupied slots, exactly the stored keys, and no key twice in a valid table |
| LegacyTable.Remove | htable.c:124-136 | remove succeeds or reports KEY_NOT_FOUND, and a missing key changes nothing |
| LegacyTable.RemoveSpec | htable.c:124-136 | as written, remove succeeds exactly for a stored key, and only empties the slot found, after which that key is no longer stored |
| LegacyTable.RemoveLosesCollidingKey | htable.c:103-136 | as written, for any two keys with the same home slot, inserting both and removing the first leaves the second stored but no longer found |
| LegacyTable.RemoveLosesKeyExample | htable.c:103-136 | "a" and "c" share home slot 0 of a two-slot table, so removing "a" makes "c" unfindable although it is still stored |
| LegacyTable.HomeOfA | htable.c:31-44 | "a" hashes to slot 0 of a two-slot table |
| LegacyTable.HomeOfC | htable.c:31-44 | "c" hashes to slot 0 of a two-slot table |
| LegacyTable.RemoveRebuilt | htable.c:124-136 | the corrected remove succeeds or reports KEY_NOT_FOUND, changes nothing for a missing key, and keeps the table size |
| LegacyTable.ReinsertSpec | htable.c:67-101 | inserting distinct new keys into a table with room for them keeps it valid and adds exactly those pairs |
| LegacyTable.RebuiltContents | htable.c:124-136 | re-inserting the entries left after clearing a key's slot gives a valid table holding exactly the other pairs |
| LegacyTable.RemoveRebuiltSpec | htable.c:124-136 | the corrected remove succeeds exactly for a stored key, keeps the table valid, leaves the key unstored, and every other key fetches what it did before |
| LegacyRequest.UriParse | cws_uri.c:3-11 | the older URI parse always succeeds and keeps a copy of the raw target |
| LegacyRequest.Byte | include/cws_request.h:29-30 | storing into a `uint8_t` keeps the value modulo 256 |
| LegacyRequest.MethodPart | cws_request.c:10-28 | "HTTP method missing!" exactly for an empty request; otherwise success exactly when the first space-delimited token parses as a method, and then the part holds that method and moves past the space |
| LegacyRequest.UriPart | cws_request.c:30-42 | "URI missing!" exactly when the cursor is at the end; otherwise the URI keeps the next space-delimited token |
| LegacyRequest.VersionPart | cws_request.c:44-67 | the only failures are the malformed and the non-numeric messages, the malformed one at the end of input; a success advances the cursor and stores both numbers as bytes |
| LegacyRequest.Lines | cws_request.c:71-89 | the reference reading of the header lines fails only with the malformed-header message |
| LegacyRequest.HeaderLoop | cws_request.c:69-107 | the header loop fails only with the malformed, duplicate or too-many message, and keeps the table size |
| LegacyRequest.InsertedHeader | cws_request.c:92-106 | a successful header insert keeps the table valid, adds exactly that header's name and pair, and one occupied slot |
| LegacyRequest.HeaderLoopSpec | cws_request.c:69-107 | the loop succeeds exactly when every line is well formed, no name repeats a stored one and the table has room; the table then holds exactly the old pairs and the header lines |
| LegacyRequest.Parse | cws_request.c:5-121 | a missing or unsupported method is the result; a parsed request carries that method, a NULL body, byte-sized version numbers and a four-slot header table |
| LegacyRequest.ParseSpec | cws_request.c:5-121 | the parts run in order and the first failing one gives the result; the header loop succeeds exactly when the lines are well formed and fit the four-slot table; a parsed request is exactly the method, URI, table and byte-sized version the parts produced, with a NULL body; and a parsed request implies the first three parts succeeded |
| LegacyRequest.ParseOk | cws_request.c:5-121 | a parsed request holds the cut URI and version, at most four distinct header names, and exactly the header lines as pairs |
| LegacyRequest.ParseReporting | cws_request.c:5-121 | a request is returned exactly when parsing succeeds; on failure the message is stored only when a message slot was given |
| LegacyRequest.NoStopLine | cws_request.c:73-76 | under the cut rule assumed for `cws_strdup_until`, a cut line never equals "\n" or "\r\n", so the stop test never fires |
| LegacyRequest.EmptyLineMalformed | cws_request.c:71-89 | an empty line after the request line is refused as a malformed header |
| LegacyRequest.CrLineMalformed | cws_request.c:71-89 | a CR-LF line is also refused as a malformed header |

## Left out

- Printing and dumping are output only: `cws_request_head_print`, `htable_dump_hr`, `htable_dump_hr_strs`, `htable_visualize`, `cws_print_addr_in`, `cws_print_prefix` and `mman_print_info`.
- Freeing whole structures is not modelled: the cleanup callbacks of datastruct/htable.c, datastruct/dynarr.c, cws/cws_request.c and cws/cws_uri.c, `htable_free`, and `cws_request_free`. The reference counting they rely on is modelled in `Mman`.
- Lines 94-125 of cws/cws_client_handler.c are left out. They terminate and print the message, send a fixed test response, close the socket and start the thread. The response itself is `Response.Build`.
- Sockets, `recv`, `send`, threads and concurrency are not modelled. The results of `recv` are a parameter of `ClientHandler.Serve`.
- `htable_write_slot` copying the key byte by byte, and freeing the old key, are memory handling. The model stores the key string.
- `mman_realloc`, which `dynarr_resize_arr` calls, is not part of this model. `Dynarr.ResizeArr` gives its effect on the slots.
- `mman_create` does not check the result of `malloc`. The model assumes allocation succeeds.
- `mman_ref` on a NULL pointer is not modelled.
- HTable.RemoveAsWritten: it does not model which entry the head case then cleans up and frees. That is the successor, or a NULL dereference when the match was the only entry.
- Dynarr.Make: it requires at least one slot and no more than the ceiling. With no slots, `push` would resize to zero slots and recurse forever. The one caller passes 128 and 128.
- Uri.QueryLoopGroups: it states the grouping only when every name fits the 128-character key limit. A longer name is covered by `Uri.LongNameDropped`.
- ClientHandler.LoopSatisfied: it states that at least the announced length was collected, not exactly that length. The last segment may carry more.
- LegacyRequest.VersionPart: it states that both stored numbers are bytes, not which bytes they are. `LegacyRequest.Byte` gives the truncation.
- ClientHandler.FirstSegment: `err` at cws/cws_client_handler.c:61 is not initialised, and the parser writes it only on failure, so the tests at lines 63 and 67 read an indeterminate pointer after a successful parse. The model reads it as NULL, as if it had been initialised.
- ClientHandler.FirstSegment: a head with no body part passes NULL to `%s` at line 72. glibc prints "(null)" there, and the behaviour is undefined in C. The model appends nothing, through `Response.BodyText(None)`.
- ClientHandler.CStr: a `recv` that fills all CWS_HANDLER_SEGLEN bytes leaves no NUL in the segment buffer, so the reads at lines 62 and 84 run past its end. The model lets such a read in (`ReadFits`) and stops the string at the end of the buffer.
- ClientHandler.Serve: it runs the corrected `ClientHandler.Loop` and `ClientHandler.Step`, in which a failed `recv` ends the loop and the buffer is also cleared after the first segment. As written, -1 stored in `read_size` passes the test at line 56 (`ClientHandler.FailureContinuesAsWritten`), and the `continue` at line 78 skips the `memset` at line 91, so a shorter second read picks up the stale tail of the first (`ClientHandler.ResidueAsWritten`). `ClientHandler.LoopAsWritten` is the loop as written.
- ClientHandler.ServeSatisfied: it is stated over the corrected `ClientHandler.Serve`. Because of the stale tail, the code as written can end content-satisfied with bytes never received counted in the message.
- ClientHandler.Start: `mman_alloc` at line 46 comes from a bare `malloc` (mman.c:67), so the segment buffer is not cleared before the first `recv`. The model takes it as cleared, so the bytes after the first read are read as NUL.
- ClientHandler.RemainingLen: it returns the exact difference of line 35. For a Content-Length below LONG_MIN plus the body part's length, the `long` subtraction overflows, which C leaves undefined; with the usual two's-complement wrap-around it becomes a large positive count. There the model gives a negative count, and the loop ends content-satisfied.
- ClientHandler.RemainingSpec: its balance (result plus body length equals the announced length) uses the same exact difference, and so does not describe the overflowing case.
- Mman.DoubleReleaseAsWritten: the second call on a freed block reads freed memory at mman.c:139, which is undefined. The model treats the freed pointer like any pointer that is not a live block and logs the "Invalid resource" message.
- Request.UriStage: it is stated over the corrected `Uri.Parse`, so a URI of more than 1024 characters is refused with "Could not parse the URI!". The code as written accepts it (cws/cws_uri.c:17, `Uri.LongUriAccepted`).
- HTableAppend.StepKey: the override step removes with the corrected `HTable.Remove`. The written remove leaves a chain head in place (`HTable.RemoveAsWrittenKeepsHead`), so this step as written can keep a key's old entry.
- Dynarr.Push: it grows with `Dynarr.Growth`, the size the comment describes, not the written `Dynarr.GrowthAsWritten`. Which slots are free differs only in how many NULL slots are added.
- Dynarr.TryResize: it resizes to `Dynarr.Growth` as well, for the same reason.

## Findings

| source | as written | input that shows it | evidently intended | confidence | as-written member | corrected member |
|---|---|---|---|---|---|---|
| datastruct/htable.c:157-163 | when the match is the head of its chain, `slot = slot->_next` moves a local pointer, and `table->slots[slot_id]` still points at the entry | insert "k" into a table whose chain for "k" already holds another key, so "k" heads a chain of two, then remove "k": SUCCESS, yet "k" still fetches its value and the counter is one below the listed keys | advance the chain's head pointer | high; not executed | HTable.RemoveAsWrittenKeepsHead | HTable.RemoveView |
| datastruct/dynarr.c:63-69 | the doubled size is compared with the remaining room `cap - size` instead of the ceiling | 4 slots under a ceiling of 10 grow to 10 | double to 8, as the comment says | medium; not executed | Dynarr.GrowthAsWrittenOvershoots | Dynarr.Growth |
| datastruct/dynarr.c:107-110 | `slot = item` assigns a local copy | `set_at(arr, 0, x)` on a slot holding `y`: `y` is cleaned up and stays in the slot | `arr->items[index] = item` | high; not executed | Dynarr.SetAtAsWrittenKeepsReleased | Dynarr.SetAt |
| datastruct/dynarr.c:137-139 | `slot = NULL` clears a local copy | `remove_at(arr, 0, &out)` on a slot holding `y`: `y` is handed out and stays in the slot | clear `arr->items[index]` | high; not executed | Dynarr.RemoveAtAsWrittenKeepsItem | Dynarr.RemoveAt |
| datastruct/dynarr.c:117 | `i >= 0` always holds for a `size_t`, and `i--` wraps from 0 to SIZE_MAX | `pop` on an array whose slots are all NULL reads `items[SIZE_MAX]` | report EMPTY | high; not executed | Dynarr.PopAsWrittenReadsPastEnd | Dynarr.Pop |
| cws/cws_uri.c:16-17 | the length check tests `raw_uri` instead of the clone `uri_copy` | a URI of 1025 characters without `?` is accepted, with a NULL raw copy | refuse it with "The URI was too long" | high; not executed | Uri.LongUriAccepted | Uri.Parse |
| htable.c:124-136 | remove only empties the slot, which cuts the probe chain of the keys placed after it | two slots; insert "a" then "c" (both hash to slot 0); remove "a": "c" is still stored but fetch reports KEY_NOT_FOUND | every other key stays findable | high; not executed | LegacyTable.RemoveLosesKeyExample | LegacyTable.RemoveRebuiltSpec |
| cws/cws_client_handler.c:48-56 | `read_size` is a `size_t`, so `recv` returning -1 is stored as SIZE_MAX and passes `> 0` | a connection error after a later segment: the loop goes on, appends nothing and raises the remaining count by one | end the loop on an error | high; not executed | ClientHandler.FailureContinuesAsWritten | ClientHandler.FailureStops |
| cws/cws_client_handler.c:76-91 | after the first segment, `continue` skips the `memset` at line 91, so the buffer keeps the head's bytes | a head segment followed by a shorter body segment: the message gains the stale tail of the head | clear the buffer after every segment | high; not executed | ClientHandler.ResidueAsWritten | ClientHandler.NextTracks |
| mman.c:151-152 | `ptr = NULL` clears a local copy, and the caller's variable keeps its value | a block with one reference, deallocated through a variable: the block is freed, and a second dealloc through the same variable reads the metadata of freed memory at line 139 | clear the caller's variable (`*ptr_ptr`) once the block is freed | medium; not executed | Mman.DoubleReleaseAsWritten | Mman.DoubleRelease |

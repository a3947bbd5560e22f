/**
 * The reading half of `cws_serve_client` (cws/cws_client_handler.c): the
 * request arrives in segments; the first is parsed as the request head,
 * `Content-Length` (section 8.6 of RFC 9110) says how many body bytes are
 * still to come, and every later segment is appended to the message until
 * that count is used up or the connection ends.
 *
 * The socket is a parameter: the results `recv` returns, in order. The
 * segment buffer is modelled byte for byte, because the code reads it as a
 * NUL-terminated string. Growing the message buffer (`strfmt`) fails when
 * the message would exceed `maxMessage` characters, which stands for the
 * memory there is.
 */
module ClientHandler {
  import opened Strings
  import HTable
  import Request
  import Response
  import Str2Int

  const NoLengthMsg: string := "Error: Could not find content-length header!\n"
  const BadLengthMsg: string := "Error: Could not parse content-length as an integer!\n"
  const HeadSpaceMsg: string := "Could not allocate space for the head!"
  const SegmentSpaceMsg: string := "Could not allocate space for a segment!"

  /** STATUS_BAD_REQUEST and STATUS_INTERNAL_SERVER_ERROR */
  const BadRequest: int := 400
  const InternalServerError: int := 500

  /** The header that announces the body length. */
  const LengthName: string := "Content-Length"

  const LongMin: int := Str2Int.LongMin
  const LongMax: int := Str2Int.LongMax

  // ---------------------------------------------------------------------
  // cws_remaining_len
  // ---------------------------------------------------------------------

  /** What `cws_remaining_len` returns, and the message it leaves in `*err`
      (`None` when it leaves `*err` alone). */
  datatype Remaining = Remaining(err: Option<string>, value: int)

  /** The `Content-Length` field of a head, as fetched. */
  function LengthField(head: Request.Head): Option<string>
    requires |head.headers.slots| > 0
  {
    HTable.Fetch(head.headers, LengthName).output
  }

  /** The announced length: the field read as a `long`, when both work. */
  function ContentLength(head: Request.Head): (r: Option<int>)
    requires |head.headers.slots| > 0
    ensures r.Some? ==> LongMin <= r.value <= LongMax
  {
    match LengthField(head)
    case None => None
    case Some(text) => if Str2Int.LongParse(text).Success? then Some(Str2Int.LongParse(text).value) else None
  }

  /** `cws_remaining_len`: the announced length minus what the head already
      holds of the body. */
  function RemainingLen(head: Request.Head): (r: Remaining)
    requires |head.headers.slots| > 0
    ensures r.err.Some? ==> r.value == 0
    ensures r.err.None? || r.err == Some(NoLengthMsg) || r.err == Some(BadLengthMsg)
  {
    match LengthField(head)
    case None => Remaining(Some(NoLengthMsg), 0)
    case Some(text) =>
      match Str2Int.LongParse(text)
      case Success(n) => Remaining(None, n - Response.BodyLen(head.bodyPart))
      case _ => Remaining(Some(BadLengthMsg), 0)
  }

  /** Which error `cws_remaining_len` reports, and that without one the
      count plus the body part already in the head is the announced
      length. */
  lemma RemainingSpec(head: Request.Head)
    requires |head.headers.slots| > 0
    ensures RemainingLen(head).err == Some(NoLengthMsg) <==> LengthField(head).None?
    ensures RemainingLen(head).err.None? <==> ContentLength(head).Some?
    ensures RemainingLen(head).err.None? ==>
              RemainingLen(head).value + Response.BodyLen(head.bodyPart) == ContentLength(head).value
  {
  }

  /** On a valid header table the outcome is decided by what the table maps
      `Content-Length` to: missing, not a `long`, or a number. */
  lemma RemainingFromView(head: Request.Head)
    requires HTable.Valid(head.headers)
    ensures var m := HTable.View(head.headers);
            && (RemainingLen(head).err == Some(NoLengthMsg) <==> LengthName !in m)
            && (RemainingLen(head).err == Some(BadLengthMsg) <==>
                  LengthName in m && !Str2Int.LongParse(m[LengthName]).Success?)
            && (RemainingLen(head).err.None? ==>
                  RemainingLen(head).value
                    == Str2Int.LongParse(m[LengthName]).value - Response.BodyLen(head.bodyPart))
  {
    HTable.FetchView(head.headers, LengthName);
    RemainingSpec(head);
  }

  /** A head whose header table holds the server's own required response
      headers, with a `Content-Length` that matches its body part, has
      nothing left to read. */
  lemma RequiredComplete(head: Request.Head)
    requires HTable.Valid(head.headers)
    requires Response.HasRequired(HTable.View(head.headers), Response.BodyLen(head.bodyPart))
    requires Response.BodyLen(head.bodyPart) <= LongMax
    ensures RemainingLen(head) == Remaining(None, 0)
  {
    var n := Response.BodyLen(head.bodyPart);
    Str2Int.RenderRoundTripLong(n);
    assert LengthName == "Content-Length";
    RemainingFromView(head);
    assert RemainingLen(head).err.None?;
  }

  /** Read with these rules, the head of one of the server's own responses,
      carrying its whole body, has nothing left to read. */
  lemma OwnResponseComplete(headers: Option<HTable.Table<string>>, body: Option<string>, maxHeaders: nat,
                            head: Request.Head)
    requires headers.Some? ==> HTable.Valid(headers.value)
    requires Response.HeaderBuffer(headers, body, maxHeaders).Some?
    requires Response.BodyLen(body) <= LongMax
    requires head.headers == Response.HeaderBuffer(headers, body, maxHeaders).value && head.bodyPart == body
    ensures RemainingLen(head) == Remaining(None, 0)
  {
    Response.HeaderBufferSpec(headers, body, maxHeaders);
    Response.RequiredWin(headers, body, maxHeaders);
    RequiredComplete(head);
  }

  // ---------------------------------------------------------------------
  // Bytes and buffers
  // ---------------------------------------------------------------------

  /** One result of `recv`: some bytes, 0 (the peer closed), or -1. */
  datatype Read = Received(bytes: string) | Shutdown | Failure

  /** `recv` never returns more than the buffer holds. */
  predicate ReadFits(r: Read, segLen: nat) {
    r.Received? ==> 0 < |r.bytes| <= segLen
  }

  /** The value stored into `read_size`, a `size_t`: -1 becomes SIZE_MAX. */
  function ReadSize(r: Read): nat {
    match r
    case Received(bytes) => |bytes|
    case Shutdown => 0
    case Failure => HTable.SizeMax
  }

  /** `memset(buf, 0, len)` */
  function Zeros(len: nat): (z: string)
    ensures |z| == len && AllZero(z)
  {
    seq(len, _ => '\0')
  }

  predicate AllZero(s: string) {
    forall i :: 0 <= i < |s| ==> s[i] == '\0'
  }

  lemma AllZeroDrop(s: string, k: nat)
    requires AllZero(s) && k <= |s|
    ensures AllZero(s[k..])
  {
  }

  predicate NulFree(s: string) {
    forall i :: 0 <= i < |s| ==> s[i] != '\0'
  }

  /** The buffer after `recv`: the bytes received over its start, the rest as
      it was. */
  function Recv(seg: string, r: Read): (s: string)
    requires ReadFits(r, |seg|)
    ensures |s| == |seg|
  {
    if r.Received? then r.bytes + seg[|r.bytes|..] else seg
  }

  /** The buffer read as a C string: up to the first NUL (or its end). */
  function CStr(s: string): (r: string)
    ensures r <= s && NulFree(r)
    ensures |r| < |s| ==> s[|r|] == '\0'
    decreases |s|
  {
    if s == [] || s[0] == '\0' then [] else [s[0]] + CStr(s[1..])
  }

  /** NUL-free bytes followed by a cleared tail read back as just the bytes. */
  lemma {:induction false} CStrPadded(d: string, z: string)
    requires NulFree(d) && AllZero(z)
    ensures CStr(d + z) == d
    decreases |d|
  {
    if d == [] {
      assert d + z == z;
    } else {
      assert (d + z)[1..] == d[1..] + z;
      CStrPadded(d[1..], z);
    }
  }

  /** A `long` receiving the `unsigned long` result of `long -= size_t`:
      the value modulo 2^64, read as two's complement. */
  function ToLong(x: int): (r: int)
    ensures LongMin <= r <= LongMax
    ensures LongMin <= x <= LongMax ==> r == x
    ensures (r - x) % 0x1_0000_0000_0000_0000 == 0
  {
    var u := x % 0x1_0000_0000_0000_0000;
    if u > LongMax then u - 0x1_0000_0000_0000_0000 else u
  }

  // ---------------------------------------------------------------------
  // The segment loop
  // ---------------------------------------------------------------------

  /** Why the loop is (not yet) over: still reading, the announced body is
      in, the connection ended, or `errif_resp` answered with `code`. */
  datatype Stop = Reading | Satisfied | Closed | Refused(code: int, msg: string)

  /** The loop's variables: `first_seg`, `seg_data_remaining`, the message
      so far, the segment buffer and the parsed head. */
  datatype Serving = Serving(first: bool, remaining: int, message: string, seg: string,
                             head: Option<Request.Head>, stop: Stop)

  /** `cws_request_head_parse` as the loop sees it: text in, head or error
      message out. `Serve` passes `Request.ParseHead`. */
  type Parser = string -> Result<Request.Head>

  /** A parsed head comes with a usable header table. */
  ghost predicate ParserOk(parse: Parser) {
    forall text :: parse(text).Ok? ==> |parse(text).value.headers.slots| > 0
  }

  lemma ParseHeadOk()
    ensures ParserOk(Request.ParseHead)
  {
    forall text | Request.ParseHead(text).Ok?
      ensures |Request.ParseHead(text).value.headers.slots| > 0
    {
      assert HTable.Valid(Request.ParseHead(text).value.headers);
    }
  }

  /** Before the first `recv`. The segment buffer is assumed to start
      cleared. */
  function Start(segLen: nat): (s: Serving)
    ensures s.first && s.remaining > 0 && s.message == [] && |s.seg| == segLen && AllZero(s.seg)
    ensures s.stop == Reading
  {
    Serving(true, 1, [], Zeros(segLen), None, Reading)
  }

  /** The first segment: parse the head, compute what remains, copy the body
      part into the message. Each failure is answered by `errif_resp`. */
  function FirstSegment(s: Serving, seg: string, maxMessage: nat, parse: Parser): (r: Serving)
    requires ParserOk(parse) && s.stop == Reading
    ensures r.seg == seg
    ensures r.stop == Reading || r.stop.Refused?
    ensures parse(CStr(seg)).Err? ==> r.stop == Refused(BadRequest, parse(CStr(seg)).msg)
    ensures parse(CStr(seg)).Ok? && RemainingLen(parse(CStr(seg)).value).err.Some? ==>
              r.stop == Refused(BadRequest, RemainingLen(parse(CStr(seg)).value).err.value)
    ensures parse(CStr(seg)).Ok? && RemainingLen(parse(CStr(seg)).value).err.None? ==>
              (r.stop == Refused(InternalServerError, HeadSpaceMsg) <==>
                 |s.message| + |Response.BodyText(parse(CStr(seg)).value.bodyPart)| > maxMessage)
    ensures r.stop == Reading ==> !r.first && parse(CStr(seg)).Ok? && r.head == Some(parse(CStr(seg)).value)
    ensures r.stop == Reading ==> r.message == s.message + Response.BodyText(r.head.value.bodyPart)
    ensures r.stop == Reading ==> r.remaining == RemainingLen(r.head.value).value
    ensures r.stop == Reading ==> RemainingLen(r.head.value).err.None?
    ensures r.stop != Reading ==> r.first == s.first && r.message == s.message
  {
    match parse(CStr(seg))
    case Err(msg) => s.(seg := seg, stop := Refused(BadRequest, msg))
    case Ok(head) =>
      var rl := RemainingLen(head);
      var s1 := s.(seg := seg, head := Some(head), remaining := rl.value);
      if rl.err.Some? then s1.(stop := Refused(BadRequest, rl.err.value))
      else
        var part := Response.BodyText(head.bodyPart);
        if |s.message| + |part| > maxMessage then s1.(stop := Refused(InternalServerError, HeadSpaceMsg))
        else s1.(first := false, message := s.message + part)
  }

  /** A later segment: append the buffer's string, count down by what `recv`
      returned, clear the buffer. */
  function NextSegment(s: Serving, seg: string, size: nat, maxMessage: nat): (r: Serving)
    requires s.stop == Reading
    ensures |r.seg| == |seg|
    ensures r.stop == Reading || r.stop == Refused(InternalServerError, SegmentSpaceMsg)
    ensures r.stop == Reading ==> r.message == s.message + CStr(seg) && AllZero(r.seg)
    ensures r.stop == Reading ==> r.remaining == ToLong(s.remaining - size)
    ensures r.first == s.first && r.head == s.head
  {
    var text := CStr(seg);
    if |s.message| + |text| > maxMessage then s.(seg := seg, stop := Refused(InternalServerError, SegmentSpaceMsg))
    else s.(message := s.message + text, remaining := ToLong(s.remaining - size), seg := Zeros(|seg|))
  }

  /** One pass of the loop body as written, after the loop test has seen
      `seg_data_remaining > 0` and `read_size > 0`. */
  function StepAsWritten(s: Serving, r: Read, maxMessage: nat, parse: Parser): (t: Serving)
    requires ParserOk(parse) && s.stop == Reading && ReadFits(r, |s.seg|)
    ensures |t.seg| == |s.seg|
    ensures r.Shutdown? ==> t == s.(stop := Closed)
    ensures r.Failure? ==> t.stop != Closed
  {
    if ReadSize(r) == 0 then s.(stop := Closed)
    else if s.first then FirstSegment(s, Recv(s.seg, r), maxMessage, parse)
    else NextSegment(s, Recv(s.seg, r), ReadSize(r), maxMessage)
  }

  /** Lines 54-92 as written: the loop test, then the body, until the loop
      ends or the results of `recv` run out. */
  function LoopAsWritten(s: Serving, results: seq<Read>, maxMessage: nat, parse: Parser): (t: Serving)
    requires ParserOk(parse)
    requires forall i :: 0 <= i < |results| ==> ReadFits(results[i], |s.seg|)
    ensures |t.seg| == |s.seg|
    ensures t.stop == Reading ==> t.remaining > 0
    ensures s.stop == Reading && t.stop == Satisfied ==> t.remaining <= 0
    decreases |results|
  {
    if s.stop != Reading then s
    else if s.remaining <= 0 then s.(stop := Satisfied)
    else if results == [] then s
    else LoopAsWritten(StepAsWritten(s, results[0], maxMessage, parse), results[1..], maxMessage, parse)
  }

  /** One pass of the loop body as intended: a failed `recv` ends the loop
      like a closed connection, and the buffer is cleared after the first
      segment too. */
  function Step(s: Serving, r: Read, maxMessage: nat, parse: Parser): (t: Serving)
    requires ParserOk(parse) && s.stop == Reading && ReadFits(r, |s.seg|)
    ensures |t.seg| == |s.seg|
    ensures !r.Received? ==> t == s.(stop := Closed)
  {
    if !r.Received? then s.(stop := Closed)
    else if s.first then FirstSegment(s, Recv(s.seg, r), maxMessage, parse).(seg := Zeros(|s.seg|))
    else NextSegment(s, Recv(s.seg, r), ReadSize(r), maxMessage)
  }

  /** The segment loop as intended. */
  function Loop(s: Serving, results: seq<Read>, maxMessage: nat, parse: Parser): (t: Serving)
    requires ParserOk(parse)
    requires forall i :: 0 <= i < |results| ==> ReadFits(results[i], |s.seg|)
    ensures |t.seg| == |s.seg|
    ensures t.stop == Reading ==> t.remaining > 0
    ensures s.stop == Reading && t.stop == Satisfied ==> t.remaining <= 0
    decreases |results|
  {
    if s.stop != Reading then s
    else if s.remaining <= 0 then s.(stop := Satisfied)
    else if results == [] then s
    else Loop(Step(s, results[0], maxMessage, parse), results[1..], maxMessage, parse)
  }

  /** `cws_serve_client` up to the end of the loop, with the request-head
      parser of this model. */
  function Serve(results: seq<Read>, segLen: nat, maxMessage: nat): (t: Serving)
    requires forall i :: 0 <= i < |results| ==> ReadFits(results[i], segLen)
    ensures |t.seg| == segLen
    ensures t.stop == Reading ==> t.remaining > 0
    ensures t.stop == Satisfied ==> t.remaining <= 0
  {
    ParseHeadOk();
    Loop(Start(segLen), results, maxMessage, Request.ParseHead)
  }

  /** How `Loop` ends or goes on. */
  lemma LoopCases(s: Serving, results: seq<Read>, maxMessage: nat, parse: Parser)
    requires ParserOk(parse)
    requires forall i :: 0 <= i < |results| ==> ReadFits(results[i], |s.seg|)
    ensures s.stop != Reading ==> Loop(s, results, maxMessage, parse) == s
    ensures s.stop == Reading && s.remaining <= 0 ==> Loop(s, results, maxMessage, parse) == s.(stop := Satisfied)
    ensures s.stop == Reading && s.remaining > 0 && results == [] ==> Loop(s, results, maxMessage, parse) == s
    ensures s.stop == Reading && s.remaining > 0 && results != [] ==>
              Loop(s, results, maxMessage, parse)
                == Loop(Step(s, results[0], maxMessage, parse), results[1..], maxMessage, parse)
  {
  }

  /** The loop can be fed its reads in two batches: running it over the
      first and then over the second ends where running it over all of them
      does. */
  lemma {:induction false} LoopConcat(s: Serving, r1: seq<Read>, r2: seq<Read>, maxMessage: nat, parse: Parser)
    requires ParserOk(parse)
    requires forall i :: 0 <= i < |r1 + r2| ==> ReadFits((r1 + r2)[i], |s.seg|)
    ensures forall i :: 0 <= i < |r1| ==> ReadFits(r1[i], |s.seg|)
    ensures forall i :: 0 <= i < |r2| ==> ReadFits(r2[i], |s.seg|)
    ensures Loop(s, r1 + r2, maxMessage, parse) == Loop(Loop(s, r1, maxMessage, parse), r2, maxMessage, parse)
    decreases |r1|
  {
    forall i | 0 <= i < |r1| ensures ReadFits(r1[i], |s.seg|) {
      assert r1[i] == (r1 + r2)[i];
    }
    forall i | 0 <= i < |r2| ensures ReadFits(r2[i], |s.seg|) {
      assert r2[i] == (r1 + r2)[|r1| + i];
    }
    if s.stop == Reading && s.remaining > 0 && r1 != [] {
      var t := Step(s, r1[0], maxMessage, parse);
      assert (r1 + r2)[0] == r1[0] && (r1 + r2)[1..] == r1[1..] + r2;
      LoopCases(s, r1 + r2, maxMessage, parse);
      LoopCases(s, r1, maxMessage, parse);
      LoopConcat(t, r1[1..], r2, maxMessage, parse);
    } else {
      LoopCases(s, r1 + r2, maxMessage, parse);
      LoopCases(s, r1, maxMessage, parse);
      if r1 == [] {
        assert r1 + r2 == r2;
      }
    }
  }

  // ---------------------------------------------------------------------
  // What the loop keeps
  // ---------------------------------------------------------------------

  /** Once the head is in, the bytes still expected and the bytes collected
      add up to the announced length `cl`, and a loop still reading has a
      cleared buffer. */
  predicate Tracks(s: Serving, cl: int) {
    !s.first ==> s.remaining + |s.message| == cl && (s.stop == Reading ==> AllZero(s.seg))
  }

  /** The loop holds a head whose `Content-Length` reads as a `long`. */
  predicate HasLength(s: Serving) {
    s.head.Some? && |s.head.value.headers.slots| > 0 && ContentLength(s.head.value).Some?
  }

  /** The length that head announces. */
  function Announced(s: Serving): (n: int)
    requires HasLength(s)
    ensures LongMin <= n <= LongMax
  {
    ContentLength(s.head.value).value
  }

  /** Every read delivers NUL-free bytes that fit the buffer. */
  predicate Plain(results: seq<Read>, segLen: nat) {
    forall i :: 0 <= i < |results| ==>
      ReadFits(results[i], segLen) && (results[i].Received? ==> NulFree(results[i].bytes))
  }

  lemma PlainTail(results: seq<Read>, segLen: nat)
    requires |results| > 0 && Plain(results, segLen)
    ensures Plain(results[1..], segLen)
  {
    forall i | 0 <= i < |results[1..]|
      ensures ReadFits(results[1..][i], segLen) && (results[1..][i].Received? ==> NulFree(results[1..][i].bytes))
    {
      assert results[1..][i] == results[i + 1];
    }
  }

  /** The concatenated bytes of the results that delivered some. */
  function Joined(results: seq<Read>): string
    decreases |results|
  {
    if results == [] then []
    else (if results[0].Received? then results[0].bytes else []) + Joined(results[1..])
  }

  /** The first segment either leaves the loop where it was or stops it, or
      parses a head announcing some length `cl` and sets up `Tracks` for it:
      the body part counts against the announced length. */
  lemma FirstTracks(s: Serving, r: Read, maxMessage: nat, parse: Parser)
    requires ParserOk(parse)
    requires s.first && s.stop == Reading && s.message == [] && ReadFits(r, |s.seg|)
    ensures var t := Step(s, r, maxMessage, parse);
            && (t.first ==> t.stop != Reading)
            && (!t.first ==> HasLength(t) && Tracks(t, Announced(t)) && t.remaining <= LongMax)
  {
    if r.Received? {
      var t := FirstSegment(s, Recv(s.seg, r), maxMessage, parse);
      if t.stop == Reading {
        RemainingSpec(t.head.value);
      }
    }
  }

  /** A later segment keeps `Tracks` and the head: the string appended is
      exactly the bytes received, and the count goes down by as many. */
  lemma NextTracks(s: Serving, r: Read, cl: int, maxMessage: nat, parse: Parser)
    requires ParserOk(parse)
    requires !s.first && s.stop == Reading && 0 < s.remaining <= LongMax && Tracks(s, cl)
    requires ReadFits(r, |s.seg|) && (r.Received? ==> NulFree(r.bytes)) && |s.seg| <= LongMax
    ensures var t := Step(s, r, maxMessage, parse);
            && Tracks(t, cl) && !t.first && t.head == s.head && t.remaining <= LongMax
            && (r.Received? && t.stop == Reading ==> t.message == s.message + r.bytes)
  {
    if r.Received? {
      AllZeroDrop(s.seg, |r.bytes|);
      CStrPadded(r.bytes, s.seg[|r.bytes|..]);
    }
  }

  /** After the head, the intended loop keeps `Tracks` and the head, and
      while it is still reading its message is what it started with plus
      every byte received. */
  lemma {:induction false} LoopTracks(s: Serving, results: seq<Read>, cl: int, maxMessage: nat, parse: Parser)
    requires ParserOk(parse)
    requires !s.first && Tracks(s, cl) && s.remaining <= LongMax
    requires Plain(results, |s.seg|) && |s.seg| <= LongMax
    ensures var t := Loop(s, results, maxMessage, parse);
            && Tracks(t, cl) && !t.first && t.head == s.head
            && (t.stop == Satisfied ==> s.stop == Satisfied || t.remaining <= 0)
            && (t.stop == Reading ==> t.message == s.message + Joined(results))
    decreases |results|
  {
    if s.stop == Reading && s.remaining > 0 && results != [] {
      var r := results[0];
      var t := Step(s, r, maxMessage, parse);
      NextTracks(s, r, cl, maxMessage, parse);
      PlainTail(results, |s.seg|);
      LoopTracks(t, results[1..], cl, maxMessage, parse);
      var u := Loop(t, results[1..], maxMessage, parse);
      LoopCases(s, results, maxMessage, parse);
      assert Loop(s, results, maxMessage, parse) == u;
      if u.stop == Reading {
        assert t.stop == Reading && r.Received?;
        calc {
          u.message;
          t.message + Joined(results[1..]);
          (s.message + r.bytes) + Joined(results[1..]);
          s.message + (r.bytes + Joined(results[1..]));
          s.message + Joined(results);
        }
      }
    } else {
      LoopCases(s, results, maxMessage, parse);
      assert results == [] ==> s.message + Joined(results) == s.message;
    }
  }

  /** The intended loop ends content-satisfied only after parsing a head,
      and then the message holds at least the `Content-Length` it
      announces. */
  lemma LoopSatisfied(results: seq<Read>, segLen: nat, maxMessage: nat, parse: Parser)
    requires ParserOk(parse)
    requires Plain(results, segLen) && segLen <= LongMax
    ensures var t := Loop(Start(segLen), results, maxMessage, parse);
            t.stop == Satisfied ==>
              !t.first && HasLength(t) && |t.message| >= Announced(t)
  {
    var s := Start(segLen);
    if results != [] {
      var t := Step(s, results[0], maxMessage, parse);
      FirstTracks(s, results[0], maxMessage, parse);
      PlainTail(results, segLen);
      assert Loop(s, results, maxMessage, parse) == Loop(t, results[1..], maxMessage, parse);
      if !t.first {
        LoopTracks(t, results[1..], Announced(t), maxMessage, parse);
      } else {
        assert Loop(t, results[1..], maxMessage, parse) == t;
      }
    } else {
      assert Loop(s, results, maxMessage, parse) == s;
    }
  }

  /** The same for `Serve`. */
  lemma ServeSatisfied(results: seq<Read>, segLen: nat, maxMessage: nat)
    requires Plain(results, segLen) && segLen <= LongMax
    ensures var t := Serve(results, segLen, maxMessage);
            t.stop == Satisfied ==>
              !t.first && HasLength(t) && |t.message| >= Announced(t)
  {
    ParseHeadOk();
    LoopSatisfied(results, segLen, maxMessage, Request.ParseHead);
  }

  /** As intended, a failed `recv` ends the loop. */
  lemma FailureStops(s: Serving, results: seq<Read>, maxMessage: nat, parse: Parser)
    requires ParserOk(parse)
    requires s.stop == Reading && s.remaining > 0 && |results| > 0 && results[0] == Failure
    requires forall i :: 0 <= i < |results| ==> ReadFits(results[i], |s.seg|)
    ensures Loop(s, results, maxMessage, parse) == s.(stop := Closed)
  {
  }

  // ---------------------------------------------------------------------
  // The loop as written
  // ---------------------------------------------------------------------

  /** As written, `recv` returning -1 passes the `read_size > 0` test as
      SIZE_MAX: the loop goes on, appends the (cleared) buffer's empty
      string and, through the wrap-around, expects one byte more. */
  lemma FailureContinuesAsWritten(s: Serving, maxMessage: nat, parse: Parser)
    requires ParserOk(parse)
    requires !s.first && s.stop == Reading && 0 < s.remaining < LongMax && AllZero(s.seg)
    requires |s.message| <= maxMessage
    ensures var t := StepAsWritten(s, Failure, maxMessage, parse);
            t.stop == Reading && t.message == s.message && t.remaining == s.remaining + 1
  {
    CStrPadded([], s.seg);
    assert [] + s.seg == s.seg;
  }

  /** The first segment of a request, as written and as intended: both
      parse the head and collect its body part; as written the received
      bytes stay in the buffer, as intended the buffer is cleared. */
  lemma HeadSegment(req: string, segLen: nat, maxMessage: nat, parse: Parser)
    requires ParserOk(parse)
    requires NulFree(req) && 0 < |req| <= segLen && parse(req).Ok?
    requires var head := parse(req).value;
             RemainingLen(head).err.None? && Response.BodyLen(head.bodyPart) <= maxMessage
    ensures var head := parse(req).value;
            var s1 := StepAsWritten(Start(segLen), Received(req), maxMessage, parse);
            && s1 == Serving(false, RemainingLen(head).value, Response.BodyText(head.bodyPart),
                             req + Zeros(segLen - |req|), Some(head), Reading)
            && Step(Start(segLen), Received(req), maxMessage, parse) == s1.(seg := Zeros(segLen))
  {
    var head := parse(req).value;
    var s0 := Start(segLen);
    var seg := Recv(s0.seg, Received(req));
    assert s0.seg[|req|..] == Zeros(segLen - |req|);
    assert seg == req + Zeros(segLen - |req|);
    CStrPadded(req, Zeros(segLen - |req|));
    assert CStr(seg) == req;
    var f := FirstSegment(s0, seg, maxMessage, parse);
    assert f == Serving(false, RemainingLen(head).value, Response.BodyText(head.bodyPart), seg, Some(head), Reading);
    assert StepAsWritten(s0, Received(req), maxMessage, parse) == f;
    assert Step(s0, Received(req), maxMessage, parse) == f.(seg := Zeros(segLen));
  }

  /** As written, the buffer still holds the first segment `req` when the
      next read arrives, so a shorter read `d` is appended together with the
      rest of `req`, and the count and the message no longer add up to the
      announced length `cl`: they overshoot it by `|req| - |d|`. (The
      intended loop clears the buffer; `NextTracks` is its counterpart.) */
  lemma ResidueAsWritten(s: Serving, req: string, d: string, cl: int, maxMessage: nat, parse: Parser)
    requires ParserOk(parse)
    requires !s.first && s.stop == Reading && |d| < s.remaining <= LongMax
    requires s.remaining + |s.message| == cl
    requires NulFree(req) && NulFree(d) && 0 < |d| < |req| <= |s.seg| <= LongMax
    requires s.seg == req + Zeros(|s.seg| - |req|)
    requires |s.message| + |req| <= maxMessage
    ensures var t := StepAsWritten(s, Received(d), maxMessage, parse);
            && t.stop == Reading && t.message == s.message + d + req[|d|..]
            && t.remaining + |t.message| == cl + (|req| - |d|)
            && !Tracks(t, cl)
  {
    var z := Zeros(|s.seg| - |req|);
    var residue := d + req[|d|..];
    assert Recv(s.seg, Received(d)) == residue + z;
    assert NulFree(residue);
    CStrPadded(residue, z);
  }
}

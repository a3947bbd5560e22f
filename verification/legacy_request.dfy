/**
 * `cws_request_parse` of the older cws_request.c: one function that cuts the
 * request line and the header lines out of the request text and reports the
 * first failure through an optional message slot.
 *
 * It differs from the staged parser of cws/cws_request.c: its messages are
 * its own, its URI parser only keeps a copy of the raw target, the headers
 * go into a four-slot open-addressing table of htable.c (so a repeated
 * header is refused and a fifth distinct one does not fit), the version
 * numbers are read as `int` and kept in bytes, and the body stays NULL.
 *
 * `cws_strdup_until`, whose source is not part of this model, is taken to
 * behave as `partial_strdup` does (`Strings.PartialStrdup`): the piece it
 * returns stops before the separator.
 */
module LegacyRequest {
  import opened Strings
  import HttpMethod
  import Str2Int
  import Request
  import LegacyTable

  /** The slot count `htable_alloc` is given for the header table. */
  const HeaderSlots: nat := 4

  const MethodMissingMsg: string := "HTTP method missing!"
  const MethodUnsupportedMsg: string := "Unsupported HTTP method!"
  const UriMissingMsg: string := "URI missing!"
  const VersionMalformedMsg: string := "HTTP version missing or malformed!"
  const VersionNonNumericMsg: string := "HTTP version major/minor non-numerical!"
  const MalformedHeaderMsg: string := "Malformed header in the request!"
  const DuplicateHeaderMsg: string := "Duplicate header in the request!"
  const TooManyHeadersMsg: string := "Too many headers in the request!"

  /** The older `cws_uri_t` as its `cws_uri_parse` fills it: a copy of the
      raw target, with the path and the query left NULL. */
  datatype Uri = Uri(raw: string)

  /** The older `cws_request_t`. The version fields are `uint8_t`. */
  datatype Req = Req(httpMethod: HttpMethod.Method, uri: Uri, headers: LegacyTable.Table<string>,
                     body: Option<string>, major: nat, minor: nat)

  /** The older `cws_uri_parse`: it never fails. */
  function UriParse(raw: string): (r: Result<Uri>)
    ensures r.Ok? && r.value.raw == raw
  {
    Ok(Uri(raw))
  }

  /** An `int` stored into a `uint8_t` field: reduced modulo 256. */
  function Byte(v: int): (b: nat)
    ensures b < 256 && (b - v) % 256 == 0
  {
    v % 256
  }

  /** The two lines that stop the header loop. */
  predicate IsStopLine(line: string) {
    line == "\n" || line == "\r\n"
  }

  // ---------------------------------------------------------------------
  // Parsing
  // ---------------------------------------------------------------------

  /** The method token, up to the first space. */
  function MethodPart(req: string): (r: Result<Request.At<HttpMethod.Method>>)
    ensures r == Err(MethodMissingMsg) <==> |req| == 0
    ensures r.Err? ==> r.msg == MethodMissingMsg || r.msg == MethodUnsupportedMsg
    ensures r.Ok? ==> 0 < r.value.next <= |req|
    ensures r.Ok? <==> |req| > 0 && HttpMethod.Parse(PartialStrdup(req, 0, " ").piece.value).Some?
    ensures r.Ok? ==> var token := PartialStrdup(req, 0, " ");
                      r.value == Request.At(HttpMethod.Parse(token.piece.value).value, token.next)
  {
    var token := PartialStrdup(req, 0, " ");
    if token.piece.None? then Err(MethodMissingMsg)
    else match HttpMethod.Parse(token.piece.value)
      case None => Err(MethodUnsupportedMsg)
      case Some(m) => Ok(Request.At(m, token.next))
  }

  /** The request target, up to the next space. */
  function UriPart(req: string, offs: nat): (r: Result<Request.At<Uri>>)
    ensures r.Err? <==> offs >= |req|
    ensures r.Err? ==> r.msg == UriMissingMsg
    ensures r.Ok? ==> offs < r.value.next <= |req|
    ensures r.Ok? ==> r.value.value.raw == PartialStrdup(req, offs, " ").piece.value
  {
    var token := PartialStrdup(req, offs, " ");
    if token.piece.None? then Err(UriMissingMsg)
    else match UriParse(token.piece.value)
      case Err(msg) => Err(msg)
      case Ok(u) => Ok(Request.At(u, token.next))
  }

  /** The rest of the line, skipped through its first `/` and cut at `.`;
      both parts are read by `str2int` and kept as bytes. When the line is
      missing, the skip is taken to leave the version offset alone and the
      cuts give NULL. */
  function VersionPart(req: string, offs: nat): (r: Result<Request.At<Request.Version>>)
    ensures r.Err? ==> r.msg == VersionMalformedMsg || r.msg == VersionNonNumericMsg
    ensures offs >= |req| ==> r == Err(VersionMalformedMsg)
    ensures r.Ok? ==> offs < r.value.next <= |req|
    ensures r.Ok? ==> r.value.value.major < 256 && r.value.value.minor < 256
  {
    var line := PartialStrdup(req, offs, "\n");
    if line.piece.None? then Err(VersionMalformedMsg)
    else
      var raw := line.piece.value;
      var start := PartialStrdup(raw, 0, "/").next;
      var major := PartialStrdup(raw, start, ".");
      var minor := PartialStrdup(raw, major.next, "\n");
      if major.piece.None? || minor.piece.None? then Err(VersionMalformedMsg)
      else
        var ma := Str2Int.Str2Int(major.piece.value);
        var mi := Str2Int.Str2Int(minor.piece.value);
        if !ma.Success? || !mi.Success? then Err(VersionNonNumericMsg)
        else Ok(Request.At(Request.Version(Byte(ma.value), Byte(mi.value)), line.next))
  }

  /** The header lines from `offs` up to a stop line or the end of the
      request: the reference the header table is measured against. */
  function Lines(req: string, offs: nat): (r: Result<seq<Request.Header>>)
    ensures r.Err? ==> r.msg == MalformedHeaderMsg
    decreases |req| - offs
  {
    var line := PartialStrdup(req, offs, "\n");
    if line.piece.None? || IsStopLine(line.piece.value) then Ok([])
    else match Request.SplitHeader(line.piece.value)
      case None => Err(MalformedHeaderMsg)
      case Some(h) =>
        var rest :- Lines(req, line.next);
        Ok([h] + rest)
  }

  /** The header loop from `offs` into table `t`: each line is cut at `": "`
      into key and value and inserted; a repeated key or a full table ends
      the parse. */
  function HeaderLoop(req: string, offs: nat, t: LegacyTable.Table<string>): (r: Result<LegacyTable.Table<string>>)
    requires |t.slots| > 0
    ensures r.Err? ==> r.msg in {MalformedHeaderMsg, DuplicateHeaderMsg, TooManyHeadersMsg}
    ensures r.Ok? ==> |r.value.slots| == |t.slots|
    decreases |req| - offs
  {
    var line := PartialStrdup(req, offs, "\n");
    if line.piece.None? || IsStopLine(line.piece.value) then Ok(t)
    else match Request.SplitHeader(line.piece.value)
      case None => Err(MalformedHeaderMsg)
      case Some(h) =>
        var ins := LegacyTable.Insert(t, h.key, h.value);
        if ins.status == LegacyTable.KeyAlreadyExists then Err(DuplicateHeaderMsg)
        else if ins.status == LegacyTable.Full then Err(TooManyHeadersMsg)
        else HeaderLoop(req, line.next, ins.table)
  }

  /** `cws_request_parse` with the message slot present: the first failure
      is the result. */
  function Parse(req: string): (r: Result<Req>)
    ensures MethodPart(req).Err? ==> r == Err(MethodPart(req).msg)
    ensures r.Ok? ==> MethodPart(req).Ok? && r.value.httpMethod == MethodPart(req).value.value
    ensures r.Ok? ==> r.value.body.None? && r.value.major < 256 && r.value.minor < 256
    ensures r.Ok? ==> |r.value.headers.slots| == HeaderSlots
  {
    var m :- MethodPart(req);
    var u :- UriPart(req, m.next);
    var v :- VersionPart(req, u.next);
    var headers :- HeaderLoop(req, v.next, LegacyTable.Alloc(HeaderSlots));
    Ok(Req(m.value, u.value, headers, None, v.value.major, v.value.minor))
  }

  /** The parse against its parts: once the earlier parts succeed, a failing
      URI, version or header part is the result; the parse succeeds exactly
      when every part does and the header lines all fit the four-slot table,
      and the request then holds each part's product. */
  lemma ParseSpec(req: string)
    ensures MethodPart(req).Ok? ==>
              var m := MethodPart(req).value;
              && (UriPart(req, m.next).Err? ==> Parse(req) == Err(UriPart(req, m.next).msg))
              && (UriPart(req, m.next).Ok? ==>
                    var u := UriPart(req, m.next).value;
                    && (VersionPart(req, u.next).Err? ==> Parse(req) == Err(VersionPart(req, u.next).msg))
                    && (VersionPart(req, u.next).Ok? ==>
                          var v := VersionPart(req, u.next).value;
                          var loop := HeaderLoop(req, v.next, LegacyTable.Alloc(HeaderSlots));
                          && (loop.Err? ==> Parse(req) == Err(loop.msg))
                          && (loop.Ok? <==> Lines(req, v.next).Ok? && Fits(LegacyTable.Alloc(HeaderSlots), Lines(req, v.next).value))
                          && (loop.Ok? ==>
                                Parse(req) == Ok(Req(m.value, u.value, loop.value, None, v.value.major, v.value.minor)))))
    ensures Parse(req).Ok? ==>
              && MethodPart(req).Ok?
              && UriPart(req, MethodPart(req).value.next).Ok?
              && VersionPart(req, UriPart(req, MethodPart(req).value.next).value.next).Ok?
  {
    var m := MethodPart(req);
    if m.Ok? {
      var u := UriPart(req, m.value.next);
      if u.Err? {
        assert Parse(req) == Err(u.msg);
      } else {
        var v := VersionPart(req, u.value.next);
        if v.Err? {
          assert Parse(req) == Err(v.msg);
        } else {
          var t := LegacyTable.Alloc<string>(HeaderSlots);
          LegacyTable.AllocEmpty<string>(HeaderSlots, "");
          HeaderLoopSpec(req, v.value.next, t);
          var loop := HeaderLoop(req, v.value.next, t);
          if loop.Err? {
            assert Parse(req) == Err(loop.msg);
          } else {
            assert Parse(req) == Ok(Req(m.value.value, u.value.value, loop.value, None, v.value.value.major, v.value.value.minor));
          }
        }
      }
    }
  }

  /** What a call hands back: the request (NULL on failure) and the message
      slot afterwards. `slot` is `None` when `error_msg` is NULL, otherwise
      it carries the message `*error_msg` points at. */
  datatype Outcome = Outcome(request: Option<Req>, slot: Option<Option<string>>)

  /** `cws_request_parse(request, error_msg)`: on failure the message is
      written through `error_msg` only when that pointer is not NULL. */
  function ParseReporting(req: string, slot: Option<Option<string>>): (r: Outcome)
    ensures r.request.Some? <==> Parse(req).Ok?
    ensures r.request.Some? ==> r.request.value == Parse(req).value
    ensures slot.None? || Parse(req).Ok? ==> r.slot == slot
    ensures slot.Some? && Parse(req).Err? ==> r.slot == Some(Some(Parse(req).msg))
  {
    match Parse(req)
    case Ok(q) => Outcome(Some(q), slot)
    case Err(msg) => Outcome(None, if slot.None? then None else Some(Some(msg)))
  }

  // ---------------------------------------------------------------------
  // What the header table holds
  // ---------------------------------------------------------------------

  predicate DistinctNames(hs: seq<Request.Header>) {
    forall i1, i2 :: 0 <= i1 < i2 < |hs| ==> hs[i1].key != hs[i2].key
  }

  /** The header lines can all go into `t`: their keys differ from each
      other and from every key `t` holds, and `t` has a free slot for each. */
  ghost predicate Fits(t: LegacyTable.Table<string>, hs: seq<Request.Header>) {
    && DistinctNames(hs)
    && (forall i :: 0 <= i < |hs| ==> !LegacyTable.Stored(t, hs[i].key))
    && LegacyTable.Occupied(t.slots) + |hs| <= |t.slots|
  }

  /** After inserting the first header line, the rest fit into the new table
      exactly when all of them fit into the old one. */
  lemma FitsCons(t: LegacyTable.Table<string>, u: LegacyTable.Table<string>, h: Request.Header, rest: seq<Request.Header>)
    requires !LegacyTable.Stored(t, h.key)
    requires LegacyTable.Occupied(u.slots) == LegacyTable.Occupied(t.slots) + 1
    requires |u.slots| == |t.slots|
    requires forall k :: LegacyTable.Stored(u, k) <==> LegacyTable.Stored(t, k) || k == h.key
    ensures Fits(t, [h] + rest) <==> Fits(u, rest)
  {
    var hs := [h] + rest;
    if Fits(u, rest) {
      forall i1, i2 | 0 <= i1 < i2 < |hs|
        ensures hs[i1].key != hs[i2].key
      {
        assert hs[i2] == rest[i2 - 1];
        if i1 > 0 {
          assert hs[i1] == rest[i1 - 1];
        }
      }
      forall i | 0 <= i < |hs|
        ensures !LegacyTable.Stored(t, hs[i].key)
      {
        if i > 0 {
          assert hs[i] == rest[i - 1];
        }
      }
    }
    if Fits(t, hs) {
      forall i | 0 <= i < |rest|
        ensures !LegacyTable.Stored(u, rest[i].key)
      {
        assert rest[i] == hs[i + 1];
        assert hs[0].key != hs[i + 1].key;
        assert !LegacyTable.Stored(t, hs[i + 1].key);
      }
      assert DistinctNames(rest) by {
        forall i1, i2 | 0 <= i1 < i2 < |rest|
          ensures rest[i1].key != rest[i2].key
        {
          assert rest[i1] == hs[i1 + 1] && rest[i2] == hs[i2 + 1];
        }
      }
    }
  }

  /** What a successful insert of a header line does to a valid table. */
  lemma InsertedHeader(t: LegacyTable.Table<string>, h: Request.Header)
    requires LegacyTable.Valid(t) && LegacyTable.Insert(t, h.key, h.value).status == LegacyTable.Success
    ensures var u := LegacyTable.Insert(t, h.key, h.value).table;
            && LegacyTable.Valid(u)
            && !LegacyTable.Stored(t, h.key)
            && LegacyTable.Occupied(u.slots) == LegacyTable.Occupied(t.slots) + 1
            && (forall k :: LegacyTable.Stored(u, k) <==> LegacyTable.Stored(t, k) || k == h.key)
            && forall k, v :: LegacyTable.Has(u, k, v) <==> LegacyTable.Has(t, k, v) || Request.Header(k, v) == h
  {
    LegacyTable.InsertStatus(t, h.key, h.value);
    LegacyTable.InsertValid(t, h.key, h.value);
    LegacyTable.InsertStored(t, h.key, h.value, h.key);
    forall k {
      LegacyTable.InsertStored(t, h.key, h.value, k);
    }
    forall k, v {
      LegacyTable.InsertHas(t, h.key, h.value, k, v);
    }
  }

  /** The header loop succeeds exactly when every line up to the stop line
      is well formed and all of them fit; the table then keeps the invariant
      and holds what it held before plus exactly the header lines. */
  lemma {:induction false} HeaderLoopSpec(req: string, offs: nat, t: LegacyTable.Table<string>)
    requires LegacyTable.Valid(t)
    ensures HeaderLoop(req, offs, t).Ok? <==> Lines(req, offs).Ok? && Fits(t, Lines(req, offs).value)
    ensures HeaderLoop(req, offs, t).Ok? ==>
      && LegacyTable.Valid(HeaderLoop(req, offs, t).value)
      && forall k, v :: LegacyTable.Has(HeaderLoop(req, offs, t).value, k, v) <==>
           LegacyTable.Has(t, k, v) || Request.Header(k, v) in Lines(req, offs).value
    decreases |req| - offs, 1
  {
    var line := PartialStrdup(req, offs, "\n");
    LegacyTable.OccupiedBound(t.slots);
    if line.piece.None? || IsStopLine(line.piece.value) {
      assert Lines(req, offs) == Ok([]);
    } else if Request.SplitHeader(line.piece.value).Some? {
      var h := Request.SplitHeader(line.piece.value).value;
      var ins := LegacyTable.Insert(t, h.key, h.value);
      LegacyTable.InsertStatus(t, h.key, h.value);
      if ins.status == LegacyTable.Success {
        HeaderLoopStep(req, offs, t);
      } else if Lines(req, offs).Ok? {
        // The line is refused, so the lines cannot all fit.
        var hs := Lines(req, offs).value;
        assert hs[0] == h;
        if ins.status == LegacyTable.Full {
          assert LegacyTable.Occupied(t.slots) == |t.slots|;
        } else {
          assert LegacyTable.Stored(t, hs[0].key);
        }
      }
    }
  }

  /** The step of `HeaderLoopSpec` where the line's header goes in. */
  lemma {:induction false} HeaderLoopStep(req: string, offs: nat, t: LegacyTable.Table<string>)
    requires LegacyTable.Valid(t)
    requires PartialStrdup(req, offs, "\n").piece.Some?
    requires !IsStopLine(PartialStrdup(req, offs, "\n").piece.value)
    requires Request.SplitHeader(PartialStrdup(req, offs, "\n").piece.value).Some?
    requires var h := Request.SplitHeader(PartialStrdup(req, offs, "\n").piece.value).value;
             LegacyTable.Insert(t, h.key, h.value).status == LegacyTable.Success
    ensures HeaderLoop(req, offs, t).Ok? <==> Lines(req, offs).Ok? && Fits(t, Lines(req, offs).value)
    ensures HeaderLoop(req, offs, t).Ok? ==>
      && LegacyTable.Valid(HeaderLoop(req, offs, t).value)
      && forall k, v :: LegacyTable.Has(HeaderLoop(req, offs, t).value, k, v) <==>
           LegacyTable.Has(t, k, v) || Request.Header(k, v) in Lines(req, offs).value
    decreases |req| - offs, 0
  {
    var line := PartialStrdup(req, offs, "\n");
    var h := Request.SplitHeader(line.piece.value).value;
    var u := LegacyTable.Insert(t, h.key, h.value).table;
    InsertedHeader(t, h);
    assert HeaderLoop(req, offs, t) == HeaderLoop(req, line.next, u);
    HeaderLoopSpec(req, line.next, u);
    if Lines(req, line.next).Ok? {
      var rest := Lines(req, line.next).value;
      assert Lines(req, offs) == Ok([h] + rest);
      FitsCons(t, u, h, rest);
      forall k, v
        ensures Request.Header(k, v) in [h] + rest <==> Request.Header(k, v) == h || Request.Header(k, v) in rest
      {
      }
    } else {
      assert Lines(req, offs).Err?;
    }
  }

  /** A successful parse: the method is the first token's, the URI keeps the
      second token, the version bytes are the two numbers modulo 256, the
      header table holds exactly the header lines (all with distinct keys,
      at most four), and the body is NULL. */
  lemma ParseOk(req: string)
    requires Parse(req).Ok?
    ensures var q := Parse(req).value;
            var m := MethodPart(req).value;
            var u := UriPart(req, m.next).value;
            var v := VersionPart(req, u.next).value;
            && q.uri == u.value
            && q.major == v.value.major && q.minor == v.value.minor
            && LegacyTable.Valid(q.headers)
            && Lines(req, v.next).Ok?
            && DistinctNames(Lines(req, v.next).value)
            && |Lines(req, v.next).value| <= HeaderSlots
            && forall k, w :: LegacyTable.Has(q.headers, k, w) <==> Request.Header(k, w) in Lines(req, v.next).value
  {
    var m := MethodPart(req).value;
    var u := UriPart(req, m.next).value;
    var v := VersionPart(req, u.next).value;
    var t := LegacyTable.Alloc<string>(HeaderSlots);
    LegacyTable.AllocEmpty<string>(HeaderSlots, "");
    HeaderLoopSpec(req, v.next, t);
  }

  // ---------------------------------------------------------------------
  // How the header loop ends
  // ---------------------------------------------------------------------

  /** A line cut at `"\n"` never contains one, so the stop test never
      matches: the loop ends only at the end of the request. */
  lemma NoStopLine(req: string, offs: nat)
    requires offs < |req|
    ensures !IsStopLine(PartialStrdup(req, offs, "\n").piece.value)
  {
    var line := PartialStrdup(req, offs, "\n").piece.value;
    if IsStopLine(line) {
      assert OccursAt(req, "\n", offs + |line| - 1) by {
        assert req[offs..offs + |line|] == line;
        assert req[offs + |line| - 1] == '\n';
        assert req[offs + |line| - 1..offs + |line|] == "\n";
      }
    }
  }

  /** An empty line (the one a header block ends with under LF line ends)
      is not a stop line: its key cut finds nothing, so it is a malformed
      header. */
  lemma EmptyLineMalformed(req: string, offs: nat, t: LegacyTable.Table<string>)
    requires |t.slots| > 0 && offs < |req| && req[offs] == '\n'
    ensures HeaderLoop(req, offs, t) == Err(MalformedHeaderMsg)
  {
    assert OccursAt(req, "\n", offs) by {
      assert req[offs..offs + 1] == "\n";
    }
    CutAt(req, offs, "\n", offs);
  }

  /** The blank line of CRLF line ends leaves `"\r"`: the key cut takes it
      whole and the value cut finds nothing, so it is a malformed header. */
  lemma CrLineMalformed(req: string, offs: nat, t: LegacyTable.Table<string>)
    requires |t.slots| > 0 && offs + 1 < |req| && req[offs] == '\r' && req[offs + 1] == '\n'
    ensures HeaderLoop(req, offs, t) == Err(MalformedHeaderMsg)
  {
    assert OccursAt(req, "\n", offs + 1) by {
      assert req[offs + 1..offs + 2] == "\n";
    }
    assert !OccursAt(req, "\n", offs);
    CutAt(req, offs, "\n", offs + 1);
    var line := req[offs..offs + 1];
    assert line == "\r";
    assert !OccursAt(line, ": ", 0);
    CutRest(line, 0, ": ");
  }
}

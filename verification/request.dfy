/**
 * `cws_request_head_parse` (cws/cws_request.c): five stages run left to right
 * over one cursor into the request text (method, URI, version, headers, body
 * remainder), and the first stage that fails ends the parse with its
 * message. This is the request-line and header-field layout of sections 3
 * and 5 of RFC 9112, with the line ends the code looks for.
 *
 * Every stage reports through `rp_exit` with a place for the message, which
 * makes `rp_exit` a plain guard (`Common.RpExitIsGuard`); a stage is modelled
 * as a `Result` carrying its product and the advanced cursor.
 */
module Request {
  import opened Strings
  import opened Decimal
  import HTable
  import HttpMethod
  import Uri
  import Str2Int

  /** CWS_MAX_NUM_HEADERS */
  const MaxNumHeaders: nat := 64
  /** Slot count of the header table. */
  const HeaderSlots: nat := 16

  const MethodMissingMsg: string := "HTTP method missing!"
  const MethodUnsupportedMsg: string := "Unsupported HTTP method!"
  const UriMissingMsg: string := "URI missing!"
  const UriInvalidMsg: string := "Could not parse the URI!"
  const VersionMissingMsg: string := "HTTP version missing!"
  const MajorMissingMsg: string := "Major HTTP version missing!"
  const MinorMissingMsg: string := "Minor HTTP version missing!"
  const VersionNonNumericMsg: string := "HTTP version major/minor non-numerical!"
  const MalformedHeaderMsg: string := "Malformed header!"
  const DuplicateHeaderMsg: string := "Duplicate header in request!"
  const TooManyHeadersMsg: string := "Too many headers (max=64)!"

  /** A stage's product and the cursor after it. */
  datatype At<T> = At(value: T, next: nat)

  datatype Version = Version(major: int, minor: int)

  /** One `key: value` header line. */
  datatype Header = Header(key: string, value: string)

  /** `cws_request_head_t` */
  datatype Head = Head(httpMethod: HttpMethod.Method, uri: Uri.Uri, version: Version,
                       headers: HTable.Table<string>, bodyPart: Option<string>)

  // ---------------------------------------------------------------------
  // Stages
  // ---------------------------------------------------------------------

  /** `ps_http_method`: the token up to the first space names the method. */
  function MethodStage(req: string, offs: nat): (r: Result<At<HttpMethod.Method>>)
    ensures r == Err(MethodMissingMsg) <==> offs >= |req|
    ensures r.Err? && offs < |req| ==> r.msg == MethodUnsupportedMsg
    ensures r.Ok? ==> offs < r.value.next <= |req|
    ensures r.Ok? <==> offs < |req| && HttpMethod.Parse(PartialStrdup(req, offs, " ").piece.value).Some?
    ensures r.Ok? ==> var token := PartialStrdup(req, offs, " ");
                      r.value == At(HttpMethod.Parse(token.piece.value).value, token.next)
  {
    var token := PartialStrdup(req, offs, " ");
    if token.piece.None? then Err(MethodMissingMsg)
    else match HttpMethod.Parse(token.piece.value)
      case None => Err(MethodUnsupportedMsg)
      case Some(m) => Ok(At(m, token.next))
  }

  /** `ps_uri`: the token up to the next space is the request target. When
      the URI parser fails, its message is overwritten. */
  function UriStage(req: string, offs: nat): (r: Result<At<Uri.Uri>>)
    ensures r == Err(UriMissingMsg) <==> offs >= |req|
    ensures r.Err? && offs < |req| ==> r.msg == UriInvalidMsg
    ensures r.Ok? ==> offs < r.value.next <= |req|
    ensures r.Ok? <==> offs < |req| && Uri.Parse(PartialStrdup(req, offs, " ").piece.value).Ok?
    ensures r.Ok? ==> var token := PartialStrdup(req, offs, " ");
                      r.value == At(Uri.Parse(token.piece.value).value, token.next)
  {
    var token := PartialStrdup(req, offs, " ");
    if token.piece.None? then Err(UriMissingMsg)
    else match Uri.Parse(token.piece.value)
      case Err(_) => Err(UriInvalidMsg)
      case Ok(u) => Ok(At(u, token.next))
  }

  /** The line a version stage at `offs` reads: the text up to the next
      newline. */
  function VersionLine(req: string, offs: nat): (r: string)
    requires offs < |req|
    ensures |r| <= |req| - offs && r == req[offs..offs + |r|]
  {
    PartialStrdup(req, offs, "\n").piece.value
  }

  /** The major-version cut of a version line: past its first `/`, up to
      the next `.`. */
  function MajorCut(raw: string): Cut {
    PartialStrdup(raw, PartialStrdup(raw, 0, "/").next, ".")
  }

  /** The minor-version cut: past the major one, up to a newline, which the
      line no longer holds, so the rest of the line. */
  function MinorCut(raw: string): Cut {
    PartialStrdup(raw, MajorCut(raw).next, "\n")
  }

  /** Both cuts of a version line find text. */
  predicate HasVersionFields(raw: string) {
    MajorCut(raw).piece.Some? && MinorCut(raw).piece.Some?
  }

  /** Both fields of a version line read as `long`s. */
  predicate NumericVersion(raw: string) {
    && HasVersionFields(raw)
    && Str2Int.LongParse(MajorCut(raw).piece.value).Success?
    && Str2Int.LongParse(MinorCut(raw).piece.value).Success?
  }

  /** `ps_http_version`: the rest of the line, skipped through its first `/`,
      cut at `.` into major and minor, both read by `longp`. */
  function VersionStage(req: string, offs: nat): (r: Result<At<Version>>)
    ensures r == Err(VersionMissingMsg) <==> offs >= |req|
    ensures r == Err(MajorMissingMsg) <==> offs < |req| && MajorCut(VersionLine(req, offs)).piece.None?
    ensures r == Err(MinorMissingMsg) <==>
              offs < |req| && MajorCut(VersionLine(req, offs)).piece.Some? &&
              MinorCut(VersionLine(req, offs)).piece.None?
    ensures r == Err(VersionNonNumericMsg) <==>
              offs < |req| && HasVersionFields(VersionLine(req, offs)) && !NumericVersion(VersionLine(req, offs))
    ensures r.Ok? <==> offs < |req| && NumericVersion(VersionLine(req, offs))
    ensures r.Ok? ==> var raw := VersionLine(req, offs);
                      && r.value.value.major == Str2Int.SignedValue(MajorCut(raw).piece.value)
                      && r.value.value.minor == Str2Int.SignedValue(MinorCut(raw).piece.value)
                      && r.value.next == PartialStrdup(req, offs, "\n").next
    ensures r.Ok? ==> offs < r.value.next <= |req|
    ensures r.Ok? ==> Str2Int.LongMin <= r.value.value.major <= Str2Int.LongMax
    ensures r.Ok? ==> Str2Int.LongMin <= r.value.value.minor <= Str2Int.LongMax
  {
    var line := PartialStrdup(req, offs, "\n");
    if line.piece.None? then Err(VersionMissingMsg)
    else
      var raw := line.piece.value;
      var major := MajorCut(raw);
      if major.piece.None? then Err(MajorMissingMsg)
      else
        var minor := MinorCut(raw);
        if minor.piece.None? then Err(MinorMissingMsg)
        else
          var ma := Str2Int.LongParse(major.piece.value);
          var mi := Str2Int.LongParse(minor.piece.value);
          if !ma.Success? || !mi.Success? then Err(VersionNonNumericMsg)
          else Ok(At(Version(ma.value, mi.value), line.next))
  }

  /** The lines that end the header block. */
  predicate IsBlankLine(line: string) {
    line == "" || line == "\n" || line == "\r\n"
  }

  /** The two cuts of a header line: the key runs up to the first `": "`, the
      value up to the next newline. */
  function SplitHeader(line: string): (r: Option<Header>)
    ensures r.Some? ==> |r.value.key| + 2 + |r.value.value| <= |line|
    ensures r.Some? ==> line[..|r.value.key| + 2] == r.value.key + ": "
  {
    var key := PartialStrdup(line, 0, ": ");
    var value := PartialStrdup(line, key.next, "\n");
    if key.piece.None? || value.piece.None? then None
    else
      KeyCut(line);
      Some(Header(key.piece.value, value.piece.value))
  }

  lemma KeyCut(line: string)
    requires PartialStrdup(line, 0, ": ").next < |line|
    ensures var c := PartialStrdup(line, 0, ": ");
            c.piece.Some? && c.next == |c.piece.value| + 2 && line[..c.next] == c.piece.value + ": "
  {
    var c := PartialStrdup(line, 0, ": ");
    assert line[0..c.next] == line[..c.next];
  }

  /** The header lines from `offs` to the end of the block, and the cursor
      after it: the reference the header table is measured against. */
  function HeaderLines(req: string, offs: nat): (r: Result<At<seq<Header>>>)
    ensures r.Err? ==> r.msg == MalformedHeaderMsg
    decreases |req| - offs
  {
    var line := PartialStrdup(req, offs, "\n");
    if line.piece.None? then Ok(At([], offs))
    else if IsBlankLine(line.piece.value) then Ok(At([], line.next))
    else match SplitHeader(line.piece.value)
      case None => Err(MalformedHeaderMsg)
      case Some(h) =>
        var rest :- HeaderLines(req, line.next);
        Ok(At([h] + rest.value, rest.next))
  }

  /** The loop of `ps_headers` from `offs` into table `t`. An over-long key
      (KEY_TOO_LONG) is ignored; `insert` never reports
      KEY_ALREADY_EXISTS, so the duplicate check never fires. */
  function HeaderLoop(req: string, offs: nat, t: HTable.Table<string>): (r: Result<At<HTable.Table<string>>>)
    requires |t.slots| > 0
    ensures r.Err? ==> r.msg == MalformedHeaderMsg || r.msg == TooManyHeadersMsg
    ensures r.Ok? ==> |r.value.value.slots| == |t.slots| && r.value.value.itemCap == t.itemCap
    decreases |req| - offs
  {
    var line := PartialStrdup(req, offs, "\n");
    if line.piece.None? then Ok(At(t, offs))
    else if IsBlankLine(line.piece.value) then Ok(At(t, line.next))
    else match SplitHeader(line.piece.value)
      case None => Err(MalformedHeaderMsg)
      case Some(h) =>
        var ins := HTable.Insert(t, h.key, Some(h.value));
        if ins.status == HTable.KeyAlreadyExists then Err(DuplicateHeaderMsg)
        else if ins.status == HTable.Full then Err(TooManyHeadersMsg)
        else HeaderLoop(req, line.next, ins.table)
  }

  /** `ps_headers`: a table of 16 slots for at most 64 headers. */
  function HeadersStage(req: string, offs: nat): (r: Result<At<HTable.Table<string>>>)
    ensures r.Ok? ==> HTable.Valid(r.value.value) && r.value.value.itemCap == MaxNumHeaders
    ensures r.Ok? <==> HeaderLines(req, offs).Ok? && Fits(0, MaxNumHeaders, HeaderLines(req, offs).value.value)
    ensures r.Ok? ==> r.value.next == HeaderLines(req, offs).value.next
    ensures r.Ok? ==> HTable.View(r.value.value) == Apply(map[], HeaderLines(req, offs).value.value)
  {
    var t := HTable.Make<string>(HeaderSlots, MaxNumHeaders);
    HeaderLoopOk(req, offs, t);
    HeaderLoopView(req, offs, t);
    HeaderLoop(req, offs, t)
  }

  /** `ps_body_part`: the unread rest of the request, verbatim (NULL when
      nothing is left). */
  function BodyStage(req: string, offs: nat): (r: Option<string>)
    ensures r.None? <==> offs >= |req|
    ensures r.Some? ==> req == req[..offs] + r.value
  {
    PartialStrdup(req, offs, "").piece
  }

  /** `cws_request_head_parse`: the stages in order; the first failure is the
      result. */
  function ParseHead(req: string): (r: Result<Head>)
    ensures MethodStage(req, 0).Err? ==> r == Err(MethodStage(req, 0).msg)
    ensures r.Ok? ==> MethodStage(req, 0).Ok? && r.value.httpMethod == MethodStage(req, 0).value.value
    ensures r.Ok? ==> UriStage(req, MethodStage(req, 0).value.next).Ok?
    ensures r.Err? ==> r.msg != DuplicateHeaderMsg
    ensures r.Ok? ==> HTable.Valid(r.value.headers)
  {
    var m :- MethodStage(req, 0);
    var u :- UriStage(req, m.next);
    var v :- VersionStage(req, u.next);
    var h :- HeadersStage(req, v.next);
    Ok(Head(m.value, u.value, v.value, h.value, BodyStage(req, h.next)))
  }

  // ---------------------------------------------------------------------
  // What the header table means
  // ---------------------------------------------------------------------

  /** Later headers override earlier ones; an over-long key is dropped. */
  function Apply(m: map<string, string>, hs: seq<Header>): map<string, string>
    decreases |hs|
  {
    if hs == [] then m
    else Apply(if |hs[0].key| <= HTable.MaxKeyLen then m[hs[0].key := hs[0].value] else m, hs[1..])
  }

  /** No header arrives while the table already holds `cap` entries: `n`
      counts the entries, and only keys within the limit are stored. */
  predicate Fits(n: nat, cap: nat, hs: seq<Header>)
    decreases |hs|
  {
    hs == [] || (n < cap && Fits(if |hs[0].key| <= HTable.MaxKeyLen then n + 1 else n, cap, hs[1..]))
  }

  /** The header loop succeeds exactly when every line is well formed and no
      header arrives at a full table. */
  lemma {:induction false} HeaderLoopOk(req: string, offs: nat, t: HTable.Table<string>)
    requires |t.slots| > 0
    ensures HeaderLoop(req, offs, t).Ok? <==>
              HeaderLines(req, offs).Ok? && Fits(t.itemCount, t.itemCap, HeaderLines(req, offs).value.value)
    ensures HeaderLoop(req, offs, t).Ok? ==> HeaderLoop(req, offs, t).value.next == HeaderLines(req, offs).value.next
    decreases |req| - offs
  {
    var line := PartialStrdup(req, offs, "\n");
    if line.piece.None? || IsBlankLine(line.piece.value) {
      assert HeaderLines(req, offs).Ok? && HeaderLines(req, offs).value.value == [];
    } else if SplitHeader(line.piece.value).None? {
      assert HeaderLines(req, offs).Err?;
    } else {
      var h := SplitHeader(line.piece.value).value;
      var ins := HTable.Insert(t, h.key, Some(h.value));
      HeaderLinesCons(req, offs, h);
      HeaderLoopCons(req, offs, t, h);
      InsertCount(t, h.key, h.value);
      var rest := HeaderLines(req, line.next);
      var next := if |h.key| <= HTable.MaxKeyLen then t.itemCount + 1 else t.itemCount;
      var hs := if rest.Ok? then rest.value.value else [];
      FitsCons(t.itemCount, t.itemCap, h, hs, next);
      HeaderLoopOk(req, line.next, ins.table);
      LoopOkGlue(HeaderLines(req, offs), rest, HeaderLoop(req, offs, t), HeaderLoop(req, line.next, ins.table),
                 ins.status == HTable.Full, t.itemCount, t.itemCap, next, ins.table.itemCount, ins.table.itemCap, h);
    }
  }

  /** The induction step of `HeaderLoopOk`, over the values involved. */
  lemma LoopOkGlue(lines: Result<At<seq<Header>>>, rest: Result<At<seq<Header>>>,
                   loop: Result<At<HTable.Table<string>>>, loopRest: Result<At<HTable.Table<string>>>,
                   full: bool, n: nat, cap: nat, next: nat, n': nat, cap': nat, h: Header)
    requires lines.Ok? <==> rest.Ok?
    requires rest.Ok? ==> lines.value == At([h] + rest.value.value, rest.value.next)
    requires full ==> loop.Err?
    requires !full ==> loop == loopRest && cap' == cap
    requires full <==> n >= cap
    requires rest.Ok? ==> (Fits(n, cap, [h] + rest.value.value) <==> n < cap && Fits(next, cap, rest.value.value))
    requires !full ==> n' == next
    requires loopRest.Ok? <==> rest.Ok? && Fits(n', cap', rest.value.value)
    requires loopRest.Ok? ==> loopRest.value.next == rest.value.next
    ensures loop.Ok? <==> lines.Ok? && Fits(n, cap, lines.value.value)
    ensures loop.Ok? ==> loop.value.next == lines.value.next
  {
  }

  /** A header line followed by the rest of the block. */
  lemma HeaderLinesCons(req: string, offs: nat, h: Header)
    requires PartialStrdup(req, offs, "\n").piece.Some?
    requires !IsBlankLine(PartialStrdup(req, offs, "\n").piece.value)
    requires SplitHeader(PartialStrdup(req, offs, "\n").piece.value) == Some(h)
    ensures var rest := HeaderLines(req, PartialStrdup(req, offs, "\n").next);
            && (HeaderLines(req, offs).Ok? <==> rest.Ok?)
            && (rest.Ok? ==> HeaderLines(req, offs).value == At([h] + rest.value.value, rest.value.next))
  {
  }

  /** One pass of the header loop on a well-formed line. */
  lemma HeaderLoopCons(req: string, offs: nat, t: HTable.Table<string>, h: Header)
    requires |t.slots| > 0
    requires PartialStrdup(req, offs, "\n").piece.Some?
    requires !IsBlankLine(PartialStrdup(req, offs, "\n").piece.value)
    requires SplitHeader(PartialStrdup(req, offs, "\n").piece.value) == Some(h)
    ensures var ins := HTable.Insert(t, h.key, Some(h.value));
            && (ins.status == HTable.Full ==> HeaderLoop(req, offs, t) == Err(TooManyHeadersMsg))
            && (ins.status != HTable.Full ==>
                  HeaderLoop(req, offs, t) == HeaderLoop(req, PartialStrdup(req, offs, "\n").next, ins.table))
  {
  }

  /** What an insert of a present value does to the counter. */
  lemma InsertCount(t: HTable.Table<string>, key: string, v: string)
    requires |t.slots| > 0
    ensures var ins := HTable.Insert(t, key, Some(v));
            && (ins.status == HTable.Full <==> t.itemCount >= t.itemCap)
            && (ins.status != HTable.Full ==>
                  && |ins.table.slots| == |t.slots| && ins.table.itemCap == t.itemCap
                  && ins.table.itemCount == if |key| <= HTable.MaxKeyLen then t.itemCount + 1 else t.itemCount)
  {
  }

  lemma FitsCons(n: nat, cap: nat, h: Header, rest: seq<Header>, next: nat)
    requires next == if |h.key| <= HTable.MaxKeyLen then n + 1 else n
    ensures Fits(n, cap, [h] + rest) <==> n < cap && Fits(next, cap, rest)
  {
    assert ([h] + rest)[1..] == rest;
  }

  /** The header table of a successful loop is `Apply` of its lines. */
  lemma {:induction false} HeaderLoopView(req: string, offs: nat, t: HTable.Table<string>)
    requires HTable.Valid(t)
    ensures HeaderLoop(req, offs, t).Ok? ==>
              && HeaderLines(req, offs).Ok?
              && HTable.Valid(HeaderLoop(req, offs, t).value.value)
              && HTable.View(HeaderLoop(req, offs, t).value.value)
                   == Apply(HTable.View(t), HeaderLines(req, offs).value.value)
    decreases |req| - offs
  {
    var line := PartialStrdup(req, offs, "\n");
    if line.piece.None? {
      assert HeaderLoop(req, offs, t) == Ok(At(t, offs));
      assert HeaderLines(req, offs) == Ok(At([], offs));
    } else if IsBlankLine(line.piece.value) {
      assert HeaderLoop(req, offs, t) == Ok(At(t, line.next));
      assert HeaderLines(req, offs) == Ok(At([], line.next));
    } else if SplitHeader(line.piece.value).None? {
      assert HeaderLoop(req, offs, t).Err?;
    } else if HeaderLoop(req, offs, t).Ok? {
      var h := SplitHeader(line.piece.value).value;
      var ins := HTable.Insert(t, h.key, Some(h.value));
      HeaderLoopCons(req, offs, t, h);
      HeaderLinesCons(req, offs, h);
      var m := HTable.View(t);
      var m' := if |h.key| <= HTable.MaxKeyLen then m[h.key := h.value] else m;
      if ins.status == HTable.Success {
        HTable.InsertView(t, h.key, h.value);
      }
      assert HTable.Valid(ins.table) && HTable.View(ins.table) == m';
      HeaderLoopView(req, line.next, ins.table);
      var rest := HeaderLines(req, line.next);
      if rest.Ok? {
        ApplyCons(m, h, rest.value.value, m');
      }
    }
  }

  /** Applying a header line, then the rest. */
  lemma ApplyCons(m: map<string, string>, h: Header, rest: seq<Header>, m': map<string, string>)
    requires m' == if |h.key| <= HTable.MaxKeyLen then m[h.key := h.value] else m
    ensures Apply(m, [h] + rest) == Apply(m', rest)
  {
    assert ([h] + rest)[0] == h && ([h] + rest)[1..] == rest;
  }

  // ---------------------------------------------------------------------
  // The stages against the text they read
  // ---------------------------------------------------------------------

  /** What `cws_http_method_stringify` gives for a method, followed by a
      space, is read back as that method wherever it stands in the request,
      and the cursor lands after the space. */
  lemma MethodStageName(req: string, offs: nat, m: HttpMethod.Method, name: string)
    requires HttpMethod.Stringify(HttpMethod.Ordinal(m)) == Some(name)
    requires offs + |name| < |req| && req[offs..offs + |name|] == name && req[offs + |name|] == ' '
    ensures MethodStage(req, offs).Ok?
    ensures MethodStage(req, offs).value.value == m && MethodStage(req, offs).value.next == offs + |name| + 1
  {
    HttpMethod.NameToken(m, name);
    TokenAt(req, offs, name, ' ');
    MethodStageReads(req, offs, name, offs + |name| + 1, m);
  }

  /** A token free of `c`, standing at `offs` and followed by `c`, is cut
      out whole. */
  lemma TokenAt(req: string, offs: nat, name: string, c: char)
    requires forall i :: 0 <= i < |name| ==> name[i] != c
    requires offs + |name| < |req| && req[offs..offs + |name|] == name && req[offs + |name|] == c
    ensures PartialStrdup(req, offs, [c]) == Cut(Some(name), offs + |name| + 1)
  {
    var j := offs + |name|;
    forall i | offs <= i < j ensures req[i] != c {
      assert req[i] == name[i - offs];
    }
    CharCut(req, c, offs, j);
  }

  /** The stage accepts a cut token that parses as a method. */
  lemma MethodStageReads(req: string, offs: nat, token: string, next: nat, m: HttpMethod.Method)
    requires PartialStrdup(req, offs, " ") == Cut(Some(token), next)
    requires HttpMethod.Parse(token) == Some(m)
    ensures MethodStage(req, offs).Ok?
    ensures MethodStage(req, offs).value.value == m && MethodStage(req, offs).value.next == next
  {
  }

  /** A version line `HTTP/<A>.<B>` with a plain newline, whose fields are
      digits reading as `a` and `b`, gives version `a`.`b`. */
  lemma VersionOfNumbers(pre: string, A: string, B: string, rest: string, a: int, b: int)
    requires |A| > 0 && AllDigits(A) && |B| > 0 && AllDigits(B)
    requires Str2Int.LongParse(A) == Str2Int.Success(a) && Str2Int.LongParse(B) == Str2Int.Success(b)
    ensures var line := "HTTP/" + A + "." + B;
            var req := pre + line + "\n" + rest;
            && VersionStage(req, |pre|).Ok?
            && VersionStage(req, |pre|).value.value == Version(a, b)
            && VersionStage(req, |pre|).value.next == |pre| + |line| + 1
  {
    var line := "HTTP/" + A + "." + B;
    var req := pre + line + "\n" + rest;
    VersionOfFields(pre, A, B, rest);
    VersionStageReads(req, |pre|, A, B);
  }

  /** The same line ended by CRLF, the line end of RFC 9112, is refused: the
      carriage return stays in the minor field, which then does not read as
      a number. */
  lemma VersionCrLfRefused(pre: string, A: string, B: string, rest: string)
    requires |A| > 0 && AllDigits(A) && AllDigits(B)
    ensures VersionStage(pre + "HTTP/" + A + "." + B + "\r\n" + rest, |pre|) == Err(VersionNonNumericMsg)
  {
    var B' := B + "\r";
    var line := "HTTP/" + A + "." + B';
    var req := pre + line + "\n" + rest;
    assert req == pre + "HTTP/" + A + "." + B + "\r\n" + rest;
    forall i | 0 <= i < |B'| ensures B'[i] != '\n' {
      if i < |B| {
        assert B'[i] == B[i];
      }
    }
    VersionOfFields(pre, A, B', rest);
    CrNotDecimal(B);
    VersionStageReads(req, |pre|, A, B');
  }

  /** A field ending in a carriage return is no decimal number. */
  lemma CrNotDecimal(B: string)
    ensures !Str2Int.IsDecimal(B + "\r")
  {
    var B' := B + "\r";
    var k := Str2Int.SignLen(B');
    if |B'| > k {
      assert B'[k..][|B'| - 1 - k] == '\r';
    }
  }

  /** A version line whose cuts find `A` and `B` gives their numbers, or is
      refused when the minor one is no number. */
  lemma VersionStageReads(req: string, offs: nat, A: string, B: string)
    requires offs < |req|
    requires MajorCut(VersionLine(req, offs)).piece.Some? && MajorCut(VersionLine(req, offs)).piece.value == A
    requires MinorCut(VersionLine(req, offs)).piece.Some? && MinorCut(VersionLine(req, offs)).piece.value == B
    ensures Str2Int.LongParse(A).Success? && Str2Int.LongParse(B).Success? ==>
              && VersionStage(req, offs).Ok?
              && VersionStage(req, offs).value.value == Version(Str2Int.LongParse(A).value, Str2Int.LongParse(B).value)
              && VersionStage(req, offs).value.next == PartialStrdup(req, offs, "\n").next
    ensures !Str2Int.LongParse(B).Success? ==> VersionStage(req, offs) == Err(VersionNonNumericMsg)
  {
  }

  /** The version stage on `HTTP/<A>.<B>` and a newline reads `A` and `B`
      as its fields. */
  lemma VersionOfFields(pre: string, A: string, B: string, rest: string)
    requires |A| > 0 && AllDigits(A)
    requires |B| > 0 && forall i :: 0 <= i < |B| ==> B[i] != '\n'
    ensures var line := "HTTP/" + A + "." + B;
            var req := pre + line + "\n" + rest;
            && |pre| < |req|
            && HasVersionFields(VersionLine(req, |pre|))
            && MajorCut(VersionLine(req, |pre|)).piece.value == A
            && MinorCut(VersionLine(req, |pre|)).piece.value == B
            && PartialStrdup(req, |pre|, "\n").next == |pre| + |line| + 1
  {
    var line := "HTTP/" + A + "." + B;
    forall i | 0 <= i < |line| ensures line[i] != '\n' {
      if i < 5 {
      } else if i < 5 + |A| {
        assert line[i] == A[i - 5];
      } else if i > 5 + |A| {
        assert line[i] == B[i - 6 - |A|];
      }
    }
    VersionLineOf(pre, line, rest);
    VersionFieldsOf(A, B);
  }

  /** The version stage reads `line` when a newline ends it. */
  lemma VersionLineOf(pre: string, line: string, rest: string)
    requires forall i :: 0 <= i < |line| ==> line[i] != '\n'
    ensures |pre| < |pre + line + "\n" + rest|
    ensures VersionLine(pre + line + "\n" + rest, |pre|) == line
    ensures PartialStrdup(pre + line + "\n" + rest, |pre|, "\n").next == |pre| + |line| + 1
  {
    var req := pre + line + "\n" + rest;
    var j := |pre| + |line|;
    forall i | |pre| <= i < j ensures req[i] != '\n' {
      assert req[i] == line[i - |pre|];
    }
    CharCut(req, '\n', |pre|, j);
    assert req[|pre|..j] == line;
  }

  /** The two cuts of `HTTP/<A>.<B>` find `A` and `B` when `A` is digits
      and `B` holds no newline. */
  lemma VersionFieldsOf(A: string, B: string)
    requires |A| > 0 && AllDigits(A)
    requires |B| > 0 && forall i :: 0 <= i < |B| ==> B[i] != '\n'
    ensures var line := "HTTP/" + A + "." + B;
            && MajorCut(line).piece.Some? && MajorCut(line).piece.value == A
            && MinorCut(line).piece.Some? && MinorCut(line).piece.value == B
  {
    var line := "HTTP/" + A + "." + B;
    forall i | 0 <= i < 4 ensures line[i] != '/' {
    }
    CharCut(line, '/', 0, 4);
    var dot := 5 + |A|;
    forall i | 5 <= i < dot ensures line[i] != '.' {
      assert line[i] == A[i - 5];
    }
    CharCut(line, '.', 5, dot);
    assert line[5..dot] == A;
    forall i | dot + 1 <= i < |line| ensures line[i] != '\n' {
      assert line[i] == B[i - dot - 1];
    }
    CharAbsent(line, '\n', dot + 1, |line|);
    CutRest(line, dot + 1, "\n");
    assert line[dot + 1..] == B;
  }

  /** Every header line well formed, but more of them than the table holds:
      the header loop stops at the first one that finds it full. */
  lemma {:induction false} HeaderLoopTooMany(req: string, offs: nat, t: HTable.Table<string>)
    requires |t.slots| > 0
    requires HeaderLines(req, offs).Ok? && !Fits(t.itemCount, t.itemCap, HeaderLines(req, offs).value.value)
    ensures HeaderLoop(req, offs, t) == Err(TooManyHeadersMsg)
    decreases |req| - offs
  {
    var line := PartialStrdup(req, offs, "\n");
    if line.piece.None? || IsBlankLine(line.piece.value) {
      assert false;
    } else {
      var h := SplitHeader(line.piece.value).value;
      var ins := HTable.Insert(t, h.key, Some(h.value));
      HeaderLinesCons(req, offs, h);
      HeaderLoopCons(req, offs, t, h);
      InsertCount(t, h.key, h.value);
      var rest := HeaderLines(req, line.next);
      var next := if |h.key| <= HTable.MaxKeyLen then t.itemCount + 1 else t.itemCount;
      FitsCons(t.itemCount, t.itemCap, h, rest.value.value, next);
      if ins.status != HTable.Full {
        HeaderLoopTooMany(req, line.next, ins.table);
      }
    }
  }

  /** The head parse against its stages: the first stage that fails gives
      the message, the parse succeeds exactly when every stage does, and the
      head then holds each stage's product. Its header table means the
      header lines applied in order, and its body part is the text after
      the header block. */
  lemma ParseHeadSpec(req: string)
    ensures MethodStage(req, 0).Ok? ==>
              var m := MethodStage(req, 0).value;
              && (UriStage(req, m.next).Err? ==> ParseHead(req) == Err(UriStage(req, m.next).msg))
              && (UriStage(req, m.next).Ok? ==>
                    var u := UriStage(req, m.next).value;
                    && (VersionStage(req, u.next).Err? ==> ParseHead(req) == Err(VersionStage(req, u.next).msg))
                    && (VersionStage(req, u.next).Ok? ==>
                          var v := VersionStage(req, u.next).value;
                          var lines := HeaderLines(req, v.next);
                          && (lines.Err? ==> ParseHead(req).Err? && ParseHead(req).msg in {MalformedHeaderMsg, TooManyHeadersMsg})
                          && (lines.Ok? && !Fits(0, MaxNumHeaders, lines.value.value) ==>
                                ParseHead(req) == Err(TooManyHeadersMsg))
                          && (lines.Ok? && Fits(0, MaxNumHeaders, lines.value.value) ==>
                                && ParseHead(req).Ok?
                                && ParseHead(req).value.httpMethod == m.value
                                && ParseHead(req).value.uri == u.value
                                && ParseHead(req).value.version == v.value
                                && HTable.View(ParseHead(req).value.headers) == Apply(map[], lines.value.value)
                                && ParseHead(req).value.bodyPart == BodyStage(req, lines.value.next))))
    ensures ParseHead(req).Ok? ==>
              && MethodStage(req, 0).Ok?
              && UriStage(req, MethodStage(req, 0).value.next).Ok?
              && VersionStage(req, UriStage(req, MethodStage(req, 0).value.next).value.next).Ok?
  {
    var m := MethodStage(req, 0);
    if m.Ok? {
      var u := UriStage(req, m.value.next);
      if u.Err? {
        assert ParseHead(req) == Err(u.msg);
      } else {
        var v := VersionStage(req, u.value.next);
        if v.Err? {
          assert ParseHead(req) == Err(v.msg);
        } else {
          var lines := HeaderLines(req, v.value.next);
          var h := HeadersStage(req, v.value.next);
          if h.Err? {
            assert ParseHead(req) == Err(h.msg);
            if lines.Ok? && !Fits(0, MaxNumHeaders, lines.value.value) {
              HeaderLoopTooMany(req, v.value.next, HTable.Make<string>(HeaderSlots, MaxNumHeaders));
            }
          } else {
            assert ParseHead(req) == Ok(Head(m.value.value, u.value.value, v.value.value, h.value.value,
                                             BodyStage(req, h.value.next)));
          }
        }
      }
    }
  }
}

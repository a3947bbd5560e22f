/**
 * The response builder of cws/cws_response.c: six stages fill a message
 * buffer in order (status line, the required headers, the caller's headers,
 * every header as a field line, an empty line, the body), and the first
 * stage that fails stops the chain with nothing sent. This is the response
 * layout of section 4 of RFC 9112: a status line, field lines, an empty line
 * and the content, each line ended by CRLF.
 *
 * The stages share one header table of 8 slots. The model is a pure function
 * from the stages' inputs to the text `send` would be handed, or `None`.
 */
module Response {
  import opened Strings
  import opened Decimal
  import opened HTable
  import HTableAppend
  import ResponseCode
  import Str2Int

  /** Slot count of the response's header table. */
  const HeaderSlots: nat := 8

  /** The headers every response carries, for a body of `bodyLen` bytes. */
  function RequiredMap(bodyLen: nat): map<string, string> {
    map["Connection" := "Closed", "Content-Type" := "text/html",
        "Server" := "cWebSrv/0.0.1", "Content-Length" := Render(bodyLen)]
  }

  /** `strlen(body)`, 0 for a NULL body. */
  function BodyLen(body: Option<string>): nat {
    if body.Some? then |body.value| else 0
  }

  /** What `rb_body` appends: the body verbatim, nothing for NULL. */
  function BodyText(body: Option<string>): string {
    if body.Some? then body.value else ""
  }

  /** One field line: `key: value` and CRLF. */
  function FieldLine(key: string, value: string): (r: string)
    ensures |r| == |key| + 2 + |value| + 2
  {
    key + ": " + value + CRLF
  }

  /** The field lines for keys `ks` with values from `m`, in the order of
      `ks`: the reference the emitting stage is measured against. */
  function Fields(ks: seq<string>, m: map<string, string>): string
    requires forall i :: 0 <= i < |ks| ==> ks[i] in m
  {
    if ks == [] then "" else FieldLine(ks[0], m[ks[0]]) + Fields(ks[1..], m)
  }

  // ---------------------------------------------------------------------
  // Stages
  // ---------------------------------------------------------------------

  /** The status line for `code` with reason phrase `phrase`. */
  function StatusText(code: int, phrase: string): (r: string)
    ensures |r| > 11 && r[..9] == "HTTP/1.1 " && r[|r| - 2..] == CRLF
  {
    "HTTP/1.1 " + RenderInt(code) + " " + phrase + CRLF
  }

  /** `rb_status_line`: `HTTP/1.1 <code> <reason>` and CRLF; a code without
      a reason phrase stops the chain. */
  function StatusLine(code: int): (r: Option<string>)
    ensures r.Some? <==> ResponseCode.IsCode(code)
    ensures r.Some? ==> r.value == StatusText(code, ResponseCode.Stringify(code).value)
  {
    match ResponseCode.Stringify(code)
    case None => None
    case Some(phrase) => Some(StatusText(code, phrase))
  }

  /** The headers `rb_headers_required` inserts, in its order. */
  function Required(bodyLen: nat): seq<Entry<string>> {
    [Entry("Connection", "Closed"), Entry("Content-Type", "text/html"),
     Entry("Server", "cWebSrv/0.0.1"), Entry("Content-Length", Render(bodyLen))]
  }

  /** Inserts `es` one after another; a status other than SUCCESS stops. */
  function InsertAll(buf: Table<string>, es: seq<Entry<string>>): (r: Option<Table<string>>)
    requires |buf.slots| > 0
    ensures r.Some? ==> |r.value.slots| == |buf.slots| && r.value.itemCap == buf.itemCap
    ensures r.Some? ==> r.value.itemCount == buf.itemCount + |es|
    ensures (forall i :: 0 <= i < |es| ==> |es[i].key| <= MaxKeyLen) && buf.itemCount <= buf.itemCap ==>
              (r.Some? <==> buf.itemCount + |es| <= buf.itemCap)
    decreases |es|
  {
    if es == [] then Some(buf)
    else
      var u := Insert(buf, es[0].key, Some(es[0].value));
      if u.status != Success then None else InsertAll(u.table, es[1..])
  }

  /** `rb_headers_required`: the four required headers go into the buffer. */
  function RequiredStage(buf: Table<string>, bodyLen: nat): (r: Option<Table<string>>)
    requires |buf.slots| > 0
    ensures r.Some? ==> |r.value.slots| == |buf.slots| && r.value.itemCap == buf.itemCap
    ensures r.Some? <==> buf.itemCount + 4 <= buf.itemCap
    ensures r.Some? ==> r.value.itemCount == buf.itemCount + 4
  {
    var es := Required(bodyLen);
    assert forall i :: 0 <= i < |es| ==> |es[i].key| <= MaxKeyLen;
    InsertAll(buf, es)
  }

  /** `rb_headers_additional`: the caller's headers (NULL is `None`) are
      merged in with SKIP, so a key already in the buffer keeps its value. */
  function AdditionalStage(buf: Table<string>, headers: Option<Table<string>>): (r: Option<Table<string>>)
    requires |buf.slots| > 0
    requires headers.Some? ==> |headers.value.slots| > 0
    ensures headers.None? ==> r == Some(buf)
    ensures r.Some? ==> |r.value.slots| == |buf.slots|
  {
    match headers
    case None => Some(buf)
    case Some(h) =>
      var u := HTableAppend.AppendTable(buf, h, HTableAppend.Skip);
      if u.status != Success then None else Some(u.table)
  }

  /** The loop of `rb_headers_append` over keys `ks`: fetch each key's value
      and write its field line; a failing fetch stops the chain. */
  function EmitFields(buf: Table<string>, ks: seq<string>): (r: Option<string>)
    requires |buf.slots| > 0
    ensures r.Some? <==> forall i :: 0 <= i < |ks| ==> Fetch(buf, ks[i]).output.Some?
  {
    if ks == [] then Some("")
    else match Fetch(buf, ks[0]).output
      case None => None
      case Some(v) =>
        assert forall i :: 0 <= i < |ks| - 1 ==> ks[1..][i] == ks[i + 1];
        match EmitFields(buf, ks[1..])
        case None => None
        case Some(rest) => Some(FieldLine(ks[0], v) + rest)
  }

  /** The header table after stages two and three, built in
      `htable_make(8, maxHeaders)`. The header ceiling
      CWS_RESPONSE_MAX_HEADERS is not defined in any file of this model, so
      it is the parameter `maxHeaders`. */
  function HeaderBuffer(headers: Option<Table<string>>, body: Option<string>, maxHeaders: nat): (r: Option<Table<string>>)
    requires headers.Some? ==> |headers.value.slots| > 0
    ensures r.Some? ==> |r.value.slots| == HeaderSlots
  {
    match RequiredStage(Make(HeaderSlots, maxHeaders), BodyLen(body))
    case None => None
    case Some(b) => AdditionalStage(b, headers)
  }

  /** The last three stages on a filled header table: the field lines
      (`rb_headers_append`), the empty line and the body. */
  function Assemble(status: string, buf: Table<string>, body: Option<string>): (r: Option<string>)
    requires |buf.slots| > 0
    ensures r.Some? ==> status <= r.value
  {
    match EmitFields(buf, ListKeys(buf))
    case None => None
    case Some(fields) =>
      var r := status + (fields + CRLF + BodyText(body));
      assert r[..|status|] == status;
      Some(r)
  }

  /** `cws_response_send(client, code, headers, body)` up to the final
      `send`: the text the six stages build, or `None` when one fails. */
  function Build(code: int, headers: Option<Table<string>>, body: Option<string>, maxHeaders: nat): (r: Option<string>)
    requires headers.Some? ==> |headers.value.slots| > 0
    ensures !ResponseCode.IsCode(code) ==> r.None?
    ensures r.Some? ==> StatusText(code, ResponseCode.Stringify(code).value) <= r.value
  {
    Respond(code, HeaderBuffer(headers, body, maxHeaders), body)
  }

  /** The status line over a header table `hb` the earlier stages filled
      (`None` when they failed), then the rest of the response. */
  function Respond(code: int, hb: Option<Table<string>>, body: Option<string>): (r: Option<string>)
    requires hb.Some? ==> |hb.value.slots| > 0
    ensures !ResponseCode.IsCode(code) ==> r.None?
    ensures r.Some? ==> StatusText(code, ResponseCode.Stringify(code).value) <= r.value
  {
    match ResponseCode.Stringify(code)
    case None => None
    case Some(phrase) =>
      match hb
      case None => None
      case Some(buf) => Assemble(StatusText(code, phrase), buf, body)
  }

  // ---------------------------------------------------------------------
  // What the response holds
  // ---------------------------------------------------------------------

  /** An empty table maps nothing. */
  lemma MakeView(slotCount: nat, cap: nat)
    requires slotCount > 0
    ensures View(Make<string>(slotCount, cap)) == map[]
    ensures Unique(Make<string>(slotCount, cap))
  {
  }

  /** The map a list of entries denotes, the first entry of a key winning. */
  function MapOf(es: seq<Entry<string>>): map<string, string>
    decreases |es|
  {
    if es == [] then map[] else MapOf(es[1..])[es[0].key := es[0].value]
  }

  /** No two entries share a key. */
  predicate DistinctKeys(es: seq<Entry<string>>) {
    forall i, j :: 0 <= i < j < |es| ==> es[i].key != es[j].key
  }

  /** Inserting entries with new, distinct, short keys: the buffer then maps
      them in addition to what it held, each key still listed once. */
  lemma {:induction false} InsertAllSpec(buf: Table<string>, es: seq<Entry<string>>)
    requires Valid(buf) && Unique(buf) && DistinctKeys(es)
    requires forall i :: 0 <= i < |es| ==> |es[i].key| <= MaxKeyLen && es[i].key !in View(buf)
    requires InsertAll(buf, es).Some?
    ensures Valid(InsertAll(buf, es).value) && Unique(InsertAll(buf, es).value)
    ensures View(InsertAll(buf, es).value) == View(buf) + MapOf(es)
    decreases |es|
  {
    if es != [] {
      var e := es[0];
      var u := Insert(buf, e.key, Some(e.value));
      assert u.status == Success && InsertAll(buf, es) == InsertAll(u.table, es[1..]);
      var m := View(buf);
      InsertView(buf, e.key, e.value);
      InsertUnique(buf, e.key, e.value);
      TailFresh(m, es);
      var rest := es[1..];
      assert View(u.table) == m[e.key := e.value];
      assert forall i :: 0 <= i < |rest| ==> |rest[i].key| <= MaxKeyLen && rest[i].key !in View(u.table);
      InsertAllSpec(u.table, rest);
      MapOfUnion(m, es);
    } else {
      UnionEmpty(View(buf));
    }
  }

  /** After the head entry is added, the rest still meets the requirements
      of `InsertAllSpec`. */
  lemma TailFresh(m: map<string, string>, es: seq<Entry<string>>)
    requires |es| > 0 && DistinctKeys(es)
    requires forall i :: 0 <= i < |es| ==> |es[i].key| <= MaxKeyLen && es[i].key !in m
    ensures DistinctKeys(es[1..])
    ensures forall i :: 0 <= i < |es[1..]| ==> |es[1..][i].key| <= MaxKeyLen && es[1..][i].key !in m[es[0].key := es[0].value]
  {
    forall i | 0 <= i < |es[1..]|
      ensures |es[1..][i].key| <= MaxKeyLen && es[1..][i].key !in m[es[0].key := es[0].value]
    {
      assert es[1..][i] == es[i + 1];
    }
    forall i, j | 0 <= i < j < |es[1..]|
      ensures es[1..][i].key != es[1..][j].key
    {
      assert es[1..][i] == es[i + 1] && es[1..][j] == es[j + 1];
    }
  }

  /** Adding the head entry first and the rest after is adding all of them,
      when the rest does not mention the head's key. */
  lemma MapOfUnion(m: map<string, string>, es: seq<Entry<string>>)
    requires |es| > 0 && DistinctKeys(es)
    ensures m[es[0].key := es[0].value] + MapOf(es[1..]) == m + MapOf(es)
  {
    MapOfKeys(es[1..]);
    assert es[0].key !in MapOf(es[1..]) by {
      forall i | 0 <= i < |es[1..]|
        ensures es[1..][i].key != es[0].key
      {
        assert es[1..][i] == es[i + 1];
      }
    }
    UpdateUnion(m, MapOf(es[1..]), es[0].key, es[0].value);
  }

  /** Setting a key the right operand lacks commutes with the union. */
  lemma UpdateUnion<K, V>(m: map<K, V>, n: map<K, V>, k: K, v: V)
    requires k !in n
    ensures m[k := v] + n == m + n[k := v]
  {
  }

  /** The keys of `MapOf(es)` are the keys of the entries. */
  lemma {:induction false} MapOfKeys(es: seq<Entry<string>>)
    ensures forall k :: k in MapOf(es) <==> exists i :: 0 <= i < |es| && es[i].key == k
    decreases |es|
  {
    if es != [] {
      MapOfKeys(es[1..]);
      forall k | k in MapOf(es)
        ensures exists i :: 0 <= i < |es| && es[i].key == k
      {
        if k != es[0].key {
          assert k in MapOf(es[1..]);
          var i :| 0 <= i < |es[1..]| && es[1..][i].key == k;
          assert es[i + 1].key == k;
        }
      }
      forall k | exists i :: 0 <= i < |es| && es[i].key == k
        ensures k in MapOf(es)
      {
        var i :| 0 <= i < |es| && es[i].key == k;
        if i > 0 {
          assert es[1..][i - 1].key == k;
        }
      }
    }
  }

  /** The required stage on an empty buffer: the buffer maps the four
      required headers, each listed once. */
  lemma RequiredStageView(buf: Table<string>, bodyLen: nat)
    requires Valid(buf) && Unique(buf) && View(buf) == map[]
    requires RequiredStage(buf, bodyLen).Some?
    ensures Valid(RequiredStage(buf, bodyLen).value) && Unique(RequiredStage(buf, bodyLen).value)
    ensures View(RequiredStage(buf, bodyLen).value) == RequiredMap(bodyLen)
  {
    var es := Required(bodyLen);
    RequiredEntries(bodyLen);
    assert forall i :: 0 <= i < |es| ==> |es[i].key| <= MaxKeyLen && es[i].key !in View(buf);
    InsertAllSpec(buf, es);
    EmptyUnion(MapOf(es));
  }

  lemma EmptyUnion(m: map<string, string>)
    ensures map[] + m == m
  {
  }

  lemma UnionEmpty(m: map<string, string>)
    ensures m + map[] == m
  {
  }

  /** The required entries have distinct, short keys and denote
      `RequiredMap`. */
  lemma RequiredEntries(bodyLen: nat)
    ensures DistinctKeys(Required(bodyLen))
    ensures forall i :: 0 <= i < 4 ==> |Required(bodyLen)[i].key| <= MaxKeyLen
    ensures MapOf(Required(bodyLen)) == RequiredMap(bodyLen)
  {
    var es := Required(bodyLen);
    assert es[3..][1..] == [];
    assert es[2..][1..] == es[3..] && es[1..][1..] == es[2..] && es[1..] == es[1..];
    assert MapOf(es[3..]) == map["Content-Length" := Render(bodyLen)];
    assert MapOf(es[2..]) == map["Content-Length" := Render(bodyLen), "Server" := "cWebSrv/0.0.1"];
    assert MapOf(es[1..]) == map["Content-Length" := Render(bodyLen), "Server" := "cWebSrv/0.0.1",
                                 "Content-Type" := "text/html"];
    assert MapOf(es) == RequiredMap(bodyLen);
  }

  /** A SKIP merge keeps every key listed once: a key is inserted only when
      the buffer does not hold it yet. */
  lemma {:induction false} SkipKeepsUnique(dest: Table<string>, src: Table<string>, ks: seq<string>)
    requires Valid(dest) && Unique(dest) && Valid(src)
    ensures Valid(HTableAppend.AppendKeys(dest, src, ks, HTableAppend.Skip).table)
    ensures Unique(HTableAppend.AppendKeys(dest, src, ks, HTableAppend.Skip).table)
    decreases |ks|
  {
    if ks != [] {
      var k := ks[0];
      var step := HTableAppend.StepKey(dest, src, k, HTableAppend.Skip);
      if Fetch(src, k).output.Some? && !Contains(dest, k) {
        var v := Fetch(src, k).output.value;
        assert step == Insert(dest, k, Some(v));
        if step.status == Success {
          FetchView(dest, k);
          InsertView(dest, k, v);
          InsertUnique(dest, k, v);
        }
      }
      if step.status == Success {
        SkipKeepsUnique(step.table, src, ks[1..]);
      }
    }
  }

  /** The emitting loop writes `Fields(ks, m)` when every key fetches its
      value in `m`. */
  lemma {:induction false} EmitFieldsMatch(buf: Table<string>, ks: seq<string>, m: map<string, string>)
    requires |buf.slots| > 0
    requires forall i :: 0 <= i < |ks| ==> ks[i] in m && Fetch(buf, ks[i]).output == Some(m[ks[i]])
    ensures EmitFields(buf, ks) == Some(Fields(ks, m))
    decreases |ks|
  {
    if ks != [] {
      assert forall i :: 0 <= i < |ks[1..]| ==> ks[1..][i] == ks[i + 1];
      EmitFieldsMatch(buf, ks[1..], m);
    }
  }

  /** Writing the field lines of the listed keys of a valid buffer never
      fails, and each line carries the key's value in the table's map. */
  lemma EmitFieldsListed(buf: Table<string>)
    requires Valid(buf)
    ensures forall i :: 0 <= i < |ListKeys(buf)| ==> ListKeys(buf)[i] in View(buf)
    ensures EmitFields(buf, ListKeys(buf)) == Some(Fields(ListKeys(buf), View(buf)))
  {
    var ks := ListKeys(buf);
    forall i | 0 <= i < |ks|
      ensures ks[i] in View(buf) && Fetch(buf, ks[i]).output == Some(View(buf)[ks[i]])
    {
      ViewAt(buf, ks[i]);
    }
    EmitFieldsMatch(buf, ks, View(buf));
  }

  /** The header table is built whenever the ceiling leaves room for the
      required headers and all of the caller's entries, and never when there
      is no room for the required ones. */
  lemma HeaderBufferFits(headers: Option<Table<string>>, body: Option<string>, maxHeaders: nat)
    requires headers.Some? ==> Valid(headers.value)
    ensures maxHeaders < 4 ==> HeaderBuffer(headers, body, maxHeaders).None?
    ensures maxHeaders >= 4 + (if headers.Some? then headers.value.itemCount else 0) ==>
              HeaderBuffer(headers, body, maxHeaders).Some?
  {
    var empty := Make<string>(HeaderSlots, maxHeaders);
    var req := RequiredStage(empty, BodyLen(body));
    if req.Some? && headers.Some? {
      MakeView(HeaderSlots, maxHeaders);
      RequiredStageView(empty, BodyLen(body));
      HTableAppend.AppendTableSpec(req.value, headers.value, HTableAppend.Skip);
    }
  }

  /** The header table of a built response: valid, every key listed once,
      and mapping the caller's headers overlaid by the four required ones,
      so a caller can never change a required header. */
  lemma HeaderBufferSpec(headers: Option<Table<string>>, body: Option<string>, maxHeaders: nat)
    requires headers.Some? ==> Valid(headers.value)
    requires HeaderBuffer(headers, body, maxHeaders).Some?
    ensures Valid(HeaderBuffer(headers, body, maxHeaders).value)
    ensures Unique(HeaderBuffer(headers, body, maxHeaders).value)
    ensures headers.Some? ==>
              View(HeaderBuffer(headers, body, maxHeaders).value) == View(headers.value) + RequiredMap(BodyLen(body))
    ensures headers.None? ==> View(HeaderBuffer(headers, body, maxHeaders).value) == RequiredMap(BodyLen(body))
  {
    var empty := Make<string>(HeaderSlots, maxHeaders);
    MakeView(HeaderSlots, maxHeaders);
    var b := RequiredStage(empty, BodyLen(body)).value;
    RequiredStageView(empty, BodyLen(body));
    assert HeaderBuffer(headers, body, maxHeaders) == AdditionalStage(b, headers);
    if headers.Some? {
      AdditionalSpec(b, headers.value);
    }
  }

  /** Merging the caller's headers with SKIP into a valid buffer whose keys
      are listed once: the buffer's own values win, and keys stay listed
      once. */
  lemma AdditionalSpec(b: Table<string>, h: Table<string>)
    requires Valid(b) && Unique(b) && Valid(h)
    requires AdditionalStage(b, Some(h)).Some?
    ensures Valid(AdditionalStage(b, Some(h)).value) && Unique(AdditionalStage(b, Some(h)).value)
    ensures View(AdditionalStage(b, Some(h)).value) == View(h) + View(b)
  {
    HTableAppend.AppendTableSpec(b, h, HTableAppend.Skip);
    SkipKeepsUnique(b, h, ListKeys(h));
  }

  /** The last stages on a valid buffer never fail, and write one field
      line per listed key, with the key's value in the table's map. */
  lemma AssembleSpec(status: string, buf: Table<string>, body: Option<string>)
    requires Valid(buf)
    ensures forall i :: 0 <= i < |ListKeys(buf)| ==> ListKeys(buf)[i] in View(buf)
    ensures Assemble(status, buf, body) == Some(status + Fields(ListKeys(buf), View(buf)) + CRLF + BodyText(body))
  {
    EmitFieldsListed(buf);
    AssembleFields(status, buf, body, Fields(ListKeys(buf), View(buf)));
  }

  /** Once the field lines are written, the response is assembled from them. */
  lemma AssembleFields(status: string, buf: Table<string>, body: Option<string>, fields: string)
    requires |buf.slots| > 0 && EmitFields(buf, ListKeys(buf)) == Some(fields)
    ensures Assemble(status, buf, body) == Some(status + fields + CRLF + BodyText(body))
  {
    Regroup(status, fields, CRLF, BodyText(body));
  }

  lemma Regroup<T>(a: seq<T>, b: seq<T>, c: seq<T>, d: seq<T>)
    ensures a + (b + c + d) == a + b + c + d
  {
  }

  /** The whole response: it is built exactly when the code has a reason
      phrase and the header table can be filled, and it is the status line,
      one field line per key of the table in `list_keys` order, an empty
      line, and the body. */
  lemma BuildSpec(code: int, headers: Option<Table<string>>, body: Option<string>, maxHeaders: nat)
    requires headers.Some? ==> Valid(headers.value)
    ensures Build(code, headers, body, maxHeaders).Some? <==>
              ResponseCode.IsCode(code) && HeaderBuffer(headers, body, maxHeaders).Some?
    ensures Build(code, headers, body, maxHeaders).Some? ==>
              var buf := HeaderBuffer(headers, body, maxHeaders).value;
              && (forall i :: 0 <= i < |ListKeys(buf)| ==> ListKeys(buf)[i] in View(buf))
              && Build(code, headers, body, maxHeaders).value
                   == StatusText(code, ResponseCode.Stringify(code).value)
                        + Fields(ListKeys(buf), View(buf)) + CRLF + BodyText(body)
  {
    var hb := HeaderBuffer(headers, body, maxHeaders);
    RespondStages(code, hb, body);
    if hb.Some? && ResponseCode.IsCode(code) {
      HeaderBufferSpec(headers, body, maxHeaders);
      AssembleSpec(StatusText(code, ResponseCode.Stringify(code).value), hb.value, body);
    }
  }

  /** The response is assembled exactly when both the reason phrase and the
      header table are there. */
  lemma RespondStages(code: int, hb: Option<Table<string>>, body: Option<string>)
    requires hb.Some? ==> |hb.value.slots| > 0
    ensures ResponseCode.Stringify(code).Some? && hb.Some? ==>
              Respond(code, hb, body) == Assemble(StatusText(code, ResponseCode.Stringify(code).value), hb.value, body)
    ensures ResponseCode.Stringify(code).None? || hb.None? ==> Respond(code, hb, body).None?
  {
  }

  /** Every key of the header table is written exactly once: the keys of the
      field lines are distinct and are exactly the table's keys. */
  lemma FieldKeysOnce(headers: Option<Table<string>>, body: Option<string>, maxHeaders: nat)
    requires headers.Some? ==> Valid(headers.value)
    requires HeaderBuffer(headers, body, maxHeaders).Some?
    ensures var buf := HeaderBuffer(headers, body, maxHeaders).value;
            && (forall i, j :: 0 <= i < j < |ListKeys(buf)| ==> ListKeys(buf)[i] != ListKeys(buf)[j])
            && (set k | k in ListKeys(buf)) == View(buf).Keys
  {
    HeaderBufferSpec(headers, body, maxHeaders);
    var buf := HeaderBuffer(headers, body, maxHeaders).value;
    var ks := ListKeys(buf);
    ViewKeys(buf);
    forall i, j | 0 <= i < j < |ks|
      ensures ks[i] != ks[j]
    {
      CountedTwice(ks, i, j);
      assert multiset(ks)[ks[i]] <= 1;
    }
  }

  /** A value at two positions is counted at least twice. */
  lemma CountedTwice(ks: seq<string>, i: nat, j: nat)
    requires i < j < |ks|
    ensures ks[i] == ks[j] ==> multiset(ks)[ks[i]] >= 2
  {
    assert ks == ks[..i] + [ks[i]] + ks[i + 1..j] + [ks[j]] + ks[j + 1..];
  }

  /** The four required headers in a map that overlays them on `a`. */
  predicate HasRequired(m: map<string, string>, bodyLen: nat) {
    && "Connection" in m && m["Connection"] == "Closed"
    && "Content-Type" in m && m["Content-Type"] == "text/html"
    && "Server" in m && m["Server"] == "cWebSrv/0.0.1"
    && "Content-Length" in m && m["Content-Length"] == Render(bodyLen)
  }

  lemma OverlayHasRequired(a: map<string, string>, bodyLen: nat)
    ensures HasRequired(RequiredMap(bodyLen), bodyLen)
    ensures HasRequired(a + RequiredMap(bodyLen), bodyLen)
  {
  }

  /** The required headers cannot be changed by the caller, and the
      Content-Length value reads back, through `longp`, as the body's
      length. */
  lemma RequiredWin(headers: Option<Table<string>>, body: Option<string>, maxHeaders: nat)
    requires headers.Some? ==> Valid(headers.value)
    requires HeaderBuffer(headers, body, maxHeaders).Some?
    requires BodyLen(body) <= Str2Int.LongMax
    ensures HasRequired(View(HeaderBuffer(headers, body, maxHeaders).value), BodyLen(body))
    ensures Str2Int.LongParse(View(HeaderBuffer(headers, body, maxHeaders).value)["Content-Length"])
              == Str2Int.Success(BodyLen(body))
  {
    HeaderBufferSpec(headers, body, maxHeaders);
    if headers.Some? {
      OverlayHasRequired(View(headers.value), BodyLen(body));
    } else {
      OverlayHasRequired(map[], BodyLen(body));
    }
    Str2Int.RenderRoundTripLong(BodyLen(body));
  }

  /** Reading the status line back: the token after `HTTP/1.1 ` up to the
      next space is the code, and `str2int` gives the code again (every
      code of the table is such a number, `ResponseCode.TableLength`). */
  lemma StatusCodeReadBack(code: int, phrase: string)
    requires 0 <= code <= Str2Int.IntMax
    ensures var token := PartialStrdup(StatusText(code, phrase), 9, " ");
            && token.piece == Some(Render(code))
            && Str2Int.Str2Int(token.piece.value) == Str2Int.Success(code)
  {
    var digits := Render(code);
    var line := StatusText(code, phrase);
    assert line == "HTTP/1.1 " + digits + " " + phrase + CRLF;
    var j := 9 + |digits|;
    OccursAtChar(line, ' ', j);
    forall i | 9 <= i < j
      ensures !OccursAt(line, " ", i)
    {
      OccursAtChar(line, ' ', i);
      assert line[i] == digits[i - 9];
    }
    CutAt(line, 9, " ", j);
    assert line[9..j] == digits;
    Str2Int.RenderRoundTrip(code);
  }
}

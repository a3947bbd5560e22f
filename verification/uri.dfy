/**
 * `cws_uri_parse` (cws/cws_uri.c): a request target is split into its path
 * (everything before the first `?`) and a query table that maps each
 * parameter name to a dynamic array of its values, in the order they appear.
 *
 * The theorem at the end (`ParseGroups`) states the meaning of the table: on
 * success it is the grouping of the `name=value` pairs of the query string,
 * each name with all its values in arrival order.
 */
module Uri {
  import opened Strings
  import HTable
  import Dynarr

  /** CWS_MIN_QUERYPARAMS: slot count of the query table. */
  const MinQueryParams: nat := 4
  /** CWS_MAX_QUERYPARAMS: distinct parameter names. */
  const MaxQueryParams: nat := 128
  /** CWS_MIN_SAME_QUERYPARAMS: initial size of a value array. */
  const MinSameQueryParams: nat := 128
  /** CWS_MAX_SAME_QUERYPARAMS: values per name. */
  const MaxSameQueryParams: nat := 128
  /** CWS_URI_MAXLEN */
  const UriMaxLen: nat := 1024

  const TooLongMsg: string := "The URI was too long (max=1024)!\n"
  const NoPathMsg: string := "Could not parse the path!"
  const MalformedMsg: string := "Malformed query parameter!"
  const TooManyMsg: string := "Too many query parameters (max=128)!"
  const TooManySameMsg: string := "Too many same-named query parameters (max=128)!"

  type Values = Dynarr.Dynarr<string>
  type Query = HTable.Table<Values>

  /** `cws_uri_t`: the stored copy of the raw URI (NULL when `strclone`
      refused it), the path and the query table. */
  datatype Uri = Uri(raw: Option<string>, path: string, query: Query)

  /** One `name=value` query parameter. */
  datatype Param = Param(name: string, value: string)

  /** What the parser keeps true of its table: slots to hash into, and every
      stored value a well-formed dynamic array. */
  predicate QueryInv(t: Query) {
    |t.slots| > 0 && HTable.AllValues(t, Dynarr.Valid)
  }

  /** A value array filled by pushes only. */
  predicate PackedValues(a: Values) {
    Dynarr.Packed(a.items)
  }

  // ---------------------------------------------------------------------
  // Splitting
  // ---------------------------------------------------------------------

  /** The two cuts of one `&`-separated segment: the name runs up to the
      first `=`, the value is the rest (the cut at the C literal "\0"). A
      segment without a `=`, or whose first `=` ends it, is malformed. */
  function SplitParam(segment: string): (r: Option<Param>)
    ensures r.Some? ==> segment == r.value.name + "=" + r.value.value
    ensures r.Some? ==> '=' !in r.value.name && r.value.value != []
    ensures r.None? <==> '=' !in segment || ('=' !in segment[..|segment| - 1] && segment[|segment| - 1] == '=')
  {
    var name := PartialStrdup(segment, 0, "=");
    var value := PartialStrdup(segment, name.next, "");
    NameCut(segment);
    if name.piece.None? || value.piece.None? then None
    else Some(Param(name.piece.value, value.piece.value))
  }

  /** The cut at `=` of a segment, spelled out. */
  lemma NameCut(segment: string)
    ensures var c := PartialStrdup(segment, 0, "=");
            && (c.piece.Some? <==> segment != [])
            && (c.piece.Some? ==> '=' !in c.piece.value)
            && (c.piece.Some? && c.next < |segment| ==> segment[..c.next] == c.piece.value + "=")
            && (c.piece.Some? && c.next == |segment| ==>
                  segment == c.piece.value || segment == c.piece.value + "=")
  {
    var c := PartialStrdup(segment, 0, "=");
    if c.piece.Some? {
      forall i | 0 <= i < |c.piece.value|
        ensures c.piece.value[i] != '='
      {
        assert !OccursAt(segment, "=", i);
        if c.next < |segment| {
          assert segment[..c.next][i] == segment[i];
        } else {
          assert segment[..|c.piece.value|] == c.piece.value;
        }
      }
      if c.next < |segment| {
        assert segment[0..c.next] == segment[..c.next];
      } else {
        assert segment[0..] == segment;
      }
    }
  }

  /** Splitting inverts joining: a name without `=` and a non-empty value
      come back from their `name=value` segment. */
  lemma SplitJoin(name: string, value: string)
    requires '=' !in name && value != []
    ensures SplitParam(name + "=" + value) == Some(Param(name, value))
  {
    var segment := name + "=" + value;
    assert segment[|name|] == '=';
    assert segment[..|segment| - 1][|name|] == '=';
    var r := SplitParam(segment).value;
    assert r.name == segment[..|r.name|] == name;
    assert r.value == segment[|r.name| + 1..] == value;
  }

  /** The pairs of the query string from offset `offs`, segment by segment:
      the reference the query table is measured against. */
  function Params(raw: string, offs: nat): (r: Result<seq<Param>>)
    ensures r.Err? ==> r.msg == MalformedMsg
    decreases |raw| - offs
  {
    var seg := PartialStrdup(raw, offs, "&");
    match seg.piece
    case None => Ok([])
    case Some(segment) =>
      match SplitParam(segment)
      case None => Err(MalformedMsg)
      case Some(p) =>
        var rest :- Params(raw, seg.next);
        Ok([p] + rest)
  }

  /** Each name with its values in order, added to the grouping `m`. */
  function Group(m: map<string, seq<string>>, ps: seq<Param>): (r: map<string, seq<string>>)
    decreases |ps|
  {
    if ps == [] then m
    else Group(m[ps[0].name := Lookup(m, ps[0].name) + [ps[0].value]], ps[1..])
  }

  function Lookup(m: map<string, seq<string>>, name: string): seq<string> {
    if name in m then m[name] else []
  }

  predicate ShortNames(ps: seq<Param>) {
    forall i :: 0 <= i < |ps| ==> |ps[i].name| <= HTable.MaxKeyLen
  }

  // ---------------------------------------------------------------------
  // Parsing
  // ---------------------------------------------------------------------

  /** Push `value` into `arr`, then make the table entry `fetch` finds for
      `name` hold the grown array (the C code pushes through the address it
      fetched or inserted; a rejected name's array is not in the table). */
  function PushInto(t: Query, name: string, arr: Values, value: string): (r: Result<Query>)
    requires QueryInv(t) && Dynarr.Valid(arr)
    ensures r.Err? <==> Dynarr.Push(arr, value).status == Dynarr.Full
    ensures r.Err? ==> r.msg == TooManySameMsg
    ensures r.Ok? ==> QueryInv(r.value) && r.value == HTable.SetFound(t, name, Dynarr.Push(arr, value).arr)
  {
    var pushed := Dynarr.Push(arr, value);
    if pushed.status == Dynarr.Full then Err(TooManySameMsg)
    else
      HTable.SetFoundAllValues(t, name, pushed.arr, Dynarr.Valid);
      Ok(HTable.SetFound(t, name, pushed.arr))
  }

  /** The body of the segment loop for one well-formed parameter. */
  function AddValue(t: Query, name: string, value: string): (r: Result<Query>)
    requires QueryInv(t)
    ensures r.Ok? ==> QueryInv(r.value) && |r.value.slots| == |t.slots| && r.value.itemCap == t.itemCap
    ensures r.Err? ==> r.msg == TooManyMsg || r.msg == TooManySameMsg
    ensures HTable.Fetch(t, name).output.None? && t.itemCount >= t.itemCap ==> r == Err(TooManyMsg)
  {
    var found := HTable.Fetch(t, name);
    if found.output.Some? then
      HTable.FetchAllValues(t, name, Dynarr.Valid);
      PushInto(t, name, found.output.value, value)
    else
      var newArr := EmptyValues();
      var ins := HTable.Insert(t, name, Some(newArr));
      if ins.status == HTable.Full then Err(TooManyMsg)
      else
        InsertKeepsArrays(t, name, newArr);
        PushInto(ins.table, name, newArr, value)
  }

  lemma InsertKeepsArrays(t: Query, name: string, newArr: Values)
    requires QueryInv(t) && Dynarr.Valid(newArr) && HTable.Insert(t, name, Some(newArr)).status != HTable.Full
    ensures QueryInv(HTable.Insert(t, name, Some(newArr)).table)
  {
    if HTable.Insert(t, name, Some(newArr)).status == HTable.Success {
      HTable.InsertAllValues(t, name, newArr, Dynarr.Valid);
    }
  }

  /** The segment loop from offset `offs`. */
  function QueryLoop(raw: string, offs: nat, t: Query): (r: Result<Query>)
    requires QueryInv(t)
    ensures r.Ok? ==> QueryInv(r.value) && |r.value.slots| == |t.slots| && r.value.itemCap == t.itemCap
    ensures r.Err? ==> r.msg in {MalformedMsg, TooManyMsg, TooManySameMsg}
    ensures Params(raw, offs).Err? ==> r.Err?
    decreases |raw| - offs
  {
    var seg := PartialStrdup(raw, offs, "&");
    match seg.piece
    case None => Ok(t)
    case Some(segment) =>
      match SplitParam(segment)
      case None => Err(MalformedMsg)
      case Some(p) =>
        var t' :- AddValue(t, p.name, p.value);
        QueryLoop(raw, seg.next, t')
  }

  /** Where the query string starts: past the first `?`, or at the end. */
  function QueryStart(raw: string): nat {
    PartialStrdup(raw, 0, "?").next
  }

  /** Everything after the copy of the raw URI: the path cut, a fresh query
      table, the segment loop. */
  function ParseWithCopy(raw: string, copy: Option<string>): (r: Result<Uri>)
    ensures raw == [] ==> r == Err(NoPathMsg)
    ensures r.Ok? ==> r.value.raw == copy && QueryInv(r.value.query)
    ensures r.Ok? ==> '?' !in r.value.path
    ensures r.Ok? ==> raw == r.value.path || (|r.value.path| < |raw| && raw[..|r.value.path| + 1] == r.value.path + "?")
  {
    var path := PartialStrdup(raw, 0, "?");
    if path.piece.None? then Err(NoPathMsg)
    else
      var query :- QueryLoop(raw, path.next, HTable.Make(MinQueryParams, MaxQueryParams));
      PathCut(raw);
      Ok(Uri(copy, path.piece.value, query))
  }

  /** The cut at `?`, spelled out. */
  lemma PathCut(raw: string)
    requires raw != []
    ensures var c := PartialStrdup(raw, 0, "?");
            && '?' !in c.piece.value
            && (raw == c.piece.value || (|c.piece.value| < |raw| && raw[..|c.piece.value| + 1] == c.piece.value + "?"))
  {
    var c := PartialStrdup(raw, 0, "?");
    forall i | 0 <= i < |c.piece.value|
      ensures c.piece.value[i] != '?'
    {
      assert !OccursAt(raw, "?", i);
      if c.next < |raw| {
        assert raw[0..c.next][i] == raw[i];
      } else {
        assert raw[..|c.piece.value|] == c.piece.value;
      }
    }
    if c.next < |raw| {
      assert raw[0..c.next] == raw[..|c.piece.value| + 1];
    } else if raw != c.piece.value {
      assert raw[0..] == raw;
    }
  }

  /** `cws_uri_parse` as its length check intends: a raw URI longer than
      CWS_URI_MAXLEN is refused with the length message. */
  function Parse(raw: string): (r: Result<Uri>)
    ensures |raw| > UriMaxLen <==> r == Err(TooLongMsg)
    ensures r.Ok? ==> r.value.raw == Some(raw)
  {
    match StrClone(raw, UriMaxLen)
    case None => Err(TooLongMsg)
    case Some(copy) =>
      var r := ParseWithCopy(raw, Some(copy));
      MessagesDiffer();
      r
  }

  /** `cws_uri_parse` as written: the length check tests the argument instead
      of the copy, so it never fires and a long URI is parsed with no stored
      copy. */
  function ParseAsWritten(raw: string): (r: Result<Uri>)
    ensures r.Ok? ==> r.value.raw == StrClone(raw, UriMaxLen)
  {
    ParseWithCopy(raw, StrClone(raw, UriMaxLen))
  }

  lemma MessagesDiffer()
    ensures TooLongMsg != NoPathMsg && TooLongMsg != MalformedMsg
    ensures TooLongMsg != TooManyMsg && TooLongMsg != TooManySameMsg
  {
    assert TooLongMsg[0] == 'T' && NoPathMsg[0] == 'C' && MalformedMsg[0] == 'M';
    assert TooLongMsg[4] == 'U' && TooManyMsg[4] == 'm' && TooManySameMsg[4] == 'm';
  }

  /** A raw URI beyond the limit with no `?`: the intended parse refuses it,
      the parse as written accepts it with the whole string as path and no
      copy of the raw URI. */
  lemma LongUriAccepted(raw: string)
    requires |raw| > UriMaxLen && '?' !in raw
    ensures Parse(raw) == Err(TooLongMsg)
    ensures ParseAsWritten(raw).Ok?
    ensures ParseAsWritten(raw).value.raw.None? && ParseAsWritten(raw).value.path == raw
  {
    var c := PartialStrdup(raw, 0, "?");
    forall j: nat | j + 1 <= |raw|
      ensures !OccursAt(raw, "?", j)
    {
      assert raw[j..j + 1][0] == raw[j];
    }
    assert c.next == |raw|;
    assert raw[0..] == raw;
  }

  // ---------------------------------------------------------------------
  // What the query table means
  // ---------------------------------------------------------------------

  /** Each stored name with the values of its array, in slot order. */
  ghost function Grouping(t: Query): map<string, seq<string>>
    requires |t.slots| > 0
  {
    map n | n in HTable.View(t) :: Dynarr.Values(HTable.View(t)[n].items)
  }

  /** The invariant the theorem carries through the loop. */
  ghost predicate Tracked(t: Query) {
    QueryInv(t) && HTable.Valid(t) && HTable.AllValues(t, PackedValues)
  }

  lemma ViewValuesFit(t: Query, name: string)
    requires Tracked(t) && |name| <= HTable.MaxKeyLen && name in HTable.View(t)
    ensures HTable.Fetch(t, name).output == Some(HTable.View(t)[name])
    ensures Dynarr.Valid(HTable.View(t)[name]) && PackedValues(HTable.View(t)[name])
  {
    HTable.FetchView(t, name);
    HTable.FetchAllValues(t, name, Dynarr.Valid);
    HTable.FetchAllValues(t, name, PackedValues);
  }

  /** A map update of `View` is a map update of the grouping. */
  lemma GroupingUpdate(t: Query, r: Query, name: string, a: Values)
    requires |t.slots| > 0 && |r.slots| > 0 && HTable.View(r) == HTable.View(t)[name := a]
    ensures Grouping(r) == Grouping(t)[name := Dynarr.Values(a.items)]
  {
    var expected := Grouping(t)[name := Dynarr.Values(a.items)];
    forall n
      ensures n in Grouping(r) <==> n in expected
      ensures n in expected ==> Grouping(r)[n] == expected[n]
    {
    }
    HTable.SameMap(Grouping(r), expected);
  }

  /** Pushing into a tracked table's array for `name`: the grouping gains the
      value at the end of that name's list. */
  lemma PushIntoGroups(t: Query, name: string, arr: Values, value: string)
    requires Tracked(t) && |name| <= HTable.MaxKeyLen && name in HTable.View(t)
    requires Dynarr.Valid(arr) && PackedValues(arr)
    requires PushInto(t, name, arr, value).Ok?
    ensures Tracked(PushInto(t, name, arr, value).value)
    ensures Grouping(PushInto(t, name, arr, value).value)
              == Grouping(t)[name := Dynarr.Values(arr.items) + [value]]
  {
    var pushed := Dynarr.Push(arr, value);
    Dynarr.PushAppends(arr, value);
    HTable.SetFoundView(t, name, pushed.arr);
    HTable.SetFoundAllValues(t, name, pushed.arr, PackedValues);
    GroupingUpdate(t, HTable.SetFound(t, name, pushed.arr), name, pushed.arr);
  }

  /** One parameter: the grouping of the table gains the pair. */
  lemma AddValueGroups(t: Query, name: string, value: string)
    requires Tracked(t) && |name| <= HTable.MaxKeyLen && AddValue(t, name, value).Ok?
    ensures Tracked(AddValue(t, name, value).value)
    ensures Grouping(AddValue(t, name, value).value)
              == Grouping(t)[name := Lookup(Grouping(t), name) + [value]]
  {
    var g := Grouping(t);
    GroupingKeys(t, name);
    if name in HTable.View(t) {
      AddExistingGroups(t, name, value);
    } else {
      AddNewGroups(t, name, value);
    }
    AppendToList(g, Grouping(AddValue(t, name, value).value), name, value);
  }

  /** A name is grouped exactly when the table holds it. */
  lemma GroupingKeys(t: Query, name: string)
    requires |t.slots| > 0
    ensures name in Grouping(t) <==> name in HTable.View(t)
  {
  }

  /** Appending to a name's list, whether or not the name had one. */
  lemma AppendToList(g: map<string, seq<string>>, gr: map<string, seq<string>>, name: string, value: string)
    requires name in g ==> gr == g[name := g[name] + [value]]
    requires name !in g ==> gr == g[name := [value]]
    ensures gr == g[name := Lookup(g, name) + [value]]
  {
    if name !in g {
      assert Lookup(g, name) + [value] == [value];
    }
  }

  lemma AddExistingGroups(t: Query, name: string, value: string)
    requires Tracked(t) && |name| <= HTable.MaxKeyLen && name in HTable.View(t)
    requires AddValue(t, name, value).Ok?
    ensures Tracked(AddValue(t, name, value).value)
    ensures Grouping(AddValue(t, name, value).value) == Grouping(t)[name := Grouping(t)[name] + [value]]
  {
    var arr := HTable.View(t)[name];
    ViewValuesFit(t, name);
    assert AddValue(t, name, value) == PushInto(t, name, arr, value);
    PushIntoGroups(t, name, arr, value);
  }

  /** The array a new name starts with. */
  function EmptyValues(): (a: Values)
    ensures Dynarr.Valid(a) && PackedValues(a) && Dynarr.Values(a.items) == []
    ensures a.cap == MaxSameQueryParams
  {
    Dynarr.MakeIsPacked<string>(MinSameQueryParams, MaxSameQueryParams);
    Dynarr.Make(MinSameQueryParams, MaxSameQueryParams)
  }

  /** A new name: insert its empty array, then push through it. */
  lemma AddNewInserts(t: Query, name: string, value: string)
    requires Tracked(t) && |name| <= HTable.MaxKeyLen && name !in HTable.View(t)
    requires AddValue(t, name, value).Ok?
    ensures HTable.Insert(t, name, Some(EmptyValues())).status == HTable.Success
    ensures var ins := HTable.Insert(t, name, Some(EmptyValues())).table;
            && Tracked(ins) && name in HTable.View(ins)
            && AddValue(t, name, value) == PushInto(ins, name, EmptyValues(), value)
            && Grouping(ins) == Grouping(t)[name := []]
  {
    HTable.FetchView(t, name);
    var newArr := EmptyValues();
    var ins := HTable.Insert(t, name, Some(newArr));
    HTable.InsertView(t, name, newArr);
    HTable.InsertAllValues(t, name, newArr, Dynarr.Valid);
    HTable.InsertAllValues(t, name, newArr, PackedValues);
    GroupingUpdate(t, ins.table, name, newArr);
  }

  lemma AddNewGroups(t: Query, name: string, value: string)
    requires Tracked(t) && |name| <= HTable.MaxKeyLen && name !in HTable.View(t)
    requires AddValue(t, name, value).Ok?
    ensures Tracked(AddValue(t, name, value).value)
    ensures Grouping(AddValue(t, name, value).value) == Grouping(t)[name := [value]]
  {
    AddNewInserts(t, name, value);
    var empty := EmptyValues();
    var ins := HTable.Insert(t, name, Some(empty)).table;
    PushIntoGroups(ins, name, empty, value);
    StartList(Grouping(t), Grouping(ins), Grouping(AddValue(t, name, value).value),
              name, Dynarr.Values(empty.items), value);
  }

  /** Starting a name's list at `[]` and appending one value to it. */
  lemma StartList<K, V>(g: map<K, seq<V>>, gi: map<K, seq<V>>, gr: map<K, seq<V>>, k: K, e: seq<V>, v: V)
    requires e == [] && gi == g[k := []] && gr == gi[k := e + [v]]
    ensures gr == g[k := [v]]
  {
    assert e + [v] == [v];
  }

  /** The segment loop builds the grouping of the pairs it reads. */
  lemma {:induction false} QueryLoopGroups(raw: string, offs: nat, t: Query)
    requires Tracked(t) && QueryLoop(raw, offs, t).Ok?
    ensures Params(raw, offs).Ok?
    ensures ShortNames(Params(raw, offs).value) ==>
              Tracked(QueryLoop(raw, offs, t).value)
              && Grouping(QueryLoop(raw, offs, t).value) == Group(Grouping(t), Params(raw, offs).value)
    decreases |raw| - offs
  {
    var seg := PartialStrdup(raw, offs, "&");
    if seg.piece.None? {
      assert QueryLoop(raw, offs, t) == Ok(t);
      assert Params(raw, offs) == Ok([]);
    } else {
      var p := SplitParam(seg.piece.value).value;
      var t' := AddValue(t, p.name, p.value).value;
      assert QueryLoop(raw, offs, t) == QueryLoop(raw, seg.next, t');
      if |p.name| <= HTable.MaxKeyLen {
        AddValueGroups(t, p.name, p.value);
        QueryLoopGroups(raw, seg.next, t');
        var rest := Params(raw, seg.next).value;
        assert Params(raw, offs) == Ok([p] + rest);
        ShortNamesTail(p, rest);
        GroupCons(Grouping(t), p, rest);
      } else {
        LoopReachesParams(raw, seg.next, t');
        assert !ShortNames(Params(raw, offs).value) by {
          assert Params(raw, offs).value[0] == p;
        }
      }
    }
  }

  lemma GroupCons(m: map<string, seq<string>>, p: Param, rest: seq<Param>)
    ensures Group(m, [p] + rest) == Group(m[p.name := Lookup(m, p.name) + [p.value]], rest)
  {
    assert ([p] + rest)[0] == p && ([p] + rest)[1..] == rest;
  }

  lemma ShortNamesTail(p: Param, rest: seq<Param>)
    ensures ShortNames([p] + rest) <==> |p.name| <= HTable.MaxKeyLen && ShortNames(rest)
  {
    if ShortNames([p] + rest) {
      assert ([p] + rest)[0] == p;
      forall i | 0 <= i < |rest|
        ensures |rest[i].name| <= HTable.MaxKeyLen
      {
        assert rest[i] == ([p] + rest)[i + 1];
      }
    }
    if |p.name| <= HTable.MaxKeyLen && ShortNames(rest) {
      forall i | 0 <= i < |[p] + rest|
        ensures |([p] + rest)[i].name| <= HTable.MaxKeyLen
      {
        if i > 0 {
          assert ([p] + rest)[i] == rest[i - 1];
        }
      }
    }
  }

  /** A successful loop read well-formed segments only. */
  lemma {:induction false} LoopReachesParams(raw: string, offs: nat, t: Query)
    requires QueryInv(t) && QueryLoop(raw, offs, t).Ok?
    ensures Params(raw, offs).Ok?
    decreases |raw| - offs
  {
    var seg := PartialStrdup(raw, offs, "&");
    if seg.piece.Some? {
      var p := SplitParam(seg.piece.value).value;
      LoopReachesParams(raw, seg.next, AddValue(t, p.name, p.value).value);
    }
  }

  /** The theorem: a parsed URI's query table maps every parameter name to
      all of its values in the order they appear in the query string. */
  lemma ParseGroups(raw: string)
    requires Parse(raw).Ok?
    ensures Params(raw, QueryStart(raw)).Ok?
    ensures ShortNames(Params(raw, QueryStart(raw)).value) ==>
              Grouping(Parse(raw).value.query) == Group(map[], Params(raw, QueryStart(raw)).value)
  {
    var t := HTable.Make<Values>(MinQueryParams, MaxQueryParams);
    assert Tracked(t);
    assert Grouping(t) == map[];
    QueryLoopGroups(raw, QueryStart(raw), t);
  }

  /** A name longer than the key limit that matches no stored key is
      dropped: `insert` answers KEY_TOO_LONG, which the loop ignores. */
  lemma LongNameDropped(t: Query, name: string, value: string)
    requires QueryInv(t) && |name| > HTable.MaxKeyLen && HTable.Fetch(t, name).output.None?
    requires t.itemCount < t.itemCap
    ensures AddValue(t, name, value) == Ok(t)
  {
    var newArr := EmptyValues();
    assert HTable.Insert(t, name, Some(newArr)) == HTable.Update(HTable.KeyTooLong, t);
    EmptyHasRoom(value);
    assert !HTable.Contains(t, name);
    assert PushInto(t, name, newArr, value) == Ok(t);
  }

  /** A new name's array always takes its first value. */
  lemma EmptyHasRoom(value: string)
    ensures Dynarr.Push(EmptyValues(), value).status == Dynarr.Success
  {
    var a := Dynarr.Make<string>(MinSameQueryParams, MaxSameQueryParams);
    assert a.items[0].None?;
    assert Dynarr.FirstFree(a.items).Some?;
  }

  // ---------------------------------------------------------------------
  // When the parse succeeds
  // ---------------------------------------------------------------------

  /** The message of the first parameter that finds no room when `ps` is
      read into the grouping `g`: a new name once CWS_MAX_QUERYPARAMS names
      are taken, or one more value for a name that already has
      CWS_MAX_SAME_QUERYPARAMS. `None` when every parameter fits. */
  function Overflow(g: map<string, seq<string>>, ps: seq<Param>): (r: Option<string>)
    ensures r.Some? ==> r.value == TooManyMsg || r.value == TooManySameMsg
    decreases |ps|
  {
    if ps == [] then None
    else
      var p := ps[0];
      if p.name in g && |g[p.name]| >= MaxSameQueryParams then Some(TooManySameMsg)
      else if p.name !in g && |g| >= MaxQueryParams then Some(TooManyMsg)
      else Overflow(g[p.name := Lookup(g, p.name) + [p.value]], ps[1..])
  }

  /** A value array with the ceiling the parser gives it. */
  predicate CapIsMax(a: Values) {
    a.cap == MaxSameQueryParams
  }

  /** The table invariant that lets the loop's refusals be counted: its
      names are distinct, and it and its arrays have the parser's ceilings. */
  ghost predicate Counted(t: Query) {
    && Tracked(t) && HTable.Unique(t) && t.itemCap == MaxQueryParams
    && HTable.AllValues(t, CapIsMax)
  }

  /** One parameter against the counts: it is refused exactly when its name
      is new and 128 names are taken, or its name already has 128 values. */
  lemma AddValueRoom(t: Query, name: string, value: string)
    requires Counted(t) && |name| <= HTable.MaxKeyLen
    ensures var g := Grouping(t);
            AddValue(t, name, value).Err? <==>
              (name in g && |g[name]| >= MaxSameQueryParams) || (name !in g && |g| >= MaxQueryParams)
    ensures AddValue(t, name, value).Err? ==>
              AddValue(t, name, value).msg == if name in Grouping(t) then TooManySameMsg else TooManyMsg
    ensures AddValue(t, name, value).Ok? ==> Counted(AddValue(t, name, value).value)
  {
    GroupingKeys(t, name);
    if name in HTable.View(t) {
      AddExistingRoom(t, name, value);
    } else {
      AddNewRoom(t, name, value);
    }
  }

  lemma AddExistingRoom(t: Query, name: string, value: string)
    requires Counted(t) && |name| <= HTable.MaxKeyLen && name in HTable.View(t)
    ensures var g := Grouping(t);
            AddValue(t, name, value).Err? <==> |g[name]| >= MaxSameQueryParams
    ensures AddValue(t, name, value).Err? ==> AddValue(t, name, value).msg == TooManySameMsg
    ensures AddValue(t, name, value).Ok? ==> Counted(AddValue(t, name, value).value)
  {
    var arr := HTable.View(t)[name];
    ViewValuesFit(t, name);
    HTable.FetchAllValues(t, name, CapIsMax);
    assert AddValue(t, name, value) == PushInto(t, name, arr, value);
    Dynarr.PushFullCount(arr, value);
    assert Grouping(t)[name] == Dynarr.Values(arr.items);
    if AddValue(t, name, value).Ok? {
      var pushed := Dynarr.Push(arr, value);
      AddExistingGroups(t, name, value);
      HTable.SetFoundValid(t, name, pushed.arr);
      HTable.SetFoundAllValues(t, name, pushed.arr, CapIsMax);
    }
  }

  lemma AddNewRoom(t: Query, name: string, value: string)
    requires Counted(t) && |name| <= HTable.MaxKeyLen && name !in HTable.View(t)
    ensures AddValue(t, name, value).Err? <==> |Grouping(t)| >= MaxQueryParams
    ensures AddValue(t, name, value).Err? ==> AddValue(t, name, value).msg == TooManyMsg
    ensures AddValue(t, name, value).Ok? ==> Counted(AddValue(t, name, value).value)
  {
    HTable.FetchView(t, name);
    HTable.ViewCount(t);
    assert Grouping(t).Keys == HTable.View(t).Keys;
    var newArr := EmptyValues();
    var ins := HTable.Insert(t, name, Some(newArr));
    if ins.status != HTable.Full {
      EmptyHasRoom(value);
      InsertKeepsArrays(t, name, newArr);
      assert AddValue(t, name, value) == PushInto(ins.table, name, newArr, value);
      var pushed := Dynarr.Push(newArr, value);
      AddNewGroups(t, name, value);
      HTable.InsertValid(t, name, Some(newArr));
      HTable.InsertUnique(t, name, newArr);
      HTable.InsertAllValues(t, name, newArr, CapIsMax);
      HTable.SetFoundValid(ins.table, name, pushed.arr);
      HTable.SetFoundAllValues(ins.table, name, pushed.arr, CapIsMax);
    }
  }

  /** The segment loop against the counts: it fails exactly when a
      parameter finds no room, with that parameter's message. */
  lemma {:induction false} QueryLoopRoom(raw: string, offs: nat, t: Query)
    requires Counted(t) && Params(raw, offs).Ok? && ShortNames(Params(raw, offs).value)
    ensures QueryLoop(raw, offs, t).Ok? <==> Overflow(Grouping(t), Params(raw, offs).value).None?
    ensures QueryLoop(raw, offs, t).Err? ==>
              Overflow(Grouping(t), Params(raw, offs).value) == Some(QueryLoop(raw, offs, t).msg)
    decreases |raw| - offs
  {
    var seg := PartialStrdup(raw, offs, "&");
    if seg.piece.None? {
      assert Params(raw, offs) == Ok([]);
    } else {
      var p := SplitParam(seg.piece.value).value;
      var rest := Params(raw, seg.next).value;
      assert Params(raw, offs) == Ok([p] + rest);
      ShortNamesTail(p, rest);
      var g := Grouping(t);
      OverflowCons(g, p, rest);
      AddValueRoom(t, p.name, p.value);
      if AddValue(t, p.name, p.value).Ok? {
        var t' := AddValue(t, p.name, p.value).value;
        assert QueryLoop(raw, offs, t) == QueryLoop(raw, seg.next, t');
        AddValueGroups(t, p.name, p.value);
        QueryLoopRoom(raw, seg.next, t');
      }
    }
  }

  lemma OverflowCons(g: map<string, seq<string>>, p: Param, rest: seq<Param>)
    ensures Overflow(g, [p] + rest) ==
              if p.name in g && |g[p.name]| >= MaxSameQueryParams then Some(TooManySameMsg)
              else if p.name !in g && |g| >= MaxQueryParams then Some(TooManyMsg)
              else Overflow(g[p.name := Lookup(g, p.name) + [p.value]], rest)
  {
    assert ([p] + rest)[0] == p && ([p] + rest)[1..] == rest;
  }

  /** A grouping within the parser's ceilings: at most 128 names, each with
      at most 128 values. */
  predicate Bounded(g: map<string, seq<string>>) {
    |g| <= MaxQueryParams && forall n :: n in g ==> |g[n]| <= MaxSameQueryParams
  }

  /** Grouping more pairs keeps every name and never shortens a list. */
  lemma {:induction false} GroupGrows(g: map<string, seq<string>>, ps: seq<Param>)
    ensures g.Keys <= Group(g, ps).Keys
    ensures forall n :: n in g ==> |g[n]| <= |Group(g, ps)[n]|
    decreases |ps|
  {
    if ps != [] {
      var p := ps[0];
      var g' := g[p.name := Lookup(g, p.name) + [p.value]];
      GroupGrows(g', ps[1..]);
    }
  }

  /** No parameter overflows exactly when the final grouping stays within the
      ceilings. */
  lemma {:induction false} OverflowBounds(g: map<string, seq<string>>, ps: seq<Param>)
    requires Bounded(g)
    ensures Overflow(g, ps).None? <==> Bounded(Group(g, ps))
    decreases |ps|
  {
    if ps != [] {
      var p := ps[0];
      var g' := g[p.name := Lookup(g, p.name) + [p.value]];
      var final := Group(g, ps);
      assert final == Group(g', ps[1..]);
      GroupGrows(g', ps[1..]);
      if p.name in g && |g[p.name]| >= MaxSameQueryParams {
        assert |final[p.name]| > MaxSameQueryParams;
      } else if p.name !in g && |g| >= MaxQueryParams {
        assert |g'.Keys| == |g.Keys| + 1;
        SubsetCard(g'.Keys, final.Keys);
      } else {
        OverflowBounds(g', ps[1..]);
      }
    }
  }

  lemma SubsetCard(a: set<string>, b: set<string>)
    requires a <= b
    ensures |a| <= |b|
  {
    assert b == a + (b - a);
  }

  /** When the parse succeeds: a URI within the length limit whose query
      segments are all well formed (with names within the key limit) parses
      exactly when it has at most 128 distinct names with at most 128 values
      each; otherwise the message is that of the first parameter that finds
      no room. */
  lemma ParseRoom(raw: string)
    requires 0 < |raw| <= UriMaxLen
    requires Params(raw, QueryStart(raw)).Ok? && ShortNames(Params(raw, QueryStart(raw)).value)
    ensures Parse(raw).Ok? <==> Bounded(Group(map[], Params(raw, QueryStart(raw)).value))
    ensures Parse(raw).Err? ==> Overflow(map[], Params(raw, QueryStart(raw)).value) == Some(Parse(raw).msg)
  {
    var t := HTable.Make<Values>(MinQueryParams, MaxQueryParams);
    FreshCounted();
    ParseIsLoop(raw);
    QueryLoopRoom(raw, QueryStart(raw), t);
    OverflowBounds(map[], Params(raw, QueryStart(raw)).value);
  }

  /** The fresh query table is counted and groups nothing. */
  lemma FreshCounted()
    ensures var t := HTable.Make<Values>(MinQueryParams, MaxQueryParams);
            Counted(t) && Grouping(t) == map[]
  {
    var t := HTable.Make<Values>(MinQueryParams, MaxQueryParams);
    assert Tracked(t);
    assert HTable.Unique(t);
  }

  /** Within the length limit and with a path, the parse stands or falls
      with its segment loop. */
  lemma ParseIsLoop(raw: string)
    requires 0 < |raw| <= UriMaxLen
    ensures var loop := QueryLoop(raw, QueryStart(raw), HTable.Make(MinQueryParams, MaxQueryParams));
            && (Parse(raw).Ok? <==> loop.Ok?)
            && (loop.Err? ==> Parse(raw) == Err(loop.msg))
  {
    assert Parse(raw) == ParseWithCopy(raw, Some(raw));
  }
}

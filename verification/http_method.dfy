/**
 * The HTTP method names of cws/cws_http_method.c: the eight request methods
 * of section 9 of RFC 9110 the server knows, turned into text and read back
 * from the front of a request line.
 */
module HttpMethod {
  import opened Strings

  /** `cws_http_method_t`, in enumerator order. */
  datatype Method = OPTIONS | GET | HEAD | POST | PUT | DELETE | TRACE | CONNECT

  /** `cws_http_method_str`, indexed by enumerator value. */
  const Names: seq<string> := ["OPTIONS", "GET", "HEAD", "POST", "PUT", "DELETE", "TRACE", "CONNECT"]

  /** The enumerator's numeric value. */
  function Ordinal(m: Method): (i: nat)
    ensures i < |Names|
  {
    match m
    case OPTIONS => 0
    case GET => 1
    case HEAD => 2
    case POST => 3
    case PUT => 4
    case DELETE => 5
    case TRACE => 6
    case CONNECT => 7
  }

  /** The enumerator with a given numeric value. */
  function FromOrdinal(i: nat): (m: Method)
    requires i < |Names|
    ensures Ordinal(m) == i
  {
    [OPTIONS, GET, HEAD, POST, PUT, DELETE, TRACE, CONNECT][i]
  }

  /** `cws_http_method_stringify(method)` on the enumerator's numeric value:
      its name, or NULL outside [0, 8). */
  function Stringify(value: int): (r: Option<string>)
    ensures r.Some? <==> 0 <= value < |Names|
    ensures r.Some? ==> r.value == Names[value] && |r.value| > 0
  {
    if value < 0 || value >= |Names| then None else Some(Names[value])
  }

  /** `strncmp(name, s, strlen(name)) == 0`: `name` starts `s`. */
  predicate NameStarts(name: string, s: string) {
    EqualUpTo(name, s, |name|)
  }

  lemma NameStartsIsPrefix(name: string, s: string)
    ensures NameStarts(name, s) <==> name <= s
  {
    if |s| > |name| && name == s[..|name|] {
      assert name <= s;
    }
  }

  /** The loop of `cws_http_method_parse` from index `i` on. */
  function ParseFrom(s: string, i: nat): (r: Option<Method>)
    requires i <= |Names|
    ensures r.Some? ==> i <= Ordinal(r.value) && NameStarts(Names[Ordinal(r.value)], s)
    ensures r.Some? ==> forall j :: i <= j < Ordinal(r.value) ==> !NameStarts(Names[j], s)
    ensures r.None? ==> forall j :: i <= j < |Names| ==> !NameStarts(Names[j], s)
    decreases |Names| - i
  {
    if i == |Names| then None
    else if NameStarts(Names[i], s) then Some(FromOrdinal(i))
    else ParseFrom(s, i + 1)
  }

  /** `cws_http_method_parse(s, &output)`: the first method, in enumerator
      order, whose name begins `s`; `None` when no name does (the output is
      then left unwritten). */
  function Parse(s: string): (r: Option<Method>)
    ensures r.Some? ==> Names[Ordinal(r.value)] <= s
    ensures r.Some? ==> forall j :: 0 <= j < Ordinal(r.value) ==> !(Names[j] <= s)
    ensures r.None? <==> forall j :: 0 <= j < |Names| ==> !(Names[j] <= s)
  {
    var r := ParseFrom(s, 0);
    forall j | 0 <= j < |Names| {
      NameStartsIsPrefix(Names[j], s);
    }
    r
  }

  /** No name begins another: the reason each name parses back to its own
      method. */
  lemma NamesPrefixFree()
    ensures forall i, j :: 0 <= i < |Names| && 0 <= j < |Names| && i != j ==> !(Names[i] <= Names[j])
  {
    forall i, j | 0 <= i < |Names| && 0 <= j < |Names| && i != j
      ensures !(Names[i] <= Names[j])
    {
      if (i == 3 && j == 4) || (i == 4 && j == 3) {
        assert Names[i][1] != Names[j][1];
      } else {
        assert Names[i][0] != Names[j][0];
      }
    }
  }

  /** Every name is upper-case letters, so none holds a space. */
  lemma NameLetters(m: Method)
    ensures forall i :: 0 <= i < |Names[Ordinal(m)]| ==> 'A' <= Names[Ordinal(m)][i] <= 'Z'
  {
    var name := Names[Ordinal(m)];
    match m
    case OPTIONS => assert name == "OPTIONS";
    case GET => assert name == "GET";
    case HEAD => assert name == "HEAD";
    case POST => assert name == "POST";
    case PUT => assert name == "PUT";
    case DELETE => assert name == "DELETE";
    case TRACE => assert name == "TRACE";
    case CONNECT => assert name == "CONNECT";
  }

  /** Round trip: what `stringify` prints, `parse` reads back. */
  lemma ParseStringify(m: Method)
    ensures Stringify(Ordinal(m)).Some?
    ensures Parse(Stringify(Ordinal(m)).value) == Some(m)
  {
    NamesPrefixFree();
    var name := Names[Ordinal(m)];
    assert name <= name;
  }

  /** A method's name is a space-free token that reads back as the method. */
  lemma NameToken(m: Method, name: string)
    requires Stringify(Ordinal(m)) == Some(name)
    ensures forall i :: 0 <= i < |name| ==> name[i] != ' '
    ensures Parse(name) == Some(m)
  {
    NameLetters(m);
    ParseStringify(m);
  }

  /** Matching is by prefix: trailing text is ignored, and a name that only
      resembles a method is refused. */
  lemma ParseExamples()
    ensures Parse("GETX") == Some(GET)
    ensures Parse("GET") == Some(GET)
    ensures Parse("FETCH") == None
    ensures Parse("") == None
  {
    assert Names[1] <= "GETX" && Names[1] <= "GET";
    assert !(Names[0] <= "GETX") && !(Names[0] <= "GET");
    var fetch := "FETCH";
    forall j | 0 <= j < |Names| ensures !(Names[j] <= fetch) {
      assert Names[j][0] != fetch[0];
    }
  }
}

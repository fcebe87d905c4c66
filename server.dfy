/**
  The request-URL and response-header hooks of the CORS Anywhere server
  entry point: the origin-list parser, the query-string parser, the hook
  that picks the proxy target from the inbound URL, and the hook that turns
  `download` + `filename` query parameters into a `content-disposition`
  header on the proxied response.
 */
module Server {
  import opened Strings
  import opened UriCoding

  // ------------------------------------------------------------ parseEnvList

  /** A comma-separated origin list from the environment: nothing for a
      missing or empty variable, otherwise the comma-free pieces that join
      back to the variable's text. */
  function ParseEnvList(env: Option<string>): (r: seq<string>)
    ensures r == [] <==> env == None || env == Some("")
    ensures env.Some? && env.value != "" ==>
      Join(r, ',') == env.value && forall k :: 0 <= k < |r| ==> ',' !in r[k]
  {
    if env == None || env == Some("") then []
    else
      JoinSplit(env.value, ',');
      SplitPiecesFree(env.value, ',');
      Split(env.value, ',')
  }

  // ---------------------------------------------------------- parseUrlParams

  /** A query parameter: a bare name is the flag `true`, `name=value` a string. */
  datatype Param = Flag | Value(text: string)

  type Params = map<string, Param>

  /** Assigning a primitive to this property of a plain object changes nothing. */
  const ProtoKey := "__proto__"

  /** JavaScript truthiness of `params[name]`: absent and `""` are falsy. */
  predicate Truthy(p: Option<Param>)
  {
    p.Some? && (p.value.Flag? || p.value.text != "")
  }

  function Lookup(params: Params, name: string): Option<Param>
  {
    if name in params then Some(params[name]) else None
  }

  /** `String(p)`: the flag `true` reads as the text "true". */
  function ParamText(p: Param): string
  {
    match p
    case Flag => "true"
    case Value(s) => s
  }

  /** `str.split(/&/g).filter(Boolean)` */
  function Segments(str: string): seq<string>
  {
    NonEmpty(Split(str, '&'))
  }

  /** `part.split(/=/)[0]` */
  function SegmentName(part: string): (r: string)
    ensures '=' !in r
  {
    SplitHead(part, '=');
    Split(part, '=')[0]
  }

  /** What a segment assigns: `true` when `split(/=/)` gives one piece, else
      the decoding of the second piece; `None` when decoding throws. */
  function SegmentParam(part: string): Option<Param>
  {
    var parts := Split(part, '=');
    if |parts| == 1 then Some(Flag)
    else
      match DecodeURIComponent(parts[1])
      case Some(v) => Some(Value(v))
      case None => None
  }

  /** `params[name] = p` on a plain JavaScript object. */
  function Store(params: Params, name: string, p: Param): Params
  {
    if name == ProtoKey then params else params[name := p]
  }

  /** The dictionary after assigning the segments in order, or the URIError
      the first undecodable value raises. */
  function Collect(segs: seq<string>): (r: Result<Params, UriError>)
    ensures r.Ok? ==> ProtoKey !in r.value
    decreases |segs|
  {
    if segs == [] then Ok(map[])
    else
      match Collect(segs[..|segs| - 1])
      case Err(e) => Err(e)
      case Ok(params) =>
        var part := segs[|segs| - 1];
        match SegmentParam(part)
        case None => Err(URIError)
        case Some(p) => Ok(Store(params, SegmentName(part), p))
  }

  /** `parseUrlParams(str)` as a value. */
  function UrlParams(str: string): Result<Params, UriError>
  {
    Collect(Segments(str))
  }

  /** `parseUrlParams`: fills a dictionary segment by segment. */
  method ParseUrlParams(str: string) returns (r: Result<Params, UriError>)
    ensures r == UrlParams(str)
  {
    var segs := Segments(str);
    var params: Params := map[];
    var i := 0;
    while i < |segs|
      invariant 0 <= i <= |segs|
      invariant Collect(segs[..i]) == Ok(params)
    {
      var part := segs[i];
      var parts := Split(part, '=');
      var name := parts[0];
      assert segs[..i + 1][..i] == segs[..i];
      if |parts| == 1 {
        params := Store(params, name, Flag);
      } else {
        var value := DecodeURIComponent(parts[1]);
        if value.None? {
          assert SegmentParam(segs[i]).None?;
          CollectErr(segs);
          assert Collect(segs).Err?;
          assert Collect(segs).error == URIError;
          return Err(URIError);
        }
        params := Store(params, name, Value(value.value));
      }
      i := i + 1;
    }
    assert segs[..i] == segs;
    r := Ok(params);
  }

  /** A segment's name is the text before its first `=`; with no `=` it is
      the flag, otherwise the decoded text between the first and the second
      `=` (anything after a second `=` is dropped). */
  lemma SegmentFields(part: string)
    ensures SegmentName(part) == part[..IndexOf(part, '=')]
    ensures '=' !in part ==> SegmentParam(part) == Some(Flag)
    ensures '=' in part ==>
      var rest := part[IndexOf(part, '=') + 1..];
      SegmentParam(part) ==
        match DecodeURIComponent(rest[..IndexOf(rest, '=')])
        case Some(v) => Some(Value(v))
        case None => None
  {
    SplitHead(part, '=');
    if '=' in part {
      var i := IndexOf(part, '=');
      SplitAtFirst(part, '=');
      SplitHead(part[i + 1..], '=');
    }
  }

  /** The text after a second `=` never matters. */
  lemma SegmentDropsAfterSecondEquals(name: string, value: string, tail: string)
    requires '=' !in name && '=' !in value
    ensures SegmentName(name + "=" + value + "=" + tail) == name
    ensures SegmentParam(name + "=" + value + "=" + tail) == SegmentParam(name + "=" + value)
  {
    var long := name + "=" + value + "=" + tail;
    var short := name + "=" + value;
    assert long == name + ['='] + (value + ['='] + tail);
    assert short == name + ['='] + value;
    SplitConcat(name, value + ['='] + tail, '=');
    SplitConcat(value, tail, '=');
    SplitConcat(name, value, '=');
    SplitWithout(name, '=');
    SplitWithout(value, '=');
  }

  /** The dictionary fails exactly when some segment's value fails to decode. */
  lemma {:induction false} CollectErr(segs: seq<string>)
    ensures Collect(segs).Err? <==> exists j :: 0 <= j < |segs| && SegmentParam(segs[j]).None?
    decreases |segs|
  {
    if segs != [] {
      var init := segs[..|segs| - 1];
      CollectErr(init);
      assert forall j :: 0 <= j < |init| ==> init[j] == segs[j];
    }
  }

  /** The keys are exactly the names of the segments (less `__proto__`). */
  lemma {:induction false} CollectKeys(segs: seq<string>)
    requires Collect(segs).Ok?
    ensures forall k :: k in Collect(segs).value <==>
      k != ProtoKey && exists j :: 0 <= j < |segs| && SegmentName(segs[j]) == k
    decreases |segs|
  {
    if segs != [] {
      var init := segs[..|segs| - 1];
      CollectKeys(init);
      assert forall j :: 0 <= j < |init| ==> init[j] == segs[j];
    }
  }

  /** The value under a name is the one its last segment assigns. */
  lemma {:induction false} CollectLastWins(segs: seq<string>, j: nat)
    requires Collect(segs).Ok?
    requires j < |segs| && SegmentName(segs[j]) != ProtoKey
    requires forall j' :: j < j' < |segs| ==> SegmentName(segs[j']) != SegmentName(segs[j])
    ensures SegmentParam(segs[j]).Some?
    ensures SegmentName(segs[j]) in Collect(segs).value
    ensures Collect(segs).value[SegmentName(segs[j])] == SegmentParam(segs[j]).value
    decreases |segs|
  {
    var init := segs[..|segs| - 1];
    if j < |segs| - 1 {
      assert init[j] == segs[j];
      assert forall j' :: j < j' < |init| ==> init[j'] == segs[j'];
      CollectLastWins(init, j);
    }
  }

  /** Every key of `parseUrlParams(str)` is the name of a non-empty
      `&`-piece of `str`, and every such name except `__proto__` is a key. */
  lemma UrlParamsKeys(str: string)
    requires UrlParams(str).Ok?
    ensures forall k :: k in UrlParams(str).value <==>
      k != ProtoKey && exists part :: part in Split(str, '&') && part != "" && SegmentName(part) == k
  {
    var segs := Segments(str);
    CollectKeys(segs);
    forall part | part in Split(str, '&') && part != ""
      ensures exists j :: 0 <= j < |segs| && segs[j] == part
    {
      assert part in segs;
    }
  }

  /** Empty segments are skipped: `a&&b` parses like `a&b`. */
  lemma UrlParamsSkipsEmpty(a: string, b: string)
    ensures UrlParams(a + "&&" + b) == UrlParams(a + "&" + b)
  {
    assert a + "&&" + b == a + ['&'] + ([] + ['&'] + b);
    assert a + "&" + b == a + ['&'] + b;
    assert [] + ['&'] + b == ['&'] + b;
    SplitConcat(a, ['&'] + b, '&');
    SplitConcat([], b, '&');
    SplitConcat(a, b, '&');
    assert Split([], '&') == [""];
    NonEmptyConcat(Split(a, '&'), Split(['&'] + b, '&'));
    NonEmptyConcat([""], Split(b, '&'));
    NonEmptyConcat(Split(a, '&'), Split(b, '&'));
    assert Split(a + "&&" + b, '&') == Split(a, '&') + ([""] + Split(b, '&'));
    assert NonEmpty([""]) == [];
    assert Segments(a + "&&" + b) == Segments(a + "&" + b);
  }

  /** `""`, `"&"`, `"&&&"`, ... give the empty dictionary. */
  lemma UrlParamsOnlyAmpersands(str: string)
    requires forall k :: 0 <= k < |str| ==> str[k] == '&'
    ensures UrlParams(str) == Ok(map[])
  {
    SplitOnlySeparators(str, '&');
    NonEmptyOfEmpties(Split(str, '&'));
  }

  /** Parsing `s1&s2&...` for non-empty, `&`-free segments assigns exactly
      those segments in order. */
  lemma UrlParamsOfSegments(segs: seq<string>)
    requires |segs| >= 1
    requires forall k :: 0 <= k < |segs| ==> segs[k] != "" && '&' !in segs[k]
    ensures UrlParams(Join(segs, '&')) == Collect(segs)
  {
    SplitJoin(segs, '&');
    NonEmptyKeeps(segs);
  }

  lemma {:induction false} NonEmptyKeeps(pieces: seq<string>)
    requires forall k :: 0 <= k < |pieces| ==> pieces[k] != ""
    ensures NonEmpty(pieces) == pieces
    decreases |pieces|
  {
    if pieces != [] {
      NonEmptyKeeps(pieces[1..]);
      assert [pieces[0]] + pieces[1..] == pieces;
    }
  }

  /** `name=value` assigns the decoded value to the name. */
  lemma SegmentOfPair(name: string, value: string)
    requires '=' !in name && '=' !in value
    ensures SegmentName(name + "=" + value) == name
    ensures SegmentParam(name + "=" + value) ==
      match DecodeURIComponent(value)
      case Some(v) => Some(Value(v))
      case None => None
  {
    assert name + "=" + value == name + ['='] + value;
    SplitConcat(name, value, '=');
    SplitWithout(name, '=');
    SplitWithout(value, '=');
  }

  /** A bare `name` assigns the flag. */
  lemma SegmentOfFlag(name: string)
    requires '=' !in name
    ensures SegmentName(name) == name && SegmentParam(name) == Some(Flag)
  {
    SplitWithout(name, '=');
  }

  /** `n1=v1&n2=v2` assigns both decoded values, the second one last. */
  lemma UrlParamsOfTwoPairs(n1: string, v1: string, n2: string, v2: string)
    requires '&' !in n1 && '&' !in v1 && '&' !in n2 && '&' !in v2
    requires '=' !in n1 && '=' !in v1 && '=' !in n2 && '=' !in v2
    requires DecodeURIComponent(v1).Some? && DecodeURIComponent(v2).Some?
    ensures UrlParams(n1 + "=" + v1 + "&" + n2 + "=" + v2) ==
      Ok(Store(Store(map[], n1, Value(DecodeURIComponent(v1).value)), n2, Value(DecodeURIComponent(v2).value)))
  {
    var s1, s2 := n1 + "=" + v1, n2 + "=" + v2;
    assert s1 != [] && s2 != [];
    assert '&' !in s1 && '&' !in s2;
    assert Join([s1, s2], '&') == s1 + "&" + s2;
    assert n1 + "=" + v1 + "&" + n2 + "=" + v2 == s1 + "&" + s2;
    UrlParamsOfSegments([s1, s2]);
    SegmentOfPair(n1, v1);
    SegmentOfPair(n2, v2);
    assert [s1, s2][..1] == [s1] && [s1][..0] == [];
    var m1 := Store(map[], n1, Value(DecodeURIComponent(v1).value));
    assert Collect([s1]) == Ok(m1);
  }

  // ----------------------------------------------------------- getRequestUrl

  /** `url.split('?')[1]`, with `''` for a missing piece: the text between the
      first and the second `?`. */
  function Query(url: string): (r: string)
    ensures '?' !in r
  {
    SplitPiecesFree(url, '?');
    var pieces := Split(url, '?');
    if |pieces| > 1 then pieces[1] else ""
  }

  /** `url.slice(1)` */
  function DropFirst(url: string): (r: string)
    ensures url == [] ==> r == []
    ensures url != [] ==> url == [url[0]] + r
  {
    if url == [] then [] else url[1..]
  }

  /** The proxy target of an inbound request URL: a truthy `url` parameter,
      else a truthy `download` parameter, else the URL without its first
      character; a URIError when the query does not decode. */
  function GetRequestUrl(reqUrl: string): (r: Result<Param, UriError>)
    ensures r.Err? <==> UrlParams(Query(reqUrl)).Err?
    ensures UrlParams(Query(reqUrl)).Ok? ==>
      var params := UrlParams(Query(reqUrl)).value;
      (Truthy(Lookup(params, "url")) ==> r == Ok(params["url"])) &&
      (!Truthy(Lookup(params, "url")) && Truthy(Lookup(params, "download")) ==> r == Ok(params["download"])) &&
      (!Truthy(Lookup(params, "url")) && !Truthy(Lookup(params, "download")) ==> r == Ok(Value(DropFirst(reqUrl))))
  {
    match UrlParams(Query(reqUrl))
    case Err(e) => Err(e)
    case Ok(params) =>
      var requestUrl := if Truthy(Lookup(params, "url")) then Lookup(params, "url") else Lookup(params, "download");
      if Truthy(requestUrl) then Ok(requestUrl.value) else Ok(Value(DropFirst(reqUrl)))
  }

  /** Only the text between the first and the second `?` is read as the query. */
  lemma QueryBetweenMarks(path: string, query: string, rest: string)
    requires '?' !in path && '?' !in query
    requires rest == [] || rest[0] == '?'
    ensures Query(path + "?" + query + rest) == query
  {
    assert path + "?" + query + rest == path + ['?'] + (query + rest);
    SplitConcat(path, query + rest, '?');
    SplitWithout(path, '?');
    SplitWithout(query, '?');
    if rest != [] {
      assert query + rest == query + ['?'] + rest[1..];
      SplitConcat(query, rest[1..], '?');
    } else {
      assert query + rest == query;
    }
  }

  /** A URL without `?` has no query. */
  lemma QueryAbsent(url: string)
    requires '?' !in url
    ensures Query(url) == ""
  {
    SplitWithout(url, '?');
  }

  /** A URL without a query is proxied to its path minus the leading `/`. */
  lemma GetRequestUrlPathSuffix(reqUrl: string)
    requires '?' !in reqUrl
    ensures GetRequestUrl(reqUrl) == Ok(Value(DropFirst(reqUrl)))
  {
    QueryAbsent(reqUrl);
    UrlParamsOnlyAmpersands("");
  }

  /** A target taken from the parameters is never the empty string; the
      empty target comes only from a URL of at most one character. */
  lemma GetRequestUrlEmptyTarget(reqUrl: string)
    requires GetRequestUrl(reqUrl) == Ok(Value(""))
    ensures |reqUrl| <= 1
  {
  }

  // -------------------------------------------------- responseHeadersHandler

  const ContentDisposition := "content-disposition"

  /** The RFC 6266 attachment directive with a quoted `filename` and an
      RFC 5987 `filename*` ext-value, both carrying the same text. */
  function Disposition(encoded: string): string
  {
    "attachment; filename=\"" + encoded + "\"; filename*=UTF-8''" + encoded
  }

  /** The header the hook writes for a request whose original URL is
      `originUrl`: `None` when it writes nothing. */
  function DispositionUpdate(originUrl: Option<string>): Result<Option<string>, UriError>
  {
    if originUrl == None || originUrl == Some("") then Ok(None)
    else
      match UrlParams(Query(originUrl.value))
      case Err(e) => Err(e)
      case Ok(params) =>
        if Truthy(Lookup(params, "download")) && Truthy(Lookup(params, "filename"))
        then Ok(Some(Disposition(EncodeURI(ParamText(params["filename"])))))
        else Ok(None)
  }

  /** The header dictionary of a proxied response, updated in place. */
  class ResponseHeaders {
    var fields: map<string, string>

    constructor (initial: map<string, string>)
      ensures fields == initial
    {
      fields := initial;
    }
  }

  /** `responseHeadersHandler(headers, req)`: `thrown` is the URIError that
      parsing the original query raised, if any. */
  method ResponseHeadersHandler(headers: ResponseHeaders, originUrl: Option<string>)
    returns (thrown: Option<UriError>)
    modifies headers
    ensures thrown.Some? <==> DispositionUpdate(originUrl).Err?
    ensures headers.fields ==
      match DispositionUpdate(originUrl)
      case Ok(Some(value)) => old(headers.fields)[ContentDisposition := value]
      case _ => old(headers.fields)
    ensures headers.fields - {ContentDisposition} == old(headers.fields) - {ContentDisposition}
  {
    thrown := None;
    if originUrl.Some? && originUrl.value != "" {
      var url := Query(originUrl.value);
      var params := ParseUrlParams(url);
      if params.Err? {
        return Some(params.error);
      }
      if Truthy(Lookup(params.value, "download")) && Truthy(Lookup(params.value, "filename")) {
        var filename := EncodeURI(ParamText(params.value["filename"]));
        headers.fields := headers.fields[ContentDisposition := Disposition(filename)];
      }
    }
  }

  /** The hook writes a header exactly when the original URL is present, its
      query decodes, and both `download` and `filename` are truthy; the value
      carries `E = encodeURI(filename)` in both places, `E` has no space or
      double quote (so the quoted form is well delimited) and decodes back
      to the filename. */
  lemma DispositionUpdateSets(originUrl: string, params: Params)
    requires originUrl != "" && UrlParams(Query(originUrl)) == Ok(params)
    ensures DispositionUpdate(Some(originUrl)).Ok?
    ensures DispositionUpdate(Some(originUrl)).value.Some? <==>
      Truthy(Lookup(params, "download")) && Truthy(Lookup(params, "filename"))
    ensures DispositionUpdate(Some(originUrl)).value.Some? ==>
      var name := ParamText(params["filename"]);
      var e := EncodeURI(name);
      && DispositionUpdate(Some(originUrl)).value.value
         == "attachment; filename=\"" + e + "\"; filename*=UTF-8''" + e
      && ' ' !in e && '"' !in e
      && DecodeURIComponent(e) == Some(name)
  {
    if Truthy(Lookup(params, "download")) && Truthy(Lookup(params, "filename")) {
      var name := ParamText(params["filename"]);
      EncodeURIAlphabet(name);
      DecodeEncodeURI(name);
    }
  }

  /** Without an original URL, or when the query fails to decode, nothing
      is written; the failure is exactly a decoding failure of the query. */
  lemma DispositionUpdateSkips(originUrl: Option<string>)
    ensures originUrl == None || originUrl == Some("") ==> DispositionUpdate(originUrl) == Ok(None)
    ensures DispositionUpdate(originUrl).Err? <==>
      originUrl.Some? && originUrl.value != "" && UrlParams(Query(originUrl.value)).Err?
  {
  }
}

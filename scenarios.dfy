/**
  Whole requests stated as lemmas: how the target is resolved from the
  request URL, the forced-download header the response hook writes, and
  the truthiness corner cases of the query parameters.
 */
module Scenarios {
  import opened Strings
  import opened UriCoding
  import opened Server

  /** A space is written as `%20`. */
  lemma SpaceEscape()
    ensures EncodeURI(" ") == "%20"
  {
    assert !EncodeUriUnescaped(' ');
    assert Utf8Octets(' ') == [0x20];
    assert PercentOctet(0x20) == ['%', HexDigit(2), HexDigit(0)];
    assert HexDigit(2) == '2' && HexDigit(0) == '0';
    assert PercentOctets([0x20]) == PercentOctet(0x20) + PercentOctets([]);
    assert EncodeURI(" ") == EncodeUriChar(' ') + EncodeURI("");
  }

  /** `a b` is encoded as the encodings of `a` and `b` around `%20`. */
  lemma EncodeSpaceBetween(a: string, b: string)
    ensures EncodeURI(a + " " + b) == EncodeURI(a) + "%20" + EncodeURI(b)
  {
    EncodeURIConcat(a + " ", b);
    EncodeURIConcat(a, " ");
    SpaceEscape();
  }

  /** The query of `/?n=v`. */
  lemma OnePairQuery(n: string, v: string)
    requires '?' !in n && '?' !in v
    ensures Query("/?" + n + "=" + v) == n + "=" + v
  {
    var q := n + "=" + v;
    assert '?' !in "=";
    assert '?' !in q;
    RootQuery(q);
    assert "/?" + q == "/?" + n + "=" + v;
  }

  /** The parameters of `/?n=v`. */
  lemma OnePairParams(n: string, v: string)
    requires '&' !in n && '=' !in n && '?' !in n && '&' !in v && '=' !in v && '?' !in v
    requires DecodeURIComponent(v).Some?
    ensures UrlParams(Query("/?" + n + "=" + v)) == Ok(Store(map[], n, Value(DecodeURIComponent(v).value)))
  {
    OnePairQuery(n, v);
    var q := n + "=" + v;
    assert '&' !in "=";
    assert '&' !in q;
    UrlParamsOfSegments([q]);
    SegmentOfPair(n, v);
    assert [q][..0] == [];
  }

  /** `/?url=v` is proxied to the decoding of `v` whenever it is non-empty. */
  lemma TargetFromUrlParameter(v: string, target: string)
    requires '&' !in v && '=' !in v && '?' !in v
    requires DecodeURIComponent(v) == Some(target) && target != ""
    ensures GetRequestUrl("/?" + "url" + "=" + v) == Ok(Value(target))
  {
    assert '&' !in "url" && '=' !in "url" && '?' !in "url" && "url" != ProtoKey;
    OnePairParams("url", v);
    assert Lookup(Store(map[], "url", Value(target)), "url") == Some(Value(target));
  }

  lemma TargetFromPath()
    ensures GetRequestUrl("/http://example.com/a") == Ok(Value("http://example.com/a"))
  {
    GetRequestUrlPathSuffix("/http://example.com/a");
  }

  lemma RootQuery(q: string)
    requires '?' !in q
    ensures Query("/?" + q) == q
  {
    QueryBetweenMarks("/", q, "");
    assert "/" + "?" + q + "" == "/?" + q;
  }

  /** The query of `/?n1=v1&n2=v2`. */
  lemma TwoPairQuery(n1: string, v1: string, n2: string, v2: string)
    requires '?' !in n1 && '?' !in v1 && '?' !in n2 && '?' !in v2
    ensures Query("/?" + n1 + "=" + v1 + "&" + n2 + "=" + v2) == n1 + "=" + v1 + "&" + n2 + "=" + v2
  {
    var q := n1 + "=" + v1 + "&" + n2 + "=" + v2;
    assert '?' !in "=" && '?' !in "&";
    assert '?' !in q;
    RootQuery(q);
    assert "/?" + q == "/?" + n1 + "=" + v1 + "&" + n2 + "=" + v2;
  }

  /** The parameters of `/?n1=v1&n2=v2`. */
  lemma TwoPairParams(n1: string, v1: string, n2: string, v2: string)
    requires '&' !in n1 && '=' !in n1 && '?' !in n1 && '&' !in n2 && '=' !in n2 && '?' !in n2
    requires '&' !in v1 && '=' !in v1 && '?' !in v1 && '&' !in v2 && '=' !in v2 && '?' !in v2
    requires DecodeURIComponent(v1).Some? && DecodeURIComponent(v2).Some?
    ensures UrlParams(Query("/?" + n1 + "=" + v1 + "&" + n2 + "=" + v2)) ==
      Ok(Store(Store(map[], n1, Value(DecodeURIComponent(v1).value)), n2, Value(DecodeURIComponent(v2).value)))
  {
    TwoPairQuery(n1, v1, n2, v2);
    UrlParamsOfTwoPairs(n1, v1, n2, v2);
  }

  /** `/?download=t&filename=n` is proxied to the decoding of `t`. */
  lemma TargetFromDownload(t: string, n: string, target: string)
    requires '&' !in t && '=' !in t && '?' !in t
    requires '&' !in n && '=' !in n && '?' !in n
    requires DecodeURIComponent(t) == Some(target) && target != ""
    requires DecodeURIComponent(n).Some?
    ensures GetRequestUrl("/?" + "download" + "=" + t + "&" + "filename" + "=" + n) == Ok(Value(target))
  {
    assert '&' !in "download" && '=' !in "download" && '?' !in "download";
    assert '&' !in "filename" && '=' !in "filename" && '?' !in "filename";
    TwoPairParams("download", t, "filename", n);
    var m := Store(Store(map[], "download", Value(target)), "filename", Value(DecodeURIComponent(n).value));
    assert "url" != "download" && "url" != "filename" && "download" != "filename";
    assert "download" != ProtoKey && "filename" != ProtoKey;
    assert Lookup(m, "url") == None && Lookup(m, "download") == Some(Value(target));
  }

  /** A bare `url` flag is returned as the boolean `true`, not as a string. */
  lemma BareUrlFlag()
    ensures GetRequestUrl("/?url") == Ok(Flag)
  {
    RootQuery("url");
    UrlParamsOfSegments(["url"]);
    SegmentOfFlag("url");
    assert ["url"][..0] == [];
  }

  /** A truthy `url` wins over `download`, whatever `download` holds and
      whichever of the two comes first. */
  lemma UrlWinsOverDownload(v: string, t: string, target: string)
    requires '&' !in v && '=' !in v && '?' !in v
    requires '&' !in t && '=' !in t && '?' !in t
    requires DecodeURIComponent(v) == Some(target) && target != ""
    requires DecodeURIComponent(t).Some?
    ensures GetRequestUrl("/?" + "url" + "=" + v + "&" + "download" + "=" + t) == Ok(Value(target))
    ensures GetRequestUrl("/?" + "download" + "=" + t + "&" + "url" + "=" + v) == Ok(Value(target))
  {
    assert '&' !in "url" && '=' !in "url" && '?' !in "url";
    assert '&' !in "download" && '=' !in "download" && '?' !in "download";
    assert "url" != "download" && "url" != ProtoKey && "download" != ProtoKey;
    var d := Value(DecodeURIComponent(t).value);
    TwoPairParams("url", v, "download", t);
    var m1 := Store(Store(map[], "url", Value(target)), "download", d);
    assert Lookup(m1, "url") == Some(Value(target));
    TwoPairParams("download", t, "url", v);
    var m2 := Store(Store(map[], "download", d), "url", Value(target));
    assert Lookup(m2, "url") == Some(Value(target));
  }

  /** The parameters of `/?url=&download=t`. */
  lemma EmptyUrlParams(t: string, target: string)
    requires '&' !in t && '=' !in t && '?' !in t
    requires DecodeURIComponent(t) == Some(target)
    ensures UrlParams(Query("/?" + "url" + "=" + "" + "&" + "download" + "=" + t)) ==
      Ok(Store(Store(map[], "url", Value("")), "download", Value(target)))
  {
    assert '&' !in "url" && '=' !in "url" && '?' !in "url";
    assert '&' !in "download" && '=' !in "download" && '?' !in "download";
    DecodeWithoutPercent("");
    TwoPairParams("url", "", "download", t);
  }

  /** An empty `url=` is falsy: the target falls through to `download`. */
  lemma EmptyUrlFallsThrough(t: string, target: string)
    requires '&' !in t && '=' !in t && '?' !in t
    requires DecodeURIComponent(t) == Some(target) && target != ""
    ensures GetRequestUrl("/?" + "url" + "=" + "" + "&" + "download" + "=" + t) == Ok(Value(target))
  {
    EmptyUrlParams(t, target);
    assert "url" != "download" && "url" != ProtoKey && "download" != ProtoKey;
    var m := Store(Store(map[], "url", Value("")), "download", Value(target));
    assert Lookup(m, "url") == Some(Value("")) && Lookup(m, "download") == Some(Value(target));
  }

  /** `/?download=t&filename=n` makes the hook write the attachment header
      for the decoded filename. */
  lemma ForcedDownload(t: string, n: string, name: string)
    requires '&' !in t && '=' !in t && '?' !in t
    requires '&' !in n && '=' !in n && '?' !in n
    requires DecodeURIComponent(t).Some? && DecodeURIComponent(t).value != ""
    requires DecodeURIComponent(n) == Some(name) && name != ""
    ensures DispositionUpdate(Some("/?" + "download" + "=" + t + "&" + "filename" + "=" + n)) ==
      Ok(Some(Disposition(EncodeURI(name))))
  {
    TwoPairQuery("download", t, "filename", n);
    UrlParamsOfTwoPairs("download", t, "filename", n);
  }

  /** Letters, digits and dots around one space. */
  predicate PlainWord(w: string)
  {
    forall k :: 0 <= k < |w| ==> IsUriAlpha(w[k]) || IsDecimalDigit(w[k]) || w[k] == '.'
  }

  lemma SpacedNameText(a: string, b: string)
    requires PlainWord(a) && PlainWord(b)
    ensures var name := a + " " + b;
      '&' !in name && '=' !in name && '?' !in name &&
      DecodeURIComponent(name) == Some(name) && EncodeURI(name) == a + "%20" + b
  {
    var name := a + " " + b;
    forall k | 0 <= k < |name|
      ensures name[k] == ' ' || IsUriAlpha(name[k]) || IsDecimalDigit(name[k]) || name[k] == '.'
    {
      if k < |a| { assert name[k] == a[k]; }
      else if k > |a| { assert name[k] == b[k - |a| - 1]; }
    }
    DecodeWithoutPercent(name);
    EncodeSpaceBetween(a, b);
    EncodeURIUnescapedText(a);
    EncodeURIUnescapedText(b);
  }

  /** `filename=a b` gives `a%20b` in both parts of the header, as in
      `filename=a b.txt` giving `a%20b.txt`. */
  lemma ForcedDownloadOfSpacedName(t: string, a: string, b: string)
    requires '&' !in t && '=' !in t && '?' !in t
    requires DecodeURIComponent(t).Some? && DecodeURIComponent(t).value != ""
    requires PlainWord(a) && PlainWord(b)
    ensures DispositionUpdate(Some("/?" + "download" + "=" + t + "&" + "filename" + "=" + (a + " " + b))) ==
      Ok(Some("attachment; filename=\"" + (a + "%20" + b) + "\"; filename*=UTF-8''" + (a + "%20" + b)))
  {
    SpacedNameText(a, b);
    ForcedDownload(t, a + " " + b, a + " " + b);
  }

  /** The text "true" is in the unescaped set. */
  lemma TrueIsUnescaped()
    ensures EncodeURI("true") == "true"
  {
    var s := "true";
    forall k | 0 <= k < |s|
      ensures EncodeUriUnescaped(s[k])
    {
      assert IsUriAlpha(s[k]);
    }
    EncodeURIUnescapedText(s);
  }

  /** A bare `filename` flag stands for the boolean `true`, which
      `encodeURI` turns into the text "true". */
  lemma FilenameFlagReadsTrue(originUrl: string, params: Params)
    requires originUrl != "" && UrlParams(Query(originUrl)) == Ok(params)
    requires Truthy(Lookup(params, "download")) && Lookup(params, "filename") == Some(Flag)
    ensures DispositionUpdate(Some(originUrl)) == Ok(Some(Disposition("true")))
  {
    DispositionUpdateSets(originUrl, params);
    TrueIsUnescaped();
  }

  /** `encodeURI` leaves `;` as it is, so a filename `a;b` reaches the
      `filename*` parameter with a bare `;` in it. */
  lemma SemicolonKeptInFilename(t: string, a: string, b: string)
    requires '&' !in t && '=' !in t && '?' !in t
    requires DecodeURIComponent(t).Some? && DecodeURIComponent(t).value != ""
    requires '&' !in a && '=' !in a && '?' !in a && '%' !in a
    requires '&' !in b && '=' !in b && '?' !in b && '%' !in b
    ensures DispositionUpdate(Some("/?" + "download" + "=" + t + "&" + "filename" + "=" + (a + ";" + b))) ==
      Ok(Some(Disposition(EncodeURI(a) + ";" + EncodeURI(b))))
  {
    var name := a + ";" + b;
    assert '&' !in ";" && '=' !in ";" && '?' !in ";" && '%' !in ";";
    assert '&' !in name && '=' !in name && '?' !in name && '%' !in name;
    DecodeWithoutPercent(name);
    ForcedDownload(t, name, name);
    EncodeURIConcat(a + ";", b);
    EncodeURIConcat(a, ";");
    assert EncodeUriUnescaped(';');
    EncodeURIUnescapedText(";");
  }
}

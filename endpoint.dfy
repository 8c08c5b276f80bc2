/**
 * The endpoint formatter `_formatAPI`: one descriptor becomes one request
 * entry of the Postman collection.
 */
module Endpoint {
  import opened Wrappers
  import opened Text
  import opened UrlTemplate
  import opened Headers
  import opened ApiDoc
  import opened Description

  datatype Url = Url(raw: string, protocol: string, host: seq<string>, path: seq<string>)
  datatype Body = Body(mode: string, raw: string)
  datatype Request = Request(httpMethod: string, header: seq<Header>, url: Url, description: string, body: Option<Body>)
  datatype RequestEntry = RequestEntry(name: string, request: Request)

  const HostPrefix := "http://{{host}}"

  /**
   * `request.url` for a rewritten URL: `raw` is the host prefix and the
   * URL, `path` its `/`-separated segments, which join back to the URL.
   */
  function UrlOf(url: string): (u: Url)
    ensures Join(u.path, "/") == url
    ensures forall i :: 0 <= i < |u.path| ==> '/' !in u.path[i]
    ensures u.raw == HostPrefix + Join(u.path, "/")
    ensures u.protocol == "http" && u.host == ["{{host}}"]
  {
    JoinSplit(url, '/');
    Url(HostPrefix + url, "http", ["{{host}}"], Split(url, '/'))
  }

  /** The path is determined: any non-empty list of `/`-free segments that joins to the URL is its path. */
  lemma UrlPathDetermined(url: string, parts: seq<string>)
    requires |parts| >= 1
    requires forall i :: 0 <= i < |parts| ==> '/' !in parts[i]
    requires Join(parts, "/") == url
    ensures UrlOf(url).path == parts
  {
    SplitJoin(parts, '/');
  }

  /**
   * `request.body`: present exactly when `parameter.examples` is, holding
   * the first example's content.
   */
  function BodyOf(parameter: Option<ParameterSection>): (b: Option<Body>)
    requires parameter.Some? && parameter.value.examples.Some? ==> |parameter.value.examples.value| > 0
    ensures b.Some? <==> parameter.Some? && parameter.value.examples.Some?
    ensures b.Some? ==> b.value.mode == "raw" && b.value.raw == parameter.value.examples.value[0].content
  {
    if parameter.Some? && parameter.value.examples.Some? then
      Some(Body("raw", parameter.value.examples.value[0].content))
    else None
  }

  /** Later parameter examples do not reach the body. */
  lemma BodyIgnoresLaterExamples(rows: Option<seq<Row>>, e: Example, later: seq<Example>)
    ensures BodyOf(Some(ParameterSection(rows, Some([e] + later)))) == Some(Body("raw", e.content))
  {
  }

  function DeclaredHeaders(api: Descriptor): Option<seq<HeaderField>> {
    if api.header.Some? then api.header.value.declared else None
  }

  /**
   * The request entry the source builds for `api`, named by its title; the
   * `Entry` lemmas below state what its request holds.
   */
  function EntryOf(api: Descriptor, table: Table): (e: RequestEntry)
    requires Convertible(api)
    ensures e.name == api.title
  {
    var url := Braced(Parse(api.url));
    var verb := Upper(api.verb);
    RequestEntry(api.title, Request(
      verb,
      Synthesized(DeclaredHeaders(api)),
      UrlOf(url),
      DescriptionText(api.description, url, verb, api.parameter, api.success, table),
      BodyOf(api.parameter)))
  }

  /**
   * `_formatAPI`: rewrite the URL, upper-case the verb, build the
   * description from those two, merge the declared headers into the
   * defaults and take the body from the first parameter example.
   */
  method FormatApi(api: Descriptor, table: Table) returns (entry: RequestEntry)
    requires Convertible(api)
    ensures entry == EntryOf(api, table)
  {
    var url := RewriteUrl(api.url);
    var verb := Upper(api.verb);
    var header := SynthesizeHeaders(DeclaredHeaders(api));
    var description := DescriptionText(api.description, url, verb, api.parameter, api.success, table);
    entry := RequestEntry(api.title, Request(verb, header, UrlOf(url), description, BodyOf(api.parameter)));
  }

  /**
   * The URL of an entry: its path joins back to the rewritten URL, which
   * holds no `:name` parameter, and `raw` is the host prefix and that URL.
   */
  lemma EntryUrl(api: Descriptor, table: Table)
    requires Convertible(api)
    ensures var u := EntryOf(api, table).request.url;
      Join(u.path, "/") == Braced(Parse(api.url)) &&
      (forall i :: 0 <= i < |u.path| ==> '/' !in u.path[i]) &&
      Plain(Join(u.path, "/")) &&
      u.raw == HostPrefix + Join(u.path, "/") &&
      u.protocol == "http" && u.host == ["{{host}}"]
  {
    RewriteIdempotent(api.url);
  }

  /** A URL without `:name` parameters is kept as it is. */
  lemma EntryUrlWithoutParameters(api: Descriptor, table: Table)
    requires Convertible(api) && Plain(api.url)
    ensures Join(EntryOf(api, table).request.url.path, "/") == api.url
  {
    PlainUrlUnchanged(api.url);
  }

  /** The method is the upper-cased verb, and upper-casing it again changes nothing. */
  lemma EntryMethod(api: Descriptor, table: Table)
    requires Convertible(api)
    ensures var m := EntryOf(api, table).request.httpMethod;
      m == Upper(api.verb) && Upper(m) == m
  {
    UpperIdempotent(api.verb);
  }

  /**
   * The description shows the rewritten URL (the one the path joins to) and
   * the upper-cased method (the request's own), not the descriptor's.
   */
  lemma EntryDescription(api: Descriptor, table: Table)
    requires Convertible(api)
    ensures var r := EntryOf(api, table).request;
      r.description == DescriptionText(api.description, Join(r.url.path, "/"), r.httpMethod,
                                       api.parameter, api.success, table)
  {
  }

  /** The headers: keys pairwise distinct, `Content-Type` and `Accept` first whatever is declared. */
  lemma EntryHeaders(api: Descriptor, table: Table)
    requires Convertible(api)
    ensures var h := EntryOf(api, table).request.header;
      DistinctKeys(h) && |h| >= 2 && h[0].key == "Content-Type" && h[1].key == "Accept"
  {
    var fs := DeclaredHeaders(api).GetOr([]);
    MergeAllKeepsPositions(Defaults(), fs);
    MergeAllKeepsDistinct(Defaults(), fs);
  }

  /**
   * Each header key ends with the value its last declaration gives it (raw
   * if the key already existed, unescaped if it was appended); undeclared
   * keys keep their default.
   */
  lemma EntryHeaderValues(api: Descriptor, table: Table, k: string)
    requires Convertible(api)
    ensures Lookup(EntryOf(api, table).request.header, k) ==
            ExpectedValue(Defaults(), DeclaredHeaders(api).GetOr([]), k)
  {
    MergeAllValue(Defaults(), DeclaredHeaders(api).GetOr([]), k);
  }

  /** The body is there exactly when parameter examples are, and is the first one. */
  lemma EntryBody(api: Descriptor, table: Table)
    requires Convertible(api)
    ensures var b := EntryOf(api, table).request.body;
      (b.Some? <==> api.parameter.Some? && api.parameter.value.examples.Some?) &&
      (b.Some? ==> b.value == Body("raw", api.parameter.value.examples.value[0].content))
  {
  }
}

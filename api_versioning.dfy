/**
 * `VersioningMiddleware` (middleware/versioning.py): API version negotiation.
 * The requested version comes from the `X-API-Version` header, else the
 * `api-version` query parameter, else the configured default; an unsupported
 * request falls back to the default. The chosen version is stored on the
 * request and echoed in the response headers with the supported list.
 *
 * The default is `settings.API_VERSION`, passed in. Forwarding the request to
 * the next handler is not modelled: the response headers it returns are a
 * parameter.
 */
module ApiVersioning {
  import opened Common
  import Chunking

  const SupportedVersions: seq<string> := ["1.0.0", "1.1.0"]

  /** Python's `a or b` on an optional string: an absent or empty `a` falls through. */
  function OrElse(a: Option<string>, b: string): (r: string)
    ensures a.Some? && a.value != [] ==> r == a.value
    ensures a.None? || a.value == [] ==> r == b
  {
    if a.Some? && a.value != [] then a.value else b
  }

  /** The elements joined with `sep` between neighbours. */
  function Join(parts: seq<string>, sep: string): (r: string)
    ensures |parts| == 1 ==> r == parts[0]
    ensures |parts| >= 2 ==> r == parts[0] + sep + Join(parts[1..], sep)
    decreases |parts|
  {
    if parts == [] then []
    else if |parts| == 1 then parts[0]
    else parts[0] + sep + Join(parts[1..], sep)
  }

  /**
   * The negotiated version: the first non-empty of header, query parameter
   * and default, replaced by the default when unsupported.
   */
  function SelectVersion(header: Option<string>, query: Option<string>, defaultVersion: string): (r: string)
    ensures r in SupportedVersions || r == defaultVersion
    ensures header.Some? && header.value in SupportedVersions ==> r == header.value
    ensures (header.None? || header.value == []) && query.Some? && query.value in SupportedVersions ==> r == query.value
    ensures header.Some? && header.value != [] && header.value !in SupportedVersions ==> r == defaultVersion
    ensures (header.None? || header.value == []) && (query.None? || query.value == [] || query.value !in SupportedVersions) ==>
              r == defaultVersion
  {
    var requested := OrElse(header, OrElse(query, defaultVersion));
    if requested in SupportedVersions then requested else defaultVersion
  }

  /**
   * One raw response header. Starlette keeps a response's headers as a list of
   * (name, value) pairs whose names it stores lower-cased.
   */
  datatype Header = Header(name: string, value: string)

  /** The headers stored under `name`, in list order. */
  function Named(hs: seq<Header>, name: string): seq<Header>
  {
    if hs == [] then []
    else (if hs[0].name == name then [hs[0]] else []) + Named(hs[1..], name)
  }

  /** The headers stored under any other name, in list order. */
  function Unnamed(hs: seq<Header>, name: string): seq<Header>
  {
    if hs == [] then []
    else (if hs[0].name != name then [hs[0]] else []) + Unnamed(hs[1..], name)
  }

  /** Filtering a list that starts with `h` keeps `h` by its name and filters the rest. */
  lemma FilterCons(h: Header, hs: seq<Header>, name: string)
    ensures Named([h] + hs, name) == (if h.name == name then [h] else []) + Named(hs, name)
    ensures Unnamed([h] + hs, name) == (if h.name != name then [h] else []) + Unnamed(hs, name)
  {
    assert ([h] + hs)[0] == h;
    assert ([h] + hs)[1..] == hs;
  }

  /**
   * The scan behind `MutableHeaders.__setitem__`: the first header stored under
   * `name` takes the new value, later ones are deleted, and when there is none
   * (`placed` false at the end) the header is appended.
   */
  function SetFrom(hs: seq<Header>, name: string, value: string, placed: bool): seq<Header>
    decreases |hs|
  {
    if hs == [] then
      if placed then [] else [Header(name, value)]
    else if hs[0].name != name then
      [hs[0]] + SetFrom(hs[1..], name, value, placed)
    else if placed then
      SetFrom(hs[1..], name, value, true)
    else
      [Header(name, value)] + SetFrom(hs[1..], name, value, true)
  }

  /**
   * After the scan exactly one header is stored under `name` (none if one was
   * already placed before), and the headers stored under other names are
   * unchanged, in order.
   */
  lemma {:induction false} SetFromFilters(hs: seq<Header>, name: string, value: string, placed: bool)
    ensures Named(SetFrom(hs, name, value, placed), name) == if placed then [] else [Header(name, value)]
    ensures Unnamed(SetFrom(hs, name, value, placed), name) == Unnamed(hs, name)
    ensures forall n :: n != name ==> Named(SetFrom(hs, name, value, placed), n) == Named(hs, n)
    decreases |hs|
  {
    if hs != [] {
      var placed' := placed || hs[0].name == name;
      var rest := SetFrom(hs[1..], name, value, placed');
      SetFromFilters(hs[1..], name, value, placed');
      assert hs == [hs[0]] + hs[1..];
      FilterCons(hs[0], hs[1..], name);
      if hs[0].name != name {
        FilterCons(hs[0], rest, name);
        forall n | n != name
          ensures Named(SetFrom(hs, name, value, placed), n) == Named(hs, n)
        {
          FilterCons(hs[0], rest, n);
          FilterCons(hs[0], hs[1..], n);
        }
      } else if !placed {
        var h := Header(name, value);
        FilterCons(h, rest, name);
        forall n | n != name
          ensures Named(SetFrom(hs, name, value, placed), n) == Named(hs, n)
        {
          FilterCons(h, rest, n);
          FilterCons(hs[0], hs[1..], n);
        }
      }
    }
  }

  /** With no header under `name` yet, the scan appends the new one. */
  lemma {:induction false} SetFromAppends(hs: seq<Header>, name: string, value: string)
    ensures Named(hs, name) == [] ==> SetFrom(hs, name, value, false) == hs + [Header(name, value)]
    decreases |hs|
  {
    if hs != [] && Named(hs, name) == [] {
      assert hs == [hs[0]] + hs[1..];
      FilterCons(hs[0], hs[1..], name);
      SetFromAppends(hs[1..], name, value);
    }
  }

  /**
   * `headers[key] = value`: the key is lower-cased, so the new value replaces
   * the header under every spelling of the name.
   */
  function SetHeader(hs: seq<Header>, key: string, value: string): (r: seq<Header>)
    ensures Named(r, Chunking.Lower(key)) == [Header(Chunking.Lower(key), value)]
    ensures Unnamed(r, Chunking.Lower(key)) == Unnamed(hs, Chunking.Lower(key))
    ensures forall n :: n != Chunking.Lower(key) ==> Named(r, n) == Named(hs, n)
    ensures Named(hs, Chunking.Lower(key)) == [] ==> r == hs + [Header(Chunking.Lower(key), value)]
  {
    SetFromFilters(hs, Chunking.Lower(key), value, false);
    SetFromAppends(hs, Chunking.Lower(key), value);
    SetFrom(hs, Chunking.Lower(key), value, false)
  }

  /** Starlette stores the two header names the middleware sets in lower case. */
  lemma HeaderNamesLowered()
    ensures Chunking.Lower("X-API-Version") == "x-api-version"
    ensures Chunking.Lower("X-API-Supported-Versions") == "x-api-supported-versions"
  {
  }

  /** What the middleware leaves behind: the version on the request state, and the response headers. */
  datatype Outcome = Outcome(stateVersion: string, responseHeaders: seq<Header>)

  /**
   * `dispatch`: the negotiated version goes on the request state and in the
   * `x-api-version` response header, next to `x-api-supported-versions`; each
   * replaces whatever the handler stored under its name, and the handler's
   * other headers are kept in order.
   */
  function Dispatch(header: Option<string>, query: Option<string>, defaultVersion: string, handlerHeaders: seq<Header>)
    : (r: Outcome)
    ensures r.stateVersion == SelectVersion(header, query, defaultVersion)
    ensures Named(r.responseHeaders, "x-api-version") == [Header("x-api-version", r.stateVersion)]
    ensures Named(r.responseHeaders, "x-api-supported-versions") == [Header("x-api-supported-versions", "1.0.0, 1.1.0")]
    ensures forall n :: n != "x-api-version" && n != "x-api-supported-versions" ==>
              Named(r.responseHeaders, n) == Named(handlerHeaders, n)
  {
    var version := SelectVersion(header, query, defaultVersion);
    var supported := Join(SupportedVersions, ", ");
    assert supported == "1.0.0" + ", " + "1.1.0" == "1.0.0, 1.1.0";
    HeaderNamesLowered();
    var withVersion := SetHeader(handlerHeaders, "X-API-Version", version);
    Outcome(version, SetHeader(withVersion, "X-API-Supported-Versions", supported))
  }

  /** A handler's own `x-api-version` header is replaced, not kept beside the negotiated one. */
  lemma HandlerVersionReplaced()
    ensures Dispatch(None, None, "1.0.0", [Header("x-api-version", "0.9")]).responseHeaders ==
            [Header("x-api-version", "1.0.0"), Header("x-api-supported-versions", "1.0.0, 1.1.0")]
  {
  }

  /** With a supported default (the application's "1.0.0"), every request is served a supported version. */
  lemma SupportedDefaultIsClosed(header: Option<string>, query: Option<string>, defaultVersion: string)
    requires defaultVersion in SupportedVersions
    ensures SelectVersion(header, query, defaultVersion) in SupportedVersions
  {
  }

  /** An unsupported default is served as is whenever the request names no supported version. */
  lemma UnsupportedDefaultLeaks(defaultVersion: string)
    requires defaultVersion !in SupportedVersions
    ensures SelectVersion(Some("2.0.0"), None, defaultVersion) == defaultVersion
    ensures SelectVersion(Some("2.0.0"), None, defaultVersion) !in SupportedVersions
  {
  }

  /** The header beats the query parameter, and an empty header falls through to it. */
  lemma HeaderBeatsQuery()
    ensures SelectVersion(Some("1.1.0"), Some("1.0.0"), "1.0.0") == "1.1.0"
    ensures SelectVersion(Some(""), Some("1.1.0"), "1.0.0") == "1.1.0"
    ensures SelectVersion(None, None, "1.0.0") == "1.0.0"
  {
  }
}

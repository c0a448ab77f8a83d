/**
 * The request-handling logic of the hello server: the version fixed at
 * start-up, the client address of a request, the two handlers and the
 * route table. Listening, signals and log output are not modelled; the
 * host name is an input, and a log record keeps only the status code and
 * the client address the server logs.
 */
module HelloServer {
  import opened Wrappers
  import opened GoStrings
  import opened GoNet

  // ---------------------------------------------------------------- version

  /** The version reported when the build supplies no release. */
  const UnreleasedVersion := "0.0.1-UNRELEASED"

  /** The version the server reports, set once from the build-supplied release. */
  function ResolveVersion(release: string): (version: string)
    ensures version != ""
    ensures release != "" ==> version == release
    ensures release == "" ==> version == UnreleasedVersion
  {
    if release != "" then release else UnreleasedVersion
  }

  // --------------------------------------------------------- client address

  /** The separator between the entries of an `X-Forwarded-For` chain. */
  const ForwardedSep := ", "

  /** What `Header.Get("X-Forwarded-For")` yields: the value, or "" when the header is missing. */
  function HeaderValue(header: Option<string>): (v: string)
    ensures header.Some? ==> v == header.value
    ensures header.None? ==> v == ""
  {
    header.GetOr("")
  }

  /**
   * The client of a request: the first entry of a non-empty
   * `X-Forwarded-For` value, otherwise the host of the peer address, or ""
   * when that address does not split.
   */
  function ClientAddress(forwardedFor: Option<string>, remoteAddr: string): (client: string)
    ensures HeaderValue(forwardedFor) == "" && SplitHostPort(remoteAddr).Failure? ==> client == ""
  {
    var v := HeaderValue(forwardedFor);
    if v != "" then Split(v, ForwardedSep)[0]
    else
      match SplitHostPort(remoteAddr)
      case Success(hostPort) => hostPort.0
      case Failure(_) => ""
  }

  /**
   * A non-empty forwarded-for value decides the client on its own: the
   * client is the text before the first ", " (all of it when there is none),
   * holds no ", ", and does not depend on the peer address.
   */
  lemma ForwardedForWins(v: string, remoteAddr: string, otherAddr: string)
    requires v != ""
    ensures BeforeFirst(ClientAddress(Some(v), remoteAddr), v, ForwardedSep)
    ensures !Contains(ClientAddress(Some(v), remoteAddr), ForwardedSep)
    ensures ClientAddress(Some(v), remoteAddr) == ClientAddress(Some(v), otherAddr)
  {
    SplitFirst(v, ForwardedSep);
  }

  /** With no usable forwarded-for value, a peer address `host:port` resolves to `host`. */
  lemma PeerHostWhenNoForwardedFor(header: Option<string>, host: string, port: string)
    requires HeaderValue(header) == ""
    requires Plain(host) && Plain(port)
    ensures ClientAddress(header, host + ":" + port) == host
  {
    SplitHostPortJoin(host, port);
  }

  /** A peer address without a port, or with more than one colon, resolves to "" instead of failing. */
  lemma MalformedPeerAddress(header: Option<string>, remoteAddr: string)
    requires HeaderValue(header) == ""
    requires ':' !in remoteAddr || (exists a, b :: 0 <= a < b < |remoteAddr| && remoteAddr[a] == ':' && remoteAddr[b] == ':')
    ensures ClientAddress(header, remoteAddr) == ""
  {
    if ':' in remoteAddr {
      var a, b :| 0 <= a < b < |remoteAddr| && remoteAddr[a] == ':' && remoteAddr[b] == ':';
      TwoColonsRefused(remoteAddr, a, b);
    }
  }

  /**
   * A forwarded-for chain `A, B` resolves to its first entry `A`, for any
   * `A` without ", " (the empty one included).
   */
  lemma ForwardedForFirstEntry(first: string, rest: string, remoteAddr: string)
    requires !Contains(first, ForwardedSep)
    ensures ClientAddress(Some(first + ForwardedSep + rest), remoteAddr) == first
  {
    var v := first + ForwardedSep + rest;
    assert BeforeFirst(first, v, ForwardedSep) by {
      assert v[..|first|] == first;
      assert v[|first|..|first| + 2] == ForwardedSep;
      forall j | 0 <= j < |first| ensures !OccursAt(v, ForwardedSep, j) {
        if j + 2 <= |first| {
          assert v[j..j + 2] == first[j..j + 2];
          assert !OccursAt(first, ForwardedSep, j);
        } else {
          assert v[j + 1] == ',';
          assert v[j..j + 2][1] == v[j + 1];
        }
      }
    }
    ForwardedForWins(v, remoteAddr, remoteAddr);
    BeforeFirstUnique(ClientAddress(Some(v), remoteAddr), first, v, ForwardedSep);
  }

  /** A proxy's forwarded-for value wins over the proxy's own peer address. */
  lemma ForwardedForExample()
    ensures ClientAddress(Some("90.12.34.56, 12.34.56.78"), "12.34.56.78:8080") == "90.12.34.56"
  {
    assert "90.12.34.56, 12.34.56.78" == "90.12.34.56" + ForwardedSep + "12.34.56.78";
    FirstCharAbsent("90.12.34.56", ForwardedSep);
    ForwardedForFirstEntry("90.12.34.56", "12.34.56.78", "12.34.56.78:8080");
  }

  /** An empty first entry resolves to "", not to the next entry or the peer. */
  lemma EmptyFirstEntryExample()
    ensures ClientAddress(Some(", 1.2.3.4"), "12.34.56.78:8080") == ""
  {
    assert ", 1.2.3.4" == "" + ForwardedSep + "1.2.3.4";
    ForwardedForFirstEntry("", "1.2.3.4", "12.34.56.78:8080");
  }

  /** Without the header, the peer `12.34.56.78:8080` resolves to `12.34.56.78`. */
  lemma PeerAddressExample()
    ensures ClientAddress(None, "12.34.56.78:8080") == "12.34.56.78"
  {
    assert "12.34.56.78:8080" == "12.34.56.78" + ":" + "8080";
    PeerHostWhenNoForwardedFor(None, "12.34.56.78", "8080");
  }

  // -------------------------------------------------------------- responses

  /** The request fields the handlers look at. */
  datatype Request = Request(path: string, forwardedFor: Option<string>, remoteAddr: string)

  /** What `logRequest` records: the code it is given and the client it resolves. */
  datatype LogRecord = LogRecord(code: int, client: string)

  /** One handled request: the log record, the status written and the body written. */
  datatype Response = Response(log: LogRecord, status: int, body: string)

  /** `logRequest(r, code)`. */
  function LogRequest(r: Request, code: int): (rec: LogRecord)
    ensures rec.code == code
    ensures rec.client == ClientAddress(r.forwardedFor, r.remoteAddr)
  {
    LogRecord(code, ClientAddress(r.forwardedFor, r.remoteAddr))
  }

  /** The opening of the version JSON object, up to the opening quote of the value. */
  const VersionJsonOpen := "{\"version\": \""
  /** The closing quote of the value and the closing brace. */
  const VersionJsonClose := "\"}"

  /** The version handler's body: the version dropped, unescaped, into a one-key JSON object. */
  function VersionBody(version: string): (body: string)
    ensures |body| == |VersionJsonOpen| + |version| + |VersionJsonClose|
    ensures body[..|VersionJsonOpen|] == VersionJsonOpen
    ensures body[|VersionJsonOpen|..|body| - |VersionJsonClose|] == version
    ensures body[|body| - |VersionJsonClose|..] == VersionJsonClose
  {
    var body := VersionJsonOpen + version + VersionJsonClose;
    assert body[|VersionJsonOpen|..|body| - |VersionJsonClose|] == version;
    body
  }

  /** The pieces of the greeting page around its three substitutions. */
  const HelloHead := "\n<!DOCTYPE HTML>\n<html>\n<head>\n<title>Hello World!</title>\n</head>\nHello "
  const HelloFromHost := "!<br>\n<br>\nFrom host "
  const HelloOn := " on "
  const VersionTag := "version "
  const HelloTail := "<br>\n<body>\n</body>\n</html>\n"

  /** The greeting page with client, host name and version filled in. */
  function HelloBody(client: string, hostName: string, version: string): (page: string)
    ensures Contains(page, client)
    ensures Contains(page, hostName)
    ensures Contains(page, VersionTag + version)
  {
    TemplateContains(HelloHead, client, HelloFromHost, hostName, HelloOn, VersionTag, version, HelloTail);
    HelloHead + (client + (HelloFromHost + (hostName + (HelloOn + (VersionTag + (version + HelloTail))))))
  }

  /** A body written by `http.Error`: the message, ended by the newline `Fprintln` adds. */
  function ErrorBody(message: string): (body: string)
    ensures |body| == |message| + 1 && body[..|message|] == message && body[|message|] == '\n'
    ensures Contains(body, message)
  {
    ContainsPrefix(message, "\n");
    assert (message + "\n")[..|message|] == message;
    message + "\n"
  }

  /** `handleVersion`: logs 200 and writes the version JSON with the implicit status 200. */
  function HandleVersion(r: Request, version: string): (resp: Response)
    ensures resp.status == 200 && resp.log.code == resp.status
  {
    Response(LogRequest(r, 200), 200, VersionBody(version))
  }

  /**
   * `handleDefault`: the greeting on "/", a 500 when the host name cannot
   * be had, and a 404 naming the path otherwise. `hostName` stands for the
   * result of `os.Hostname()`, taken only on "/".
   */
  function HandleDefault(r: Request, hostName: Result<string, string>, version: string): (resp: Response)
    ensures resp.log.code == resp.status
  {
    if r.path == "/" then
      match hostName
      case Failure(err) =>
        Response(LogRequest(r, 500), 500, ErrorBody("Error getting hostname: " + err))
      case Success(name) =>
        Response(LogRequest(r, 200), 200, HelloBody(ClientAddress(r.forwardedFor, r.remoteAddr), name, version))
    else
      Response(LogRequest(r, 404), 404, ErrorBody("Path " + r.path + " not found"))
  }

  /** The version handler answers 200 with exactly `{"version": "<version>"}` whatever the request. */
  lemma VersionHandlerOk(r: Request, version: string)
    ensures HandleVersion(r, version).status == 200
    ensures HandleVersion(r, version).log == LogRecord(200, ClientAddress(r.forwardedFor, r.remoteAddr))
    ensures HandleVersion(r, version).body == "{\"version\": \"" + version + "\"}"
  {
  }

  /**
   * A character-level fact about the version body: the first `"` after the
   * opening quote of the value is the closing quote exactly when the version
   * holds no `"`. It does not say how a JSON reader treats a `"` that
   * follows a backslash.
   */
  lemma VersionBodyDelimited(version: string)
    ensures var rest := VersionBody(version)[|VersionJsonOpen|..];
            IndexByte(rest, '"') == |version| <==> '"' !in version
  {
    var rest := VersionBody(version)[|VersionJsonOpen|..];
    assert rest == version + VersionJsonClose;
    assert rest[..|version|] == version;
    assert rest[|version|] == '"';
    if '"' in version {
      var k :| 0 <= k < |version| && version[k] == '"';
      assert rest[k] == '"';
    }
  }

  /**
   * With no backslash in the version, every `"` in it is unescaped, so a
   * version holding a `"` has the value's JSON string end inside the version.
   */
  lemma UnescapedQuoteEndsValueEarly(version: string)
    requires '"' in version && '\\' !in version
    ensures var rest := VersionBody(version)[|VersionJsonOpen|..];
            var i := IndexByte(rest, '"');
            0 <= i < |version| && version[i] == '"' && forall j :: 0 <= j < i ==> rest[j] != '\\'
  {
    var rest := VersionBody(version)[|VersionJsonOpen|..];
    VersionBodyDelimited(version);
    assert rest == version + VersionJsonClose;
    var i := IndexByte(rest, '"');
    var k :| 0 <= k < |version| && version[k] == '"';
    assert rest[k] == '"';
    assert i <= k;
    forall j | 0 <= j < i ensures rest[j] != '\\' {
      assert rest[j] == version[j];
    }
  }

  /** The version `1"` (no backslash) ends the value's JSON string after `1`. */
  lemma QuotedVersionExample()
    ensures IndexByte(VersionBody("1\"")[|VersionJsonOpen|..], '"') == 1
  {
    assert "1\""[0] != '"';
    UnescapedQuoteEndsValueEarly("1\"");
  }

  /** On "/" with a host name the page answers 200 and shows the client, the host name and `version <version>`. */
  lemma DefaultRootOk(r: Request, name: string, version: string)
    requires r.path == "/"
    ensures var resp := HandleDefault(r, Success(name), version);
            var client := ClientAddress(r.forwardedFor, r.remoteAddr);
            && resp.status == 200
            && resp.log == LogRecord(200, client)
            && resp.body == HelloBody(client, name, version)
            && Contains(resp.body, client)
            && Contains(resp.body, name)
            && Contains(resp.body, VersionTag + version)
  {
  }

  /** Each substitution into the greeting template, and the version with its tag, appears in the page. */
  lemma TemplateContains(head: string, client: string, fromHost: string, name: string,
                         on: string, tag: string, version: string, tail: string)
    ensures var page := head + (client + (fromHost + (name + (on + (tag + (version + tail))))));
            && Contains(page, client)
            && Contains(page, name)
            && Contains(page, tag + version)
  {
    var afterName := on + (tag + (version + tail));
    ContainsPrefix(client, fromHost + (name + afterName));
    ContainsRight(head, client + (fromHost + (name + afterName)), client);
    ContainsPrefix(name, afterName);
    ContainsRight(fromHost, name + afterName, name);
    ContainsRight(client, fromHost + (name + afterName), name);
    ContainsRight(head, client + (fromHost + (name + afterName)), name);
    assert tag + (version + tail) == (tag + version) + tail;
    ContainsPrefix(tag + version, tail);
    ContainsRight(on, tag + (version + tail), tag + version);
    ContainsRight(name, afterName, tag + version);
    ContainsRight(fromHost, name + afterName, tag + version);
    ContainsRight(client, fromHost + (name + afterName), tag + version);
    ContainsRight(head, client + (fromHost + (name + afterName)), tag + version);
  }

  /** On "/" without a host name the handler answers 500 with the error text. */
  lemma DefaultRootHostNameError(r: Request, err: string, version: string)
    requires r.path == "/"
    ensures var resp := HandleDefault(r, Failure(err), version);
            && resp.status == 500
            && resp.log.code == 500
            && resp.body == "Error getting hostname: " + err + "\n"
  {
  }

  /** Any other path answers 404 with `Path <path> not found`, whatever the host name. */
  lemma DefaultNotFound(r: Request, hostName: Result<string, string>, other: Result<string, string>, version: string)
    requires r.path != "/"
    ensures var resp := HandleDefault(r, hostName, version);
            && resp.status == 404
            && resp.log.code == 404
            && Contains(resp.body, "Path " + r.path + " not found")
            && resp == HandleDefault(r, other, version)
  {
    ContainsMiddle("", "Path " + r.path + " not found", "\n");
    assert "" + ("Path " + r.path + " not found") + "\n" == ErrorBody("Path " + r.path + " not found");
  }

  /** A peer address that does not split still gets the greeting, addressed to "". */
  lemma MalformedPeerStillServed(r: Request, name: string, version: string)
    requires r.path == "/" && HeaderValue(r.forwardedFor) == ""
    requires SplitHostPort(r.remoteAddr).Failure?
    ensures HandleDefault(r, Success(name), version).status == 200
    ensures HandleDefault(r, Success(name), version).body == HelloBody("", name, version)
  {
  }

  // ---------------------------------------------------------------- routing

  /** The two handlers. */
  datatype Route = VersionRoute | DefaultRoute

  /** The patterns registered with the default ServeMux, in registration order. */
  const RouteTable: seq<(string, Route)> := [("/version", VersionRoute), ("/", DefaultRoute)]

  /** ServeMux's pattern rule: a pattern ending in "/" names a subtree, any other pattern one exact path. */
  predicate PatternMatches(pattern: string, path: string) {
    if |pattern| > 0 && pattern[|pattern| - 1] == '/' then pattern <= path else pattern == path
  }

  /** ServeMux's choice: among the patterns that match `path`, the longest one. */
  function LongestMatch(table: seq<(string, Route)>, path: string): (m: Option<(string, Route)>)
    ensures m.Some? ==> m.value in table && PatternMatches(m.value.0, path)
    ensures m.None? ==> forall e :: e in table ==> !PatternMatches(e.0, path)
    ensures m.Some? ==> forall e :: e in table && PatternMatches(e.0, path) ==> |e.0| <= |m.value.0|
  {
    if |table| == 0 then None
    else
      var rest := LongestMatch(table[1..], path);
      assert forall e :: e in table ==> e == table[0] || e in table[1..];
      if PatternMatches(table[0].0, path) && (rest.None? || |rest.value.0| < |table[0].0|) then Some(table[0])
      else rest
  }

  /** The route a path takes: exactly "/version" to the version handler, all else to the default one. */
  function RouteOf(path: string): (route: Route)
    ensures route == VersionRoute <==> path == "/version"
  {
    if path == "/version" then VersionRoute else DefaultRoute
  }

  /** For every path the server sees (one that starts with "/"), the longest-match rule picks `RouteOf`. */
  lemma RouteOfIsLongestMatch(path: string)
    requires |path| > 0 && path[0] == '/'
    ensures LongestMatch(RouteTable, path).Some?
    ensures LongestMatch(RouteTable, path).value.1 == RouteOf(path)
  {
    var rest := RouteTable[1..];
    assert rest == [("/", DefaultRoute)] && rest[1..] == [];
    assert PatternMatches("/", path);
    assert LongestMatch(rest, path) == Some(("/", DefaultRoute));
    assert PatternMatches("/version", path) <==> path == "/version";
  }

  /** A request dispatched through the route table. */
  function Serve(r: Request, hostName: Result<string, string>, version: string): (resp: Response)
    ensures resp.log.code == resp.status
    ensures resp.log.client == ClientAddress(r.forwardedFor, r.remoteAddr)
    ensures resp.status == 200 || resp.status == 404 || resp.status == 500
  {
    match RouteOf(r.path)
    case VersionRoute => HandleVersion(r, version)
    case DefaultRoute => HandleDefault(r, hostName, version)
  }

  /** Which status a request gets, in both directions. */
  lemma ServeStatus(r: Request, hostName: Result<string, string>, version: string)
    ensures Serve(r, hostName, version).status == 404 <==> r.path != "/" && r.path != "/version"
    ensures Serve(r, hostName, version).status == 500 <==> r.path == "/" && hostName.Failure?
    ensures Serve(r, hostName, version).status == 200 <==> r.path == "/version" || (r.path == "/" && hostName.Success?)
  {
  }

  /** `/version/` and `/versions` are not the exact pattern, so they reach the default handler and get 404. */
  lemma NearVersionPathsNotFound(r: Request, hostName: Result<string, string>, version: string)
    requires r.path == "/version/" || r.path == "/versions"
    ensures Serve(r, hostName, version).status == 404
  {
  }
}

# http-hello-go, modelled in Dafny

The hello server has two routes. `/version` answers with the build's version as a
one-key JSON object. Every other path goes to the default handler: `/` answers
with an HTML greeting that names the client, the host and the version, and any
other path gets a 404. The client is the first entry of `X-Forwarded-For` when
that header is non-empty, and otherwise the host part of the peer address.

The model keeps the request-handling logic in `main.go` and proves its properties.
Everything in that logic is a pure choice between branches, so it is written as
functions and lemmas:

- `wrappers.dfy`, module `Wrappers`: `Option` stands for a header that may be missing. `Result` stands for a library call that may fail.
- `strings.dfy`, module `GoStrings`: `strings.Split`, the one `strings` function the server calls, with `Index`, the search `Split` runs on. It also holds `IndexByte` and `LastIndexByte`, the byte searches inside `net.SplitHostPort`, and `Join` as the inverse of `Split`.
- `net.dfy`, module `GoNet`: `net.SplitHostPort` for addresses without square brackets.
- `server.dfy`, module `HelloServer`:
  - the version chosen at start-up (`init`);
  - `clientAddress`;
  - the two handlers, giving the log record, the status and the body;
  - the route table, with ServeMux's longest-match rule as the reference it is checked against.

Inputs that the program gets from its environment become parameters:

- the build-supplied `release`;
- the result of `os.Hostname()`, as `Result<string, string>` (the host name, or the error text);
- the request's path, its `X-Forwarded-For` value (`Option<string>`) and its `RemoteAddr`.

`logRequest` is modelled only by what it records that the handlers decide: the
status code it is given and the client address it resolves.

Two details follow the code rather than the documented behaviour of the endpoints:

- The version endpoint is described as returning JSON whose `version` is the configured version. The code formats the version into the object without escaping it. Under the JSON string rules (section 7 of RFC 8259), the value then reads back as exactly the version only when the version holds no `"`, no `\` and no character below U+0020. A backslash can still give valid JSON with a different value: `\\` reads back as one backslash. A control character such as a newline makes the body invalid JSON. The model proves only the character-level part: `VersionBodyDelimited` says where the first `"` falls, and `UnescapedQuoteEndsValueEarly` says that a version with a `"` and no backslash ends the value's string inside the version. It contains no JSON decoder.
- `http.Error` writes its message followed by a newline, so the 404 and 500 bodies end in `"\n"`.

## Model

| member | source | states |
|---|---|---|
| GoStrings.IndexByte | main.go:54 | the result is the first index holding the byte, or -1 exactly when the byte is absent |
| GoStrings.LastIndexByte | main.go:54 | the result is the last index holding the byte, or -1 exactly when the byte is absent |
| GoStrings.Index | main.go:51 | the result is an occurrence of the separator with none before it, or -1 exactly when the text does not contain the separator |
| GoStrings.Split | main.go:51 | a split always has at least one part, so `strings.Split(v, ", ")[0]` never fails |
| GoStrings.SplitJoin | main.go:51 | joining the parts of a split with the separator gives back the original text |
| GoStrings.SplitPartsExcludeSep | main.go:51 | no part of a split contains the separator |
| GoStrings.SplitFirst | main.go:51 | part 0 is the text before the first separator (all of the text when there is none) and contains no separator |
| GoStrings.BeforeFirstUnique | main.go:51 | "the text before the first separator" names only one string |
| GoStrings.BeforeFirstExcludesSep | main.go:51 | the text before the first separator contains no separator |
| GoNet.SplitHostPort | main.go:54 | on success the address is host + ":" + port, and neither part holds a colon or a bracket; the error is MissingPort exactly when the address has no colon |
| GoNet.SplitHostPortJoin | main.go:54 | every plain host and plain port joined by one colon split back into that host and that port |
| GoNet.TwoColonsRefused | main.go:54-57 | an address with two colons is refused as having too many colons |
| HelloServer.HeaderValue | main.go:50 | `Header.Get` gives the header's value when it is present, and "" when it is missing |
| HelloServer.ResolveVersion | main.go:22-28 | the version is the release when one is supplied, and exactly "0.0.1-UNRELEASED" otherwise, so it is never empty |
| HelloServer.ClientAddress | main.go:49-60 | with no usable header and a peer address that does not split, the client is "" (the error is not fatal) |
| HelloServer.ForwardedForWins | main.go:50-51 | a non-empty X-Forwarded-For value gives the text before its first ", " (all of it if there is none); that text has no ", " and does not depend on the peer address |
| HelloServer.ForwardedForFirstEntry | main.go:50-51 | a chain `A, B`, where A holds no ", ", resolves to A (an empty A included) |
| HelloServer.EmptyFirstEntryExample | main.go:50-51 | header ", 1.2.3.4" resolves to "", not to the second entry or the peer host |
| HelloServer.ForwardedForExample | main_test.go:26-39 | header "90.12.34.56, 12.34.56.78" with peer "12.34.56.78:8080" resolves to "90.12.34.56" |
| HelloServer.PeerHostWhenNoForwardedFor | main.go:52-54 | with the header missing or empty, a peer address `H:P` (H and P plain) resolves to H |
| HelloServer.PeerAddressExample | main_test.go:13-24 | with no header, peer "12.34.56.78:8080" resolves to "12.34.56.78" |
| HelloServer.MalformedPeerAddress | main.go:54-57 | with no usable header, a peer address with no colon or with two or more colons resolves to "" |
| HelloServer.LogRequest | main.go:63-67 | the record keeps the code it is given, and the client address the request resolves to |
| HelloServer.VersionBody | main.go:73 | the body is `{"version": "`, then the version unchanged, then `"}` |
| HelloServer.HelloBody | main.go:32-44 | the page filled in from the template holds the client, the host name and "version " + version |
| HelloServer.ErrorBody | main.go:85 | the `http.Error` body is the message followed by one newline, so it contains the message |
| HelloServer.HandleVersion | main.go:70-76 | the version handler's status is 200 and its logged code equals its status |
| HelloServer.VersionHandlerOk | main.go:71-73 | for any request the version handler logs 200 with the resolved client, answers 200, and writes exactly `{"version": "` + version + `"}` |
| HelloServer.VersionBodyDelimited | main.go:73 | character level only: the first `"` after the value's opening quote is the closing one exactly when the version contains no `"` |
| HelloServer.UnescapedQuoteEndsValueEarly | main.go:73 | for a version with a `"` and no backslash, the first `"` after the opening quote lies inside the version, with no backslash before it |
| HelloServer.QuotedVersionExample | main.go:73 | for the version `1"`, the value's string is closed right after `1` |
| HelloServer.HandleDefault | main.go:79-97 | the default handler's logged code always equals the status it writes |
| HelloServer.DefaultRootOk | main.go:80-93 | on "/" with a host name: status 200, logged 200 with the client, and a page containing the client, the host name and "version " + version |
| HelloServer.DefaultRootHostNameError | main.go:81-86 | on "/" without a host name: status 500, logged 500, body "Error getting hostname: " + error + newline |
| HelloServer.DefaultNotFound | main.go:95-96 | any path other than "/": status 404, logged 404, a body containing "Path " + path + " not found", whatever the host name |
| HelloServer.MalformedPeerStillServed | main.go:88-90 | a peer address that does not split still gets the 200 greeting, with "" as the client |
| HelloServer.TemplateContains | main.go:32-44 | each of the three values substituted into the greeting template, and "version " + version, appears in the page |
| HelloServer.RouteOf | main.go:102-103 | a path goes to the version handler exactly when it is "/version"; every other path goes to the default handler |
| HelloServer.LongestMatch | main.go:102-103 | ServeMux's choice is a registered pattern that matches the path (exact, or subtree for a trailing "/"), and is no shorter than any other matching pattern; there is no choice only when no pattern matches |
| HelloServer.RouteOfIsLongestMatch | main.go:102-103 | for every path starting with "/", the longest-match rule sends exactly "/version" to the version handler and every other path to the default handler |
| HelloServer.Serve | main.go:102-103 | for every request the logged code equals the status, the logged client is the resolved client, and the status is 200, 404 or 500 |
| HelloServer.ServeStatus | main.go:80-97 | 404 exactly for paths other than "/" and "/version"; 500 exactly for "/" with no host name; 200 exactly for "/version" and for "/" with a host name |
| HelloServer.NearVersionPathsNotFound | main.go:102-103 | "/version/" and "/versions" do not match the exact pattern "/version", so they get 404 |

## Left out

- Listener setup, `http.Serve`, the signal channel and its goroutine, and `os.Exit` in `startServer` and `main` (main.go:101-129). They are I/O and concurrency, and their only effect is the lifetime of the process.
- The lines written by `log.Printf`. A log record keeps only the code passed to `logRequest` and the client it resolves. The request method, the user agent and the logged split error are not modelled.
- `os.Hostname()` is an input, not a modelled call.
- GoNet.SplitHostPort: the bracketed form (`[::1]:80`) and zones are not modelled. Any address containing a bracket is refused here, while Go's library accepts a well-formed bracketed address. The error values are not the library's error messages.
- `Header.Get`'s canonicalisation of header names and its handling of repeated headers. The header is one optional value.
- ServeMux path cleaning and redirects. `RouteOfIsLongestMatch` therefore covers only paths that start with "/", which cleaning guarantees.
- Response headers (`Content-Type` from `handleVersion` and from `http.Error`, and content sniffing), and response-write failures, which the handlers only log (main.go:73-75, 90-92).
- The `strings.Split` behaviour for an empty separator. The server always splits on ", ".
- Go strings are byte strings, and Dafny's `string` is a sequence of characters. Nothing depends on this: every search in the model is for an ASCII character (`:`, `[`, `]`, `", "`), and text is cut only at those characters. So it does not matter whether a text is read as bytes or as characters.

# xrealip in Dafny

A model of the xrealip middleware (`xrealip.go`), a Traefik plugin that
works like nginx's `ngx_http_realip_module`. It picks the "real" client
address of a request from a forwarding header and writes it to the
`X-Real-Ip` header:

- `New` sorts the configured trusted entries (`set_real_ip_from`). An
  entry that parses as an address goes into `fromIP`. Any other entry must
  parse as a CIDR block and goes into `fromIPNet`. An entry that is neither
  makes construction fail.
- `getXRealIP` reads the first value of the configured header
  (`real_ip_header`). The peer address is kept when that value is empty or
  when the peer is not one of the trusted literal addresses. Otherwise the
  value is split on commas:
  - non-recursive mode returns the trimmed last segment;
  - recursive mode (`real_ip_recursive`) scans right to left for the first
    untrusted segment, and falls back to the trimmed last segment.
- `ServeHTTP` stores the result under `X-Real-Ip`.

Files and modules:

- `wrappers.dfy` (`Wrappers`): `Option`, and `Result` for Go's `(value, error)` returns.
- `strings.dfy` (`Strings`): Go's `strings.TrimSpace` and `strings.Split(s, ",")`,
  written out concretely, with `Join` as the inverse of `Split`.
- `net.dfy` (`Net`): `IP`, `IPNet` and `ParseError`, and `Parsers`. `Parsers`
  stands in for `net.ParseIP` and `net.ParseCIDR`: each is a function-valued
  parameter, and a `None` result is Go's `nil` or error.
- `http.dfy` (`Http`): the header map, `Header.Get` (first value only),
  `Header.Set`, and a `Request` class whose header map is changed in place.
- `xrealip.dfy` (`XRealIP`): the configuration, the specification functions,
  the `Demo` class (`TrustRemote`, `LastNotMatched`, `GetXRealIP`, `ServeHTTP`),
  `New`, and the lemmas.
- `xrealip_examples.dfy` (`XRealIPExamples`): cases from `xrealip_test.go` written
  as lemmas. Each one holds for any address texts of the shape the tests use.

The imperative parts of the source stay imperative:

- `New` is a method. Its loop appends to the fields of a freshly built
  `Demo` and returns early on the first bad entry.
- `containsIP` and `lastNotMatched` are loops with early returns. Their
  loop invariants prove them against the specification functions `Trusted`
  and `RightmostUntrusted`.
- `ServeHTTP` updates the request's header map in place.

Where a reader of nginx's `ngx_http_realip_module` documentation or of the
`Config` doc comment (`xrealip.go:12-32`) might expect otherwise, the model
follows the code:

- CIDR entries are parsed but never consulted. Only `fromIP` is searched
  (`xrealip.go:89`, `xrealip.go:97`), so a peer inside a configured range is
  not trusted (`RangeEntryDoesNotTrust`).
- In recursive mode with every segment trusted, the fallback is the
  rightmost segment (`xrealip.go:102`), not the leftmost one
  (`AllTrustedFallbackIsRightmost`).
- `Header.Get` returns only the first value under the header name. The test
  with the two values `remoteAddr` and `"127.0.0.1"` therefore sees only
  `remoteAddr` (`OnlyFirstHeaderValueSeen`).
- A header value made only of white space is not empty. A trusted peer then
  gets the empty string as its address (`BlankHeaderResolvesToEmpty`).

## Model

| member | source | states |
|---|---|---|
| `Strings.TrimLeftRemovesLeadingSpace` | xrealip.go:94 | the left trim keeps a suffix that does not start with white space, and everything it removed is white space |
| `Strings.TrimRightRemovesTrailingSpace` | xrealip.go:94 | the right trim keeps a prefix that does not end with white space, and everything it removed is white space |
| `Strings.TrimSpaceIsInfix` | xrealip.go:94 | `TrimSpace(s)` is an infix of `s` with no white space at either end, and everything cut off on both sides is white space |
| `Strings.TrimSpaceOfTrimmed` | xrealip.go:115 | a text with no white space at either end is left unchanged by trimming |
| `Strings.TrimSpaceIdempotent` | xrealip.go:102 | trimming twice gives the same result as trimming once |
| `Strings.Split` | xrealip.go:111 | splitting always gives at least one segment, even for "", so the index `len-1` at lines 102 and 115 is in range |
| `Strings.JoinSplit` | xrealip.go:111 | no segment holds a comma, and joining the segments with commas gives the header value back |
| `Strings.SplitJoin` | xrealip.go:111 | splitting the comma-join of comma-free pieces gives those pieces back, so `Split` and `Join` are inverses |
| `Strings.SplitNoComma` | xrealip.go:111 | a value without a comma is a single segment |
| `Strings.SplitComma` | xrealip.go:111 | a comma-free head followed by a comma becomes the first segment, and the rest splits on its own |
| `Strings.JoinConsFirst` | xrealip.go:111 | prepending a character to the first piece prepends it to the joined text |
| `Http.Get` | xrealip.go:106 | the first value under the key, or "" when the key is absent or has no values |
| `Http.Request.constructor` | xrealip_test.go:275 | the request carries the given peer address and header map |
| `Http.Set` | xrealip.go:125 | after the write the key holds exactly the new value, and every other key keeps its values |
| `XRealIP.CreateConfig` | xrealip.go:36-40 | the default configuration has no trusted entries, reads `X-Forwarded-For` and has recursive search off |
| `XRealIP.New` | xrealip.go:53-76 | fails exactly when some entry is neither an address nor a CIDR block, and then reports the first such entry; on success the lists are the literal addresses and the CIDR blocks, in configuration order |
| `XRealIP.Demo.constructor` | xrealip.go:55-60 | the instance starts with the given configuration and two empty lists |
| `XRealIP.LiteralAddrsMembership` | xrealip.go:62-66 | an address is in `fromIP` iff some configured entry parses to exactly that address |
| `XRealIP.LiteralAddrsAppend` | xrealip.go:62-66 | sorting a concatenation of configurations concatenates their address lists, so configuration order is kept |
| `XRealIP.EntriesAccountedFor` | xrealip.go:62-73 | when every entry is valid, `|fromIP| + |fromIPNet| == |from|` |
| `XRealIP.ContainsIP` | xrealip.go:78-86 | returns true iff the address is present and equals some element of the list; a `nil` address never matches |
| `XRealIP.Demo.TrustRemote` | xrealip.go:88-90 | the peer is trusted iff its parsed address is in `fromIP`; `fromIPNet` plays no part |
| `XRealIP.TrustedIffLiteralEntry` | xrealip.go:88-90 | for an accepted configuration, a peer is trusted iff some configured entry parses as an address equal to the peer's |
| `XRealIP.RightmostUntrusted` | xrealip.go:93-100 | gives the largest index of a segment whose trimmed text is not a trusted address (a text that does not parse counts as untrusted), or -1 when there is none; every segment to its right is trusted |
| `XRealIP.LastNotTrustedIndex` | xrealip.go:92-103 | the index of the segment `lastNotMatched` returns is in range |
| `XRealIP.Demo.LastNotMatched` | xrealip.go:92-103 | the right-to-left scan returns the trimmed rightmost untrusted segment, or the trimmed last segment when all are trusted |
| `XRealIP.ResolvedAddr` | xrealip.go:105-122 | an empty header value keeps the peer address; an untrusted peer keeps its address whatever the header holds; any other result is the trimmed text of one of the header's segments |
| `XRealIP.Demo.GetXRealIP` | xrealip.go:105-122 | the method builds the result that `ResolvedAddr` describes from the request's peer address and header |
| `XRealIP.NonRecursiveTakesLast` | xrealip.go:113-116 | with a trusted peer and recursive search off, the result is the trimmed last segment |
| `XRealIP.RecursiveTakesRightmostUntrusted` | xrealip.go:92-100 | with a trusted peer and recursive search on, an untrusted segment with only trusted segments to its right is the result |
| `XRealIP.RecursiveAllTrustedTakesLast` | xrealip.go:102 | with a trusted peer, recursive search on and every segment trusted, the result is the trimmed last segment, not the peer |
| `XRealIP.RecursiveAllTrustedAgreesWithNonRecursive` | xrealip.go:113-118 | when every segment is trusted, both modes give the same result |
| `XRealIP.DefaultConfigKeepsPeer` | xrealip.go:36-40 | under the default configuration no request is rewritten |
| `XRealIP.Demo.ServeHTTP` | xrealip.go:124-127 | `X-Real-Ip` is set to the address resolved from the header as it was on entry; all other keys are unchanged |
| `XRealIPExamples.LiteralAddrsOfOne` | xrealip_test.go:57-66 | a one-entry configuration of an address yields exactly that address |
| `XRealIPExamples.LiteralAddrsOfTwo` | xrealip_test.go:186-197 | a two-entry configuration of addresses yields both, in order |
| `XRealIPExamples.TrimOneBlank` | xrealip_test.go:67-77 | a segment written with one blank after the comma trims to the bare address |
| `XRealIPExamples.SplitTwo` | xrealip_test.go:67-77 | "a, b" splits into "a" and " b" |
| `XRealIPExamples.SplitThree` | xrealip_test.go:198-209 | "a, b, c" splits into "a", " b" and " c" |
| `XRealIPExamples.UntrustedPeerKept` | xrealip_test.go:45-55 | a peer unlike the only configured address keeps its own address, in either mode, whichever header is read (`X-Forwarded-For` or `X-Real-Ip`, lines 45-55 and 108-118) and whatever it holds |
| `XRealIPExamples.RangeEntryDoesNotTrust` | xrealip.go:62-73 | a configuration made of a CIDR entry trusts no peer |
| `XRealIPExamples.NonRecursiveLastSegment` | xrealip_test.go:67-77 | non-recursive mode resolves "a, b" to "b" |
| `XRealIPExamples.RecursiveSkipsTrusted` | xrealip_test.go:198-209 | recursive mode resolves "a, b, c" with `c` trusted and `b` untrusted to "b" |
| `XRealIPExamples.OnlyFirstHeaderValueSeen` | xrealip_test.go:255-266 | with header values `[remoteAddr, other]` only the first is read, and the result is `remoteAddr` |
| `XRealIPExamples.AllTrustedFallbackIsRightmost` | xrealip.go:102 | recursive mode resolves "remoteAddr, b" with both trusted to "b", the rightmost segment |
| `XRealIPExamples.BlankHeaderResolvesToEmpty` | xrealip.go:106-115 | a header value of one blank resolves to the empty string for a trusted peer, in either mode |

## Left out

- `net.ParseIP` and `net.ParseCIDR` are not implemented. They are the `Parsers` parameter, and each lemma assumes only which texts parse and to which addresses. `IP.Equal` is modelled as equality, so the parser is taken to return one canonical form per address (IPv4 and IPv4-mapped IPv6 forms are not told apart).
- CIDR range membership: the source never tests an address against `fromIPNet`, so there is nothing to model.
- Header-key canonicalisation (`textproto.CanonicalMIMEHeaderKey` in `Header.Get` and `Header.Set`): keys are compared as given. The keys the source and its tests use (`X-Forwarded-For`, `X-Real-Ip`) are already canonical.
- `RemoteAddr` is taken as the text the request carries. A real server sets it to `host:port`, which `net.ParseIP` rejects; the model passes it on unchanged, as the source does.
- Strings are `seq<char>`. Go's byte strings and invalid UTF-8 are not modelled. `IsSpace` is Unicode's White_Space set, as `unicode.IsSpace` uses.
- Forwarding the request to `next.ServeHTTP`, the `http.ResponseWriter`, logging in `New`, and the unused `ctx`, `name` and `next` fields: transport glue and side effects with no logic.
- Go's panics on a nil `req.Header` (`xrealip.go:125`) or a nil `config` (`xrealip.go:62`) cannot arise: `Header` is a plain map value and `Config` is a value, so neither can be nil.
- Hostname and `unix:` trusted entries: they appear only in the doc comment of `Config`, and no code implements them.
- The test harness in `xrealip_test.go` (running subtests, building requests): its cases are restated as lemmas in `XRealIPExamples`, for any address texts of the shape the tests use rather than the literal texts.

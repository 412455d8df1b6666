/**
 * The xrealip middleware: picks the "real" client address of a request from
 * a forwarding header, after nginx's `ngx_http_realip_module`
 * (`set_real_ip_from`, `real_ip_header`, `real_ip_recursive`), and writes it
 * to the `X-Real-Ip` header.
 */
module XRealIP {
  import opened Wrappers
  import opened Strings
  import opened Net
  import opened Http

  /** The plugin configuration: trusted entries, the header to read, recursive search. */
  datatype Config = Config(from: seq<string>, header: string, recursive: bool)

  /** The header the resolved address is written to. */
  const RealIPHeader: string := "X-Real-Ip"

  /** `CreateConfig`: no trusted entries, read `X-Forwarded-For`, recursive search off. */
  function CreateConfig(): (c: Config)
    ensures c.from == [] && c.header == "X-Forwarded-For" && !c.recursive
  {
    Config([], "X-Forwarded-For", false)
  }

  // ---------------------------------------------------------------------
  // Construction: sorting the trusted entries
  // ---------------------------------------------------------------------

  /** An entry that parses as a literal address. */
  predicate IsLiteral(entry: string, p: Parsers) {
    p.parseIP(entry).Some?
  }

  /** An entry that is not a literal address but parses as a CIDR block. */
  predicate IsRange(entry: string, p: Parsers) {
    p.parseIP(entry).None? && p.parseCIDR(entry).Some?
  }

  /** An entry `New` accepts. */
  predicate IsValidEntry(entry: string, p: Parsers) {
    IsLiteral(entry, p) || IsRange(entry, p)
  }

  /** The parsed literal addresses among `from`, in configuration order. */
  function LiteralAddrs(from: seq<string>, p: Parsers): seq<IP>
    decreases |from|
  {
    if from == [] then []
    else
      var init := LiteralAddrs(from[..|from| - 1], p);
      match p.parseIP(from[|from| - 1])
      case Some(ip) => init + [ip]
      case None => init
  }

  /** The parsed CIDR blocks among the non-literal entries of `from`, in configuration order. */
  function RangeNets(from: seq<string>, p: Parsers): seq<IPNet>
    decreases |from|
  {
    if from == [] then []
    else
      var init := RangeNets(from[..|from| - 1], p);
      var last := from[|from| - 1];
      if p.parseIP(last).None? && p.parseCIDR(last).Some? then init + [p.parseCIDR(last).value]
      else init
  }

  /** An address is among the literal addresses iff some entry parses to exactly it. */
  lemma {:induction false} LiteralAddrsMembership(from: seq<string>, p: Parsers, x: IP)
    ensures x in LiteralAddrs(from, p) <==> exists k :: 0 <= k < |from| && p.parseIP(from[k]) == Some(x)
    decreases |from|
  {
    if from != [] {
      var init := from[..|from| - 1];
      LiteralAddrsMembership(init, p, x);
      if exists k :: 0 <= k < |from| && p.parseIP(from[k]) == Some(x) {
        var k :| 0 <= k < |from| && p.parseIP(from[k]) == Some(x);
        if k < |from| - 1 {
          assert init[k] == from[k];
        }
      }
    }
  }

  /** Sorting entries respects concatenation of configurations, so their order is kept. */
  lemma {:induction false} LiteralAddrsAppend(a: seq<string>, b: seq<string>, p: Parsers)
    ensures LiteralAddrs(a + b, p) == LiteralAddrs(a, p) + LiteralAddrs(b, p)
    decreases |b|
  {
    if b == [] {
      assert a + b == a;
    } else {
      var b' := b[..|b| - 1];
      assert (a + b)[..|a + b| - 1] == a + b';
      LiteralAddrsAppend(a, b', p);
    }
  }

  /** When every entry is valid, each one lands in exactly one of the two lists. */
  lemma {:induction false} EntriesAccountedFor(from: seq<string>, p: Parsers)
    requires forall k :: 0 <= k < |from| ==> IsValidEntry(from[k], p)
    ensures |LiteralAddrs(from, p)| + |RangeNets(from, p)| == |from|
    decreases |from|
  {
    if from != [] {
      var init := from[..|from| - 1];
      assert forall k :: 0 <= k < |init| ==> init[k] == from[k];
      EntriesAccountedFor(init, p);
    }
  }

  // ---------------------------------------------------------------------
  // Trust and the recursive scan, as specifications
  // ---------------------------------------------------------------------

  /**
   * The trust test: the parsed address equals one of the literal addresses.
   * A `nil` address never matches, and CIDR blocks are not consulted.
   */
  predicate Trusted(ip: Option<IP>, fromIP: seq<IP>) {
    ip.Some? && ip.value in fromIP
  }

  /** A header segment whose trimmed text parses to a trusted address. */
  predicate SegmentTrusted(segment: string, fromIP: seq<IP>, p: Parsers) {
    Trusted(p.parseIP(TrimSpace(segment)), fromIP)
  }

  /** The largest index of an untrusted segment, or -1 when every segment is trusted. */
  function RightmostUntrusted(segments: seq<string>, fromIP: seq<IP>, p: Parsers): (k: int)
    ensures -1 <= k < |segments|
    ensures 0 <= k ==> !SegmentTrusted(segments[k], fromIP, p)
    ensures forall j :: k < j < |segments| ==> SegmentTrusted(segments[j], fromIP, p)
    decreases |segments|
  {
    if segments == [] then -1
    else if !SegmentTrusted(segments[|segments| - 1], fromIP, p) then |segments| - 1
    else
      var init := segments[..|segments| - 1];
      var k := RightmostUntrusted(init, fromIP, p);
      assert forall j :: 0 <= j < |init| ==> init[j] == segments[j];
      k
  }

  /**
   * The index of the segment `lastNotMatched` returns: the rightmost
   * untrusted segment or, when all are trusted, the LAST segment.
   */
  function LastNotTrustedIndex(segments: seq<string>, fromIP: seq<IP>, p: Parsers): (i: nat)
    requires |segments| >= 1
    ensures i < |segments|
  {
    var k := RightmostUntrusted(segments, fromIP, p);
    if k >= 0 then k else |segments| - 1
  }

  /**
   * What `getXRealIP` returns for a peer address and a request header.
   * The peer address is kept when the header is empty or the peer is not
   * trusted; otherwise the result is one of the trimmed header segments.
   */
  function ResolvedAddr(config: Config, fromIP: seq<IP>, p: Parsers, remoteAddr: string, header: Header): (r: string)
    ensures Get(header, config.header) == "" ==> r == remoteAddr
    ensures !Trusted(p.parseIP(remoteAddr), fromIP) ==> r == remoteAddr
    ensures r == remoteAddr
            || exists k :: 0 <= k < |Split(Get(header, config.header))|
                           && r == TrimSpace(Split(Get(header, config.header))[k])
  {
    var headerValue := Get(header, config.header);
    if headerValue == "" then remoteAddr
    else
      var headerValues := Split(headerValue);
      if Trusted(p.parseIP(remoteAddr), fromIP) then
        if !config.recursive then
          var last := TrimSpace(headerValues[|headerValues| - 1]);
          assert last == TrimSpace(Split(headerValue)[|headerValues| - 1]);
          last
        else
          var i := LastNotTrustedIndex(headerValues, fromIP, p);
          assert TrimSpace(headerValues[i]) == TrimSpace(Split(headerValue)[i]);
          TrimSpace(headerValues[i])
      else remoteAddr
  }

  /** Non-recursive mode with a trusted peer: the trimmed last segment wins. */
  lemma NonRecursiveTakesLast(config: Config, fromIP: seq<IP>, p: Parsers, remoteAddr: string, header: Header)
    requires Get(header, config.header) != "" && !config.recursive
    requires Trusted(p.parseIP(remoteAddr), fromIP)
    ensures var segments := Split(Get(header, config.header));
            ResolvedAddr(config, fromIP, p, remoteAddr, header) == TrimSpace(segments[|segments| - 1])
  {
  }

  /**
   * Recursive mode with a trusted peer: an untrusted segment `k` with only
   * trusted segments to its right is the answer.
   */
  lemma {:induction false} RecursiveTakesRightmostUntrusted(config: Config, fromIP: seq<IP>, p: Parsers,
                                                            remoteAddr: string, header: Header, k: nat)
    requires Get(header, config.header) != "" && config.recursive
    requires Trusted(p.parseIP(remoteAddr), fromIP)
    requires k < |Split(Get(header, config.header))|
    requires !SegmentTrusted(Split(Get(header, config.header))[k], fromIP, p)
    requires forall j :: k < j < |Split(Get(header, config.header))| ==>
               SegmentTrusted(Split(Get(header, config.header))[j], fromIP, p)
    ensures ResolvedAddr(config, fromIP, p, remoteAddr, header) == TrimSpace(Split(Get(header, config.header))[k])
  {
  }

  /**
   * Recursive mode with a trusted peer and every segment trusted: the
   * trimmed LAST segment is returned, never the peer address.
   */
  lemma {:induction false} RecursiveAllTrustedTakesLast(config: Config, fromIP: seq<IP>, p: Parsers,
                                                        remoteAddr: string, header: Header)
    requires Get(header, config.header) != "" && config.recursive
    requires Trusted(p.parseIP(remoteAddr), fromIP)
    requires forall j :: 0 <= j < |Split(Get(header, config.header))| ==>
               SegmentTrusted(Split(Get(header, config.header))[j], fromIP, p)
    ensures var segments := Split(Get(header, config.header));
            ResolvedAddr(config, fromIP, p, remoteAddr, header) == TrimSpace(segments[|segments| - 1])
  {
  }

  /** The all-trusted fallback and non-recursive mode agree. */
  lemma RecursiveAllTrustedAgreesWithNonRecursive(config: Config, fromIP: seq<IP>, p: Parsers,
                                                  remoteAddr: string, header: Header)
    requires Get(header, config.header) != ""
    requires forall j :: 0 <= j < |Split(Get(header, config.header))| ==>
               SegmentTrusted(Split(Get(header, config.header))[j], fromIP, p)
    ensures ResolvedAddr(config.(recursive := true), fromIP, p, remoteAddr, header)
            == ResolvedAddr(config.(recursive := false), fromIP, p, remoteAddr, header)
  {
    if Trusted(p.parseIP(remoteAddr), fromIP) {
      RecursiveAllTrustedTakesLast(config.(recursive := true), fromIP, p, remoteAddr, header);
    }
  }

  /**
   * Trust through a configuration that `New` accepted: a peer is trusted iff
   * some configured entry parses, as a literal address, to exactly the
   * peer's address. An entry taken as a CIDR block never makes a peer trusted.
   */
  lemma TrustedIffLiteralEntry(config: Config, p: Parsers, remoteAddr: string)
    ensures Trusted(p.parseIP(remoteAddr), LiteralAddrs(config.from, p))
            <==> exists k :: 0 <= k < |config.from| && p.parseIP(config.from[k]) == p.parseIP(remoteAddr)
                             && p.parseIP(remoteAddr).Some?
  {
    if p.parseIP(remoteAddr).Some? {
      LiteralAddrsMembership(config.from, p, p.parseIP(remoteAddr).value);
    }
  }

  /** Under the default configuration no peer is trusted, so no request is rewritten. */
  lemma DefaultConfigKeepsPeer(p: Parsers, remoteAddr: string, header: Header)
    ensures ResolvedAddr(CreateConfig(), LiteralAddrs(CreateConfig().from, p), p, remoteAddr, header) == remoteAddr
  {
  }

  // ---------------------------------------------------------------------
  // The middleware
  // ---------------------------------------------------------------------

  /** `containsIP`: whether `ip` equals some element of `ips`. */
  method ContainsIP(ip: Option<IP>, ips: seq<IP>) returns (found: bool)
    ensures found <==> ip.Some? && exists k :: 0 <= k < |ips| && ips[k] == ip.value
  {
    for i := 0 to |ips|
      invariant ip.None? || forall k :: 0 <= k < i ==> ips[k] != ip.value
    {
      if Some(ips[i]) == ip {
        return true;
      }
    }
    return false;
  }

  /** The plugin instance: its configuration and the two sorted lists of trusted entries. */
  class Demo {
    const config: Config
    var fromIP: seq<IP>
    var fromIPNet: seq<IPNet>

    /** The bare instance `New` starts from, before any entry is sorted. */
    constructor (config: Config)
      ensures this.config == config && fromIP == [] && fromIPNet == []
    {
      this.config := config;
      fromIP := [];
      fromIPNet := [];
    }

    /** `trustRemote`: only the literal addresses are consulted. */
    method TrustRemote(remoteAddr: Option<IP>) returns (t: bool)
      ensures t <==> Trusted(remoteAddr, fromIP)
    {
      t := ContainsIP(remoteAddr, fromIP);
    }

    /** `lastNotMatched`: scan the segments right to left for the first untrusted one. */
    method LastNotMatched(headerValues: seq<string>, p: Parsers) returns (r: string)
      requires |headerValues| >= 1
      ensures r == TrimSpace(headerValues[LastNotTrustedIndex(headerValues, fromIP, p)])
    {
      ghost var k := RightmostUntrusted(headerValues, fromIP, p);
      var i := |headerValues| - 1;
      while i >= 0
        invariant -1 <= i < |headerValues|
        invariant k <= i
      {
        var headerValueTrimmed := TrimSpace(headerValues[i]);
        var value := p.parseIP(headerValueTrimmed);
        var contained := ContainsIP(value, fromIP);
        if !contained {
          assert !SegmentTrusted(headerValues[i], fromIP, p);
          return headerValueTrimmed;
        }
        i := i - 1;
      }
      return TrimSpace(headerValues[|headerValues| - 1]);
    }

    /** `getXRealIP`: the address to expose for `req`. */
    method GetXRealIP(req: Request, p: Parsers) returns (r: string)
      ensures r == ResolvedAddr(config, fromIP, p, req.remoteAddr, req.header)
    {
      var headerValue := Get(req.header, config.header);
      if headerValue == "" {
        return req.remoteAddr;
      }
      var headerValues := Split(headerValue);
      var remoteAddrIP := p.parseIP(req.remoteAddr);
      var trusted := TrustRemote(remoteAddrIP);
      if trusted {
        if !config.recursive {
          return TrimSpace(headerValues[|headerValues| - 1]);
        }
        r := LastNotMatched(headerValues, p);
        return r;
      }
      return req.remoteAddr;
    }

    /**
     * `ServeHTTP`: sets `X-Real-Ip` to the resolved address, computed from
     * the header as it was on entry; every other header key is untouched.
     */
    method ServeHTTP(req: Request, p: Parsers)
      modifies req
      ensures req.header == Set(old(req.header), RealIPHeader,
                                ResolvedAddr(config, fromIP, p, req.remoteAddr, old(req.header)))
    {
      var realIP := GetXRealIP(req, p);
      req.header := Set(req.header, RealIPHeader, realIP);
    }
  }

  /**
   * `New`: sorts each entry of `config.from` into the literal addresses or
   * the CIDR blocks, in order, and fails on the first entry that is neither.
   */
  method New(config: Config, p: Parsers) returns (r: Result<Demo, ParseError>)
    ensures r.Failure? <==> exists k :: 0 <= k < |config.from| && !IsValidEntry(config.from[k], p)
    ensures r.Failure? ==>
              exists k :: 0 <= k < |config.from| && !IsValidEntry(config.from[k], p)
                          && (forall j :: 0 <= j < k ==> IsValidEntry(config.from[j], p))
                          && r.error == CIDRError(config.from[k])
    ensures r.Success? ==>
              fresh(r.value) && r.value.config == config
              && r.value.fromIP == LiteralAddrs(config.from, p)
              && r.value.fromIPNet == RangeNets(config.from, p)
  {
    var demo := new Demo(config);
    for i := 0 to |config.from|
      invariant demo.config == config
      invariant demo.fromIP == LiteralAddrs(config.from[..i], p)
      invariant demo.fromIPNet == RangeNets(config.from[..i], p)
      invariant forall j :: 0 <= j < i ==> IsValidEntry(config.from[j], p)
    {
      var ipMask := config.from[i];
      assert config.from[..i + 1][..i] == config.from[..i];
      var ipAddr := p.parseIP(ipMask);
      if ipAddr.Some? {
        demo.fromIP := demo.fromIP + [ipAddr.value];
        continue;
      }
      var ipNet := p.parseCIDR(ipMask);
      if ipNet.None? {
        return Failure(CIDRError(ipMask));
      }
      demo.fromIPNet := demo.fromIPNet + [ipNet.value];
    }
    assert config.from[..|config.from|] == config.from;
    return Success(demo);
  }
}

/**
 * Cases from the repository's table-driven test of `getXRealIP`, restated
 * over the model. They are stated for any address texts of the shape the
 * tests use (no comma, no white space at either end), and the parser is
 * left abstract: each lemma assumes only which texts parse, and to which
 * addresses.
 */
module XRealIPExamples {
  import opened Wrappers
  import opened Strings
  import opened Net
  import opened Http
  import opened XRealIP

  const Forwarded: string := "X-Forwarded-For"

  /** An address text as the tests write one: non-empty, comma-free, not padded. */
  predicate PlainText(s: string) {
    s != [] && ',' !in s && !IsSpace(s[0]) && !IsSpace(s[|s| - 1])
  }

  /** A one-entry configuration holding a literal address. */
  lemma LiteralAddrsOfOne(e: string, p: Parsers, ip: IP)
    requires p.parseIP(e) == Some(ip)
    ensures LiteralAddrs([e], p) == [ip]
  {
  }

  /** A two-entry configuration holding two literal addresses. */
  lemma LiteralAddrsOfTwo(e1: string, e2: string, p: Parsers, ip1: IP, ip2: IP)
    requires p.parseIP(e1) == Some(ip1) && p.parseIP(e2) == Some(ip2)
    ensures LiteralAddrs([e1, e2], p) == [ip1, ip2]
  {
    assert [e1, e2][..1] == [e1];
    LiteralAddrsOfOne(e1, p, ip1);
  }

  /** A segment written with one blank after the comma trims to the bare text. */
  lemma TrimOneBlank(s: string)
    requires PlainText(s)
    ensures TrimSpace(" " + s) == s
  {
    assert (" " + s)[1..] == s;
    assert TrimLeft(" " + s) == TrimLeft(s);
    TrimSpaceOfTrimmed(s);
  }

  /** "a, b" splits into "a" and " b". */
  lemma SplitTwo(a: string, b: string)
    requires PlainText(a) && PlainText(b)
    ensures Split(a + ", " + b) == [a, " " + b]
  {
    var parts := [a, " " + b];
    assert Join(parts) == a + ", " + b;
    SplitJoin(parts);
  }

  /** "a, b, c" splits into "a", " b" and " c". */
  lemma SplitThree(a: string, b: string, c: string)
    requires PlainText(a) && PlainText(b) && PlainText(c)
    ensures Split(a + ", " + b + ", " + c) == [a, " " + b, " " + c]
  {
    var parts := [a, " " + b, " " + c];
    assert Join(parts[1..]) == " " + b + "," + " " + c;
    assert Join(parts) == a + ", " + b + ", " + c;
    SplitJoin(parts);
  }

  /**
   * "from but no match" and "XRIP set with from": a peer that is not a
   * configured literal keeps its own address, whatever header is read and
   * whatever it says.
   */
  lemma UntrustedPeerKept(p: Parsers, remoteAddr: string, entry: string, headerName: string, recursive: bool,
                          header: Header, remote: IP, other: IP)
    requires p.parseIP(remoteAddr) == Some(remote) && p.parseIP(entry) == Some(other) && remote != other
    ensures var config := Config([entry], headerName, recursive);
            ResolvedAddr(config, LiteralAddrs(config.from, p), p, remoteAddr, header) == remoteAddr
  {
  }

  /** A peer inside a configured CIDR block is still not trusted: ranges are never consulted. */
  lemma RangeEntryDoesNotTrust(p: Parsers, remoteAddr: string, entry: string, recursive: bool, header: Header)
    requires p.parseIP(entry) == None && p.parseCIDR(entry).Some?
    ensures var config := Config([entry], Forwarded, recursive);
            ResolvedAddr(config, LiteralAddrs(config.from, p), p, remoteAddr, header) == remoteAddr
  {
  }

  /** "from and match multiple address in header": non-recursive mode takes the last segment. */
  lemma NonRecursiveLastSegment(p: Parsers, remoteAddr: string, a: string, b: string, remote: IP)
    requires p.parseIP(remoteAddr) == Some(remote) && PlainText(a) && PlainText(b)
    ensures var config := Config([remoteAddr], Forwarded, false);
            ResolvedAddr(config, LiteralAddrs(config.from, p), p, remoteAddr,
                         map[Forwarded := [a + ", " + b]]) == b
  {
    LiteralAddrsOfOne(remoteAddr, p, remote);
    SplitTwo(a, b);
    TrimOneBlank(b);
  }

  /**
   * "recursive: from 2 addr and match multiple address in header 3": the
   * trusted trailing segment is skipped and the next one is returned.
   */
  lemma RecursiveSkipsTrusted(p: Parsers, remoteAddr: string, a: string, b: string, c: string,
                              remote: IP, ipB: IP, ipC: IP)
    requires PlainText(a) && PlainText(b) && PlainText(c)
    requires p.parseIP(remoteAddr) == Some(remote) && p.parseIP(c) == Some(ipC)
    requires p.parseIP(b) == Some(ipB) && ipB != remote && ipB != ipC
    ensures var config := Config([remoteAddr, c], Forwarded, true);
            ResolvedAddr(config, LiteralAddrs(config.from, p), p, remoteAddr,
                         map[Forwarded := [a + ", " + b + ", " + c]]) == b
  {
    var config := Config([remoteAddr, c], Forwarded, true);
    var fromIP := [remote, ipC];
    var header := map[Forwarded := [a + ", " + b + ", " + c]];
    LiteralAddrsOfTwo(remoteAddr, c, p, remote, ipC);
    SplitThree(a, b, c);
    TrimOneBlank(b);
    TrimOneBlank(c);
    var segments := Split(Get(header, Forwarded));
    assert !SegmentTrusted(segments[1], fromIP, p);
    assert SegmentTrusted(segments[2], fromIP, p);
    RecursiveTakesRightmostUntrusted(config, fromIP, p, remoteAddr, header, 1);
  }

  /**
   * "recursive: multiple values in header already known": only the first
   * header value is read; its one segment is trusted, so the fallback
   * returns that segment, which is the peer address again.
   */
  lemma OnlyFirstHeaderValueSeen(p: Parsers, remoteAddr: string, other: string, remote: IP)
    requires p.parseIP(remoteAddr) == Some(remote) && PlainText(remoteAddr)
    ensures var config := Config([remoteAddr], RealIPHeader, true);
            ResolvedAddr(config, LiteralAddrs(config.from, p), p, remoteAddr,
                         map[RealIPHeader := [remoteAddr, other]]) == remoteAddr
  {
    LiteralAddrsOfOne(remoteAddr, p, remote);
    SplitNoComma(remoteAddr);
    TrimSpaceOfTrimmed(remoteAddr);
    var header := map[RealIPHeader := [remoteAddr, other]];
    RecursiveAllTrustedTakesLast(Config([remoteAddr], RealIPHeader, true), [remote], p, remoteAddr, header);
  }

  /** With every segment trusted, recursive mode returns the RIGHTMOST segment, not the leftmost. */
  lemma AllTrustedFallbackIsRightmost(p: Parsers, remoteAddr: string, b: string, remote: IP, ipB: IP)
    requires PlainText(remoteAddr) && PlainText(b)
    requires p.parseIP(remoteAddr) == Some(remote) && p.parseIP(b) == Some(ipB)
    ensures var config := Config([remoteAddr, b], Forwarded, true);
            ResolvedAddr(config, LiteralAddrs(config.from, p), p, remoteAddr,
                         map[Forwarded := [remoteAddr + ", " + b]]) == b
  {
    var config := Config([remoteAddr, b], Forwarded, true);
    var fromIP := [remote, ipB];
    var header := map[Forwarded := [remoteAddr + ", " + b]];
    LiteralAddrsOfTwo(remoteAddr, b, p, remote, ipB);
    SplitTwo(remoteAddr, b);
    TrimSpaceOfTrimmed(remoteAddr);
    TrimOneBlank(b);
    var segments := Split(Get(header, Forwarded));
    assert SegmentTrusted(segments[0], fromIP, p);
    assert SegmentTrusted(segments[1], fromIP, p);
    RecursiveAllTrustedTakesLast(config, fromIP, p, remoteAddr, header);
  }

  /**
   * A header value of white space alone is not empty, so it is resolved:
   * a trusted peer then gets the empty string as its address, in either mode.
   */
  lemma BlankHeaderResolvesToEmpty(p: Parsers, remoteAddr: string, recursive: bool, remote: IP)
    requires p.parseIP(remoteAddr) == Some(remote)
    ensures var config := Config([remoteAddr], Forwarded, recursive);
            ResolvedAddr(config, LiteralAddrs(config.from, p), p, remoteAddr, map[Forwarded := [" "]]) == ""
  {
    LiteralAddrsOfOne(remoteAddr, p, remote);
    assert Split(" ") == [" "] by {
      SplitNoComma(" ");
    }
    assert TrimSpace(" ") == "" by {
      assert TrimLeft(" ") == TrimLeft(" "[1..]);
      assert " "[1..] == [];
    }
  }
}

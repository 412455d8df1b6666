/**
 * The parts of Go's `net` package the middleware uses, kept abstract: an
 * address is an opaque byte string, and the two textual parsers are given
 * as functions rather than implemented.
 */
module Net {
  import opened Wrappers

  /**
   * A parsed address (`net.IP`). `IP.Equal` is modelled as `==`, so the
   * parser is taken to return one canonical form per address.
   */
  datatype IP = IP(bytes: seq<bv8>)

  /** A parsed CIDR block (`net.IPNet`): base address and mask. */
  datatype IPNet = IPNet(ip: IP, mask: seq<bv8>)

  /** `net.ParseError`: the kind of text expected and the text that failed. */
  datatype ParseError = ParseError(kind: string, text: string)

  /**
   * `net.ParseIP` and `net.ParseCIDR`. A `None` result is Go's `nil`
   * address, or the non-nil error of `ParseCIDR`.
   */
  datatype Parsers = Parsers(parseIP: string -> Option<IP>, parseCIDR: string -> Option<IPNet>)

  /** The error `net.ParseCIDR` reports for a text that is not a CIDR block. */
  function CIDRError(text: string): ParseError {
    ParseError("CIDR address", text)
  }
}

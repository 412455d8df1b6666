/**
 * The slice of Go's `net/http` the middleware touches: a request's header
 * map, read with `Header.Get` and written with `Header.Set`.
 */
module Http {

  /** `http.Header`: each key maps to the list of values received under it. */
  type Header = map<string, seq<string>>

  /**
   * `Header.Get`: the FIRST value under `key`, or "" when the key is absent
   * or has no values. Later values under the same key are never seen.
   */
  function Get(h: Header, key: string): (v: string)
    ensures v != "" ==> key in h && |h[key]| > 0 && v == h[key][0]
    ensures key in h && |h[key]| > 0 ==> v == h[key][0]
  {
    if key in h && |h[key]| > 0 then h[key][0] else ""
  }

  /**
   * `Header.Set`: `key` now holds exactly `value`, and every other key keeps
   * the values it had.
   */
  function Set(h: Header, key: string, value: string): (h': Header)
    ensures h'.Keys == h.Keys + {key}
    ensures h'[key] == [value] && Get(h', key) == value
    ensures forall k :: k in h && k != key ==> h'[k] == h[k]
  {
    h[key := [value]]
  }

  /** `http.Request`, reduced to the peer address and the mutable header map. */
  class Request {
    const remoteAddr: string
    var header: Header

    constructor (remoteAddr: string, header: Header)
      ensures this.remoteAddr == remoteAddr && this.header == header
    {
      this.remoteAddr := remoteAddr;
      this.header := header;
    }
  }
}

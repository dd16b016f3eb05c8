/**
 * How the client frames a request entity it sends, as the enabled tests of
 * the webclient integration suite observe it from the server side.
 */
module Transfer {
  import opened Wrappers
  import Http

  datatype TransferMode = LengthDelimited(length: nat) | ChunkedEncoding

  /**
   * The client's choice for an entity written through `outputStream(...)`,
   * whose length is unknown before the first byte: a `Transfer-Encoding:
   * chunked` header set by the caller forces chunking; otherwise a
   * `Content-Length` set by the caller is used; otherwise the entity is chunked.
   */
  function SelectMode(explicitLength: Option<nat>, chunkedHeader: bool): (m: TransferMode)
    ensures m.ChunkedEncoding? <==> chunkedHeader || explicitLength.None?
    ensures m.LengthDelimited? ==> explicitLength == Some(m.length)
  {
    if chunkedHeader then ChunkedEncoding
    else if explicitLength.Some? then LengthDelimited(explicitLength.value)
    else ChunkedEncoding
  }

  /** The framing header the client puts on the wire for a mode: exactly one of the two. */
  function FramingHeaders(m: TransferMode): (h: Http.Headers)
    ensures Http.ContentLength in h <==> m.LengthDelimited?
    ensures Http.TransferEncoding in h <==> m.ChunkedEncoding?
    ensures Http.ContainsValue(h, Http.TransferEncoding, Http.Chunked) <==> m.ChunkedEncoding?
  {
    match m
    case LengthDelimited(n) => map[Http.ContentLength := Http.HeaderValues(Http.DecimalString(n), [])]
    case ChunkedEncoding => map[Http.TransferEncoding := Http.HeaderValues(Http.Chunked, [])]
  }

  predicate IsDecimal(s: string)
  {
    |s| >= 1 && forall i :: 0 <= i < |s| ==> '0' <= s[i] <= '9'
  }

  /**
   * How a receiver reads the framing of a request back from its headers:
   * chunked when `Transfer-Encoding` lists `chunked`, otherwise the decimal
   * `Content-Length`, and no framing it can use otherwise.
   */
  function ModeOf(h: Http.Headers): (r: Option<TransferMode>)
    ensures r == Some(ChunkedEncoding) <==> Http.ContainsValue(h, Http.TransferEncoding, Http.Chunked)
    ensures r.Some? && r.value.LengthDelimited? ==> Http.ContentLength in h && IsDecimal(h[Http.ContentLength].first)
    ensures r.None? ==> !Http.ContainsValue(h, Http.TransferEncoding, Http.Chunked)
  {
    if Http.ContainsValue(h, Http.TransferEncoding, Http.Chunked) then Some(ChunkedEncoding)
    else if Http.ContentLength in h && IsDecimal(h[Http.ContentLength].first)
    then Some(LengthDelimited(Http.DecimalValue(h[Http.ContentLength].first)))
    else None
  }

  /** The receiver recovers exactly the mode the client chose from the headers it sent. */
  lemma FramingRoundTrip(m: TransferMode)
    ensures ModeOf(FramingHeaders(m)) == Some(m)
  {
    if m.LengthDelimited? {
      Http.DecimalRoundTrip(m.length);
    }
  }
}

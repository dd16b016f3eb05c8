/**
 * One request/response exchange of the webclient integration test, seen
 * end to end: the caller writes the entity in parts through the request's
 * output stream, the client frames it, the echo handler mirrors the framing
 * headers and writes the entity back, and the caller reads the response.
 */
module Scenarios {
  import opened Wrappers
  import opened Http
  import opened EchoHandler
  import opened Transfer

  /**
   * `getHttp1ClientResponseFromOutputStream`: each part is written, in
   * order, to the request's output stream.
   */
  method WriteParts(out: OutputSink, parts: seq<seq<byte>>)
    modifies out
    ensures out.writes == old(out.writes) + parts
    ensures out.Contents() == old(out.Contents()) + Flatten(parts)
  {
    for k := 0 to |parts|
      invariant out.writes == old(out.writes) + parts[..k]
    {
      out.Write(parts[k]);
      assert parts[..k + 1] == parts[..k] + [parts[k]];
    }
    assert parts[..|parts|] == parts;
    FlattenAppend(old(out.writes), parts);
  }

  /** The number of writes that carried at least one byte. */
  function NonEmptyWrites(writes: seq<seq<byte>>): nat
  {
    if writes == [] then 0
    else NonEmptyWrites(writes[..|writes| - 1]) + (if writes[|writes| - 1] == [] then 0 else 1)
  }

  /**
   * How the server frames the response the handler wrote without declaring
   * a length: more than one write carrying bytes is sent chunked; otherwise
   * the response is sent with the length of what was written.
   */
  function ResponseMode(writes: seq<seq<byte>>): (m: TransferMode)
    ensures m.LengthDelimited? ==> m.length == |Flatten(writes)|
    ensures m.ChunkedEncoding? <==> NonEmptyWrites(writes) > 1
  {
    if NonEmptyWrites(writes) > 1 then ChunkedEncoding else LengthDelimited(|Flatten(writes)|)
  }

  /** Cut in three, an entity of at least three bytes gives three writes that carry bytes, so the response is chunked. */
  lemma SplitResponseIsChunked(entity: seq<byte>)
    requires |entity| >= ChunkParts
    ensures ResponseMode(EchoWrites(entity, true)) == ChunkedEncoding
  {
    var w := SplitEntity(entity);
    SplitLengths(entity);
    assert w[..2] == [w[0], w[1]] && w[..2][..1] == [w[0]] && [w[0]][..0] == [];
    assert NonEmptyWrites([w[0]]) == 1;
    assert NonEmptyWrites(w[..2]) == 2;
    assert NonEmptyWrites(w) == 3;
  }

  /** What the caller observes of one echo exchange: the response headers and the response entity. */
  datatype Observed = Observed(headers: Headers, entity: seq<byte>)

  /** A declared `Content-Length` that is used (chunking is not forced) equals the number of bytes written. */
  predicate DeclaredLengthMatches(explicitLength: Option<nat>, chunkedHeader: bool, parts: seq<seq<byte>>)
  {
    !chunkedHeader && explicitLength.Some? ==> explicitLength.value == |Flatten(parts)|
  }

  /**
   * An exchange with a streamed entity: the client picks the transfer mode
   * from the caller's headers, the server receives the concatenated parts
   * under the matching framing header, and the response carries the
   * handler's marker headers, the server's framing header, and the bytes
   * the handler wrote back.
   */
  function StreamedExchange(explicitLength: Option<nat>, chunkedHeader: bool, parts: seq<seq<byte>>, chunkResponse: bool): (o: Observed)
    requires DeclaredLengthMatches(explicitLength, chunkedHeader, parts)
    ensures o.entity == Flatten(parts)
  {
    var mode := SelectMode(explicitLength, chunkedHeader);
    var request := ServerRequest(FramingHeaders(mode), Flatten(parts));
    var writes := EchoWrites(request.entity, chunkResponse);
    EchoPreservesEntity(request.entity, chunkResponse);
    Observed(MirrorHeaders(request.headers, map[]) + FramingHeaders(ResponseMode(writes)), Flatten(writes))
  }

  /**
   * The observations `validateChunkTransfer` makes: the server saw a
   * chunked request exactly when the caller forced it or declared no
   * length; it saw the declared length, as written by `String.valueOf`,
   * exactly when the caller declared one and did not force chunking; and
   * it saw no `Expect: 100-continue`.
   */
  lemma StreamedExchangeObserved(explicitLength: Option<nat>, chunkedHeader: bool, parts: seq<seq<byte>>, chunkResponse: bool)
    requires DeclaredLengthMatches(explicitLength, chunkedHeader, parts)
    ensures var o := StreamedExchange(explicitLength, chunkedHeader, parts, chunkResponse);
      && (ContainsValue(o.headers, XReqChunked, "true") <==> chunkedHeader || explicitLength.None?)
      && (XReqContentLength in o.headers <==> !chunkedHeader && explicitLength.Some?)
      && (XReqContentLength in o.headers ==> o.headers[XReqContentLength].first == DecimalString(explicitLength.value))
      && XReqExpect100 !in o.headers
  {
    var mode := SelectMode(explicitLength, chunkedHeader);
    MirrorOnFreshResponse(FramingHeaders(mode), map[]);
  }

  /**
   * `testChunk`, `testChunkAndChunkResponse` and, with one part,
   * `testForcedChunkNoContentLength`: with no framing header set by the
   * caller the request goes out chunked, without a length, and the parts
   * come back joined; when the handler answers in three parts, an entity of
   * at least three bytes (such as "FirstSecondThird") comes back chunked.
   */
  lemma ChunkedWhenNoLength(parts: seq<seq<byte>>, chunkResponse: bool)
    ensures var o := StreamedExchange(None, false, parts, chunkResponse);
      && o.headers[XReqChunked].All() == ["true"]
      && XReqContentLength !in o.headers
      && o.entity == Flatten(parts)
      && (chunkResponse && |Flatten(parts)| >= ChunkParts ==> ContainsValue(o.headers, TransferEncoding, Chunked))
  {
    StreamedExchangeObserved(None, false, parts, chunkResponse);
    if chunkResponse && |Flatten(parts)| >= ChunkParts {
      SplitResponseIsChunked(Flatten(parts));
    }
  }

  /**
   * `testNoChunk`: with `Content-Length` set to the length of what is
   * written (the one part "First"), the server sees that length and no
   * chunked marker, and the entity comes back.
   */
  lemma LengthWhenDeclared(parts: seq<seq<byte>>)
    ensures var o := StreamedExchange(Some(|Flatten(parts)|), false, parts, false);
      && o.headers[XReqContentLength].All() == [DecimalString(|Flatten(parts)|)]
      && XReqChunked !in o.headers
      && o.entity == Flatten(parts)
  {
    StreamedExchangeObserved(Some(|Flatten(parts)|), false, parts, false);
  }

  /**
   * `testForcedChunkTransferEncodingChunked`: a `Transfer-Encoding: chunked`
   * header set by the caller makes the request chunked even when a length
   * is also declared.
   */
  lemma ChunkedWhenForced(explicitLength: Option<nat>, parts: seq<seq<byte>>)
    ensures var o := StreamedExchange(explicitLength, true, parts, false);
      && o.headers[XReqChunked].All() == ["true"]
      && XReqContentLength !in o.headers
      && o.entity == Flatten(parts)
  {
    StreamedExchangeObserved(explicitLength, true, parts, false);
  }
}

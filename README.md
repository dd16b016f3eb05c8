# Helidon Níma HTTP/1.1 webclient: echo test model

A Dafny model of the webclient integration test `ClientRequestImplTest`:
the server-side echo handler (`customHandler`), the request framing and
connection reuse the enabled tests observe from the client, and the
customised media writer. The production client classes (`ClientRequestImpl`,
`Http1ClientImpl`, the chunked encoder, the connection cache) are not part
of this model; what is stated about them is what the enabled tests check.

Modules:

- `Http` (http.dfy): bytes, header maps with case-folded (lower-case) names,
  `Headers.contains` and `set`, the concatenation of a sequence of writes,
  and the decimal rendering of `String.valueOf`.
- `EchoHandler` (echo_handler.dfy): the marker headers `X-Req-Expect100`,
  `X-Req-ContentLength` and `X-Req-Chunked`; the three-way split of the
  entity (`entity.length / 3` bytes twice, then `entity.length / 3 +
  entity.length % 3`); `System.arraycopy` with its out-of-bounds failure;
  an output stream remembered as its sequence of writes; the handler itself.
- `Transfer` (transfer_mode.dfy): the transfer mode chosen for an entity
  written through the request's output stream, the framing header it puts
  on the wire, and how a receiver reads the mode back.
- `ConnectionQueue` (connection_queue.dfy): the per-destination queue of
  idle connections (acquire on request, release on `response.close()`) and
  the loop of `testConnectionQueueDequeue`.
- `MediaWriter` (media_writer.dfy): the customised media context, which
  wraps only the writer a server looks up for a response; the wrapper's
  five-argument `write` cuts a string to five characters, its four-argument
  `write` does not.
- `Scenarios` (scenarios.dfy): the caller's loop writing the parts, and one
  whole exchange as `validateChunkTransfer` observes it.

The handler's arithmetic uses Java `int`; every offset it computes is at
most the entity length, so unbounded integers give the same values.

## Model

| member | source | states |
|---|---|---|
| `Http.Set` | nima/tests/integration/webclient/webclient/src/test/java/io/helidon/nima/webclient/http1/ClientRequestImplTest.java:319-325 | after `set` the header has exactly the one value given; every other header is kept and none is added |
| `Http.DecimalString` | nima/tests/integration/webclient/webclient/src/test/java/io/helidon/nima/webclient/http1/ClientRequestImplTest.java:148-151 | `String.valueOf` of a length is a non-empty string of decimal digits with no leading zero |
| `Http.DecimalRoundTrip` | nima/tests/integration/webclient/webclient/src/test/java/io/helidon/nima/webclient/http1/ClientRequestImplTest.java:296-297 | reading the decimal string back gives the length that was written |
| `EchoHandler.MirrorHeaders` | nima/tests/integration/webclient/webclient/src/test/java/io/helidon/nima/webclient/http1/ClientRequestImplTest.java:317-326 | the handler only adds the three marker headers: every response header is kept and no other header appears |
| `EchoHandler.MirrorExact` | nima/tests/integration/webclient/webclient/src/test/java/io/helidon/nima/webclient/http1/ClientRequestImplTest.java:317-326 | each marker header is set (the length marker to the request's `Content-Length` value, the others to "true") exactly when the request carries `Content-Length`, `Transfer-Encoding: chunked` or `Expect: 100-continue`; otherwise its presence and value are as they were; no other response header changes |
| `EchoHandler.MirrorOnFreshResponse` | nima/tests/integration/webclient/webclient/src/test/java/io/helidon/nima/webclient/http1/ClientRequestImplTest.java:321-326 | on a response without markers, each marker is present if and only if the request carried the matching header, and no other header appears |
| `EchoHandler.ChunkLen` | nima/tests/integration/webclient/webclient/src/test/java/io/helidon/nima/webclient/http1/ClientRequestImplTest.java:336-339 | the chunk copied from offset `i * regularChunkLen` ends inside the entity, and the last one ends exactly at its end |
| `EchoHandler.SplitLengths` | nima/tests/integration/webclient/webclient/src/test/java/io/helidon/nima/webclient/http1/ClientRequestImplTest.java:336-339 | three chunks; the first two have `n / 3` bytes, the last `n / 3 + n % 3`, and they add up to `n` |
| `EchoHandler.SplitReconstructs` | nima/tests/integration/webclient/webclient/src/test/java/io/helidon/nima/webclient/http1/ClientRequestImplTest.java:338-343 | the chunks are contiguous and disjoint, so written in order they give back the entity exactly |
| `EchoHandler.ShortEntity` | nima/tests/integration/webclient/webclient/src/test/java/io/helidon/nima/webclient/http1/ClientRequestImplTest.java:336-337 | an entity of fewer than three bytes goes out as two empty writes followed by the whole entity |
| `EchoHandler.EchoWrites` | nima/tests/integration/webclient/webclient/src/test/java/io/helidon/nima/webclient/http1/ClientRequestImplTest.java:330-343 | the plain branch makes one write (none for an empty entity), the chunked branch exactly three |
| `EchoHandler.EchoPreservesEntity` | nima/tests/integration/webclient/webclient/src/test/java/io/helidon/nima/webclient/http1/ClientRequestImplTest.java:328-344 | the bytes written back equal the bytes read, in the plain branch (one write, none for an empty entity) and in the three-chunk branch |
| `EchoHandler.OutputSink.constructor` | nima/tests/integration/webclient/webclient/src/test/java/io/helidon/nima/webclient/http1/ClientRequestImplTest.java:329 | a new output stream has received no writes |
| `EchoHandler.OutputSink.Write` | nima/tests/integration/webclient/webclient/src/test/java/io/helidon/nima/webclient/http1/ClientRequestImplTest.java:342 | a write appends one write and its bytes to what the stream received |
| `EchoHandler.OutputSink.TransferFrom` | nima/tests/integration/webclient/webclient/src/test/java/io/helidon/nima/webclient/http1/ClientRequestImplTest.java:331 | `transferTo` appends the buffered bytes, in one write, to what the stream received |
| `EchoHandler.ServerResponse.constructor` | nima/tests/integration/webclient/webclient/src/test/java/io/helidon/nima/webclient/http1/ClientRequestImplTest.java:316 | a response starts without headers, bound to its output stream |
| `EchoHandler.ArrayCopy` | nima/tests/integration/webclient/webclient/src/test/java/io/helidon/nima/webclient/http1/ClientRequestImplTest.java:341 | `System.arraycopy` fails without copying when a range leaves its array; otherwise the destination range receives the source range and nothing else changes |
| `EchoHandler.ReadAllBytes` | nima/tests/integration/webclient/webclient/src/test/java/io/helidon/nima/webclient/http1/ClientRequestImplTest.java:335 | `readAllBytes` gives a new array holding the request entity |
| `EchoHandler.WriteInParts` | nima/tests/integration/webclient/webclient/src/test/java/io/helidon/nima/webclient/http1/ClientRequestImplTest.java:333-343 | the loop writes exactly the three chunks of the split, in order; every copy stays in bounds |
| `EchoHandler.SetMarkerHeaders` | nima/tests/integration/webclient/webclient/src/test/java/io/helidon/nima/webclient/http1/ClientRequestImplTest.java:317-326 | the response headers become the mirror of the request headers over the previous response headers |
| `EchoHandler.CustomHandler` | nima/tests/integration/webclient/webclient/src/test/java/io/helidon/nima/webclient/http1/ClientRequestImplTest.java:316-348 | the handler mirrors the headers and writes the entity back whole or in three chunks, so the stream receives exactly the request entity |
| `Transfer.SelectMode` | nima/tests/integration/webclient/webclient/src/test/java/io/helidon/nima/webclient/http1/ClientRequestImplTest.java:145-176 | a streamed entity is chunked exactly when the caller forced `Transfer-Encoding: chunked` or declared no `Content-Length`; otherwise it is sent with the declared length |
| `Transfer.FramingHeaders` | nima/tests/integration/webclient/webclient/src/test/java/io/helidon/nima/webclient/http1/ClientRequestImplTest.java:292-303 | the request carries exactly one framing header: `Content-Length` for a length-delimited entity, `Transfer-Encoding: chunked` for a chunked one |
| `Transfer.ModeOf` | nima/tests/integration/webclient/webclient/src/test/java/io/helidon/nima/webclient/http1/ClientRequestImplTest.java:321-326 | a receiver reads a request as chunked exactly when `Transfer-Encoding` lists `chunked`; a length only from a decimal `Content-Length` |
| `Transfer.FramingRoundTrip` | nima/tests/integration/webclient/webclient/src/test/java/io/helidon/nima/webclient/http1/ClientRequestImplTest.java:321-326 | a receiver reading the framing header recovers the mode and length the client chose |
| `ConnectionQueue.ClientConnection.constructor` | nima/tests/integration/webclient/webclient/src/test/java/io/helidon/nima/webclient/http1/ClientRequestImplTest.java:217 | a new connection is bound to the destination it was opened for |
| `ConnectionQueue.ConnectionCache.constructor` | nima/tests/integration/webclient/webclient/src/test/java/io/helidon/nima/webclient/http1/ClientRequestImplTest.java:61 | a new client holds no idle connections and lends none |
| `ConnectionQueue.ConnectionCache.Acquire` | nima/tests/integration/webclient/webclient/src/test/java/io/helidon/nima/webclient/http1/ClientRequestImplTest.java:215-218 | the request gets the oldest idle connection to its destination, which leaves the queue, or a new connection when the queue is empty; it now holds that connection alone and the queue invariant is kept |
| `ConnectionQueue.ConnectionCache.Release` | nima/tests/integration/webclient/webclient/src/test/java/io/helidon/nima/webclient/http1/ClientRequestImplTest.java:219-221 | closing the response puts the connection at the tail of its destination's queue and the request no longer holds it |
| `ConnectionQueue.RequestRounds` | nima/tests/integration/webclient/webclient/src/test/java/io/helidon/nima/webclient/http1/ClientRequestImplTest.java:208-227 | with at most one idle connection to the destination at the start, every round after the first reuses the connection the previous round released (a new one in the first round when none was idle); afterwards that connection is the destination's only idle one, no other destination's queue changed, and zero rounds change nothing |
| `MediaWriter.ResponseWriteArgument` | nima/tests/integration/webclient/webclient/src/test/java/io/helidon/nima/webclient/http1/ClientRequestImplTest.java:379-390 | the wrapper's five-argument `write` cuts a string to its first five characters, a prefix of length five, and fails with an index error when the string is shorter; any other object is passed on unchanged |
| `MediaWriter.RequestWriteArgument` | nima/tests/integration/webclient/webclient/src/test/java/io/helidon/nima/webclient/http1/ClientRequestImplTest.java:392-395 | the wrapper's four-argument `write` never fails and hands on the object it was given |
| `MediaWriter.WriteFormsAgree` | nima/tests/integration/webclient/webclient/src/test/java/io/helidon/nima/webclient/http1/ClientRequestImplTest.java:379-395 | the two `write` forms hand on the same thing exactly for objects that are not strings and for strings of five characters |
| `MediaWriter.ResponseWriteIdempotent` | nima/tests/integration/webclient/webclient/src/test/java/io/helidon/nima/webclient/http1/ClientRequestImplTest.java:384-386 | cutting an already cut entity changes nothing |
| `MediaWriter.DefaultWriterArgument` | nima/tests/integration/webclient/webclient/src/test/java/io/helidon/nima/webclient/http1/ClientRequestImplTest.java:374-408 | only the writer of the response lookup is wrapped; an entity reaches the default writer changed only through that writer's five-argument `write`, and fails only for a string shorter than five |
| `MediaWriter.RequestEntityBypassesWrapper` | nima/tests/integration/webclient/webclient/src/test/java/io/helidon/nima/webclient/http1/ClientRequestImplTest.java:116-122 | testMediaContext: the client's request writer is the default one, so "Sending Something" is sent whole; the wrapped response writer would have sent "Sendi" |
| `Scenarios.WriteParts` | nima/tests/integration/webclient/webclient/src/test/java/io/helidon/nima/webclient/http1/ClientRequestImplTest.java:354-363 | the parts reach the request's output stream as one write each, in order, so its bytes are the parts joined |
| `Scenarios.ResponseMode` | nima/tests/integration/webclient/webclient/src/test/java/io/helidon/nima/webclient/http1/ClientRequestImplTest.java:138-142 | a response the handler wrote without a length is chunked exactly when more than one write carried bytes; otherwise its length is that of the bytes written |
| `Scenarios.SplitResponseIsChunked` | nima/tests/integration/webclient/webclient/src/test/java/io/helidon/nima/webclient/http1/ClientRequestImplTest.java:138-142 | an entity of at least three bytes echoed in three parts comes back chunked |
| `Scenarios.StreamedExchange` | nima/tests/integration/webclient/webclient/src/test/java/io/helidon/nima/webclient/http1/ClientRequestImplTest.java:292-306 | in an exchange whose declared length, when used, matches the bytes written, the caller reads back exactly the parts joined |
| `Scenarios.StreamedExchangeObserved` | nima/tests/integration/webclient/webclient/src/test/java/io/helidon/nima/webclient/http1/ClientRequestImplTest.java:292-306 | the chunked marker is present exactly when the request was chunked, the length marker exactly when a length was declared (with its decimal value), and there is no expect marker |
| `Scenarios.ChunkedWhenNoLength` | nima/tests/integration/webclient/webclient/src/test/java/io/helidon/nima/webclient/http1/ClientRequestImplTest.java:124-143 | testChunk, testChunkAndChunkResponse (and testForcedChunkNoContentLength, one part): no declared length gives a chunked request without `Content-Length`, the parts come back joined, and the three-part answer of an entity of at least three bytes carries `Transfer-Encoding: chunked` |
| `Scenarios.LengthWhenDeclared` | nima/tests/integration/webclient/webclient/src/test/java/io/helidon/nima/webclient/http1/ClientRequestImplTest.java:145-155 | testNoChunk: a declared `Content-Length` equal to the bytes written reaches the server with that value and without a chunked marker, and the entity comes back |
| `Scenarios.ChunkedWhenForced` | nima/tests/integration/webclient/webclient/src/test/java/io/helidon/nima/webclient/http1/ClientRequestImplTest.java:167-176 | testForcedChunkTransferEncodingChunked: a caller's `Transfer-Encoding: chunked` header makes the request chunked without a length |

## Left out

- Tests that are disabled in the source (`// @Test`): the header-size and status-line limits (lines 84-114), Expect 100-continue (178-192), HEAD with an entity (195-206) and the queue capacity and overflow (229-274). No capacity, discard-on-overflow, unusable-connection discard or shutdown is modelled for the connection queue.
- The HTTP/1.1 chunk framing on the wire (size line, CRLF, terminator chunk, RFC 9112 section 7.1): it is done by client and server classes that are not part of this model. The model stops at the bytes of each `write` and the framing headers.
- Transfer mode for an entity handed over whole (`submit`) and for a request without an entity: no enabled test inspects them.
- Transfer.SelectMode: takes the declared `Content-Length` as a number, not parsed from the header text.
- Scenarios.StreamedExchange: an exchange whose declared `Content-Length` differs from the bytes written (which the client or server rejects) is not modelled; the exchange requires the two to agree.
- Scenarios.ResponseMode: the server's framing of the response is not part of this model; the rule used (more than one write carrying bytes is chunked, otherwise the length is sent) is an assumption, of which only the chunked half is checked by the test (line 142).
- Http.ContainsValue: `Headers.contains(HeaderValue)` is taken to mean that the value is among the header's values; this differs from a comparison of all values only for a header repeated with several values, which no test sends.
- Server start-up, sockets, routing and the `InputStream`/`OutputStream` plumbing: streams are byte sequences; closing them (try-with-resources) and the `UncheckedIOException` wrapping of I/O failures are not modelled.
- EchoHandler.OutputSink.TransferFrom: states one write for the whole buffer; the JDK may split a very large buffer into several writes, which changes only the write boundaries, not the bytes.
- Character encoding: `getBytes(UTF_8)` and the decoding of the response as `String` are not modelled; the parts are taken as their encoded bytes.
- MediaWriter.ResponseWriteArgument: Java's `substring` counts UTF-16 code units, the model counts Unicode characters; they differ only for characters outside the Basic Multilingual Plane.
- The default media context the custom one delegates to (readers, and the encoding done by the default writer): the model states what object the default writer is handed.
- The assumption that exchanges to one destination run one at a time, as in the test; concurrent access to the connection queue is not modelled.
- grpc/server/src/test/java/io/helidon/grpc/server/SslITTest.java, the `SecurityProvider` test classes, the CORS filter, the OCI metrics bean and the reactive interval test: TLS, security providers, CDI wiring and timer-driven publishers, with no logic of the echo test in them.

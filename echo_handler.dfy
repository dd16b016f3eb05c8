/**
 * The server-side echo handler of the webclient integration test
 * (`customHandler`): it mirrors the request's framing headers into the
 * response and writes the request entity back, either as it was read or cut
 * into three writes.
 */
module EchoHandler {
  import opened Http

  const XReqExpect100: string := "x-req-expect100"
  const XReqContentLength: string := "x-req-contentlength"
  const XReqChunked: string := "x-req-chunked"

  // ---------------------------------------------------------------------------
  // Header mirroring
  // ---------------------------------------------------------------------------

  /** The response headers after the handler's three conditional `set` calls. */
  function MirrorHeaders(req: Headers, res: Headers): (r: Headers)
    ensures res.Keys <= r.Keys <= res.Keys + {XReqExpect100, XReqContentLength, XReqChunked}
  {
    var withExpect := if ContainsValue(req, Expect, Continue100) then Set(res, XReqExpect100, "true") else res;
    var withLength := if Contains(req, ContentLength)
                      then Set(withExpect, XReqContentLength, req[ContentLength].first)
                      else withExpect;
    if ContainsValue(req, TransferEncoding, Chunked) then Set(withLength, XReqChunked, "true") else withLength
  }

  /**
   * Each marker header reports exactly its request header: it is set when the
   * request carries the header (the length marker with the request's value),
   * and otherwise left as it was; every other response header is untouched.
   */
  lemma MirrorExact(req: Headers, res: Headers)
    ensures var r := MirrorHeaders(req, res);
      && (Contains(req, ContentLength) ==> XReqContentLength in r && r[XReqContentLength].All() == [req[ContentLength].first])
      && (!Contains(req, ContentLength) ==> (XReqContentLength in r <==> XReqContentLength in res))
      && (!Contains(req, ContentLength) && XReqContentLength in res ==> r[XReqContentLength] == res[XReqContentLength])
      && (ContainsValue(req, TransferEncoding, Chunked) ==> XReqChunked in r && r[XReqChunked].All() == ["true"])
      && (!ContainsValue(req, TransferEncoding, Chunked) ==> (XReqChunked in r <==> XReqChunked in res))
      && (!ContainsValue(req, TransferEncoding, Chunked) && XReqChunked in res ==> r[XReqChunked] == res[XReqChunked])
      && (ContainsValue(req, Expect, Continue100) ==> XReqExpect100 in r && r[XReqExpect100].All() == ["true"])
      && (!ContainsValue(req, Expect, Continue100) ==> (XReqExpect100 in r <==> XReqExpect100 in res))
      && (!ContainsValue(req, Expect, Continue100) && XReqExpect100 in res ==> r[XReqExpect100] == res[XReqExpect100])
      && (forall k :: k in r && k != XReqExpect100 && k != XReqContentLength && k != XReqChunked ==> k in res && r[k] == res[k])
      && (forall k :: k in res ==> k in r)
  {
  }

  /**
   * Starting from a response without marker headers, a marker is present if
   * and only if the request carried the matching header, which is what
   * `validateChunkTransfer` inspects.
   */
  lemma MirrorOnFreshResponse(req: Headers, res: Headers)
    requires XReqExpect100 !in res && XReqContentLength !in res && XReqChunked !in res
    ensures var r := MirrorHeaders(req, res);
      && (XReqContentLength in r <==> Contains(req, ContentLength))
      && (XReqContentLength in r ==> r[XReqContentLength].first == req[ContentLength].first)
      && (XReqChunked in r <==> ContainsValue(req, TransferEncoding, Chunked))
      && (XReqExpect100 in r <==> ContainsValue(req, Expect, Continue100))
      && r.Keys <= res.Keys + {XReqExpect100, XReqContentLength, XReqChunked}
  {
    MirrorExact(req, res);
  }

  // ---------------------------------------------------------------------------
  // The three-way split of the entity
  // ---------------------------------------------------------------------------

  const ChunkParts: nat := 3

  /** `entity.length / chunkParts`: the length of every part but the last. */
  function RegularChunkLen(n: nat): nat
  {
    n / ChunkParts
  }

  /** `regularChunkLen + entity.length % chunkParts`: the last part also takes the remainder. */
  function LastChunkLen(n: nat): nat
  {
    RegularChunkLen(n) + n % ChunkParts
  }

  /** The length of part `i`; the part starting at `i * regularChunkLen` ends inside the entity. */
  function ChunkLen(n: nat, i: nat): (len: nat)
    requires i < ChunkParts
    ensures i * RegularChunkLen(n) + len <= n
    ensures i == ChunkParts - 1 ==> i * RegularChunkLen(n) + len == n
  {
    assert n == ChunkParts * (n / ChunkParts) + n % ChunkParts;
    if i != ChunkParts - 1 then RegularChunkLen(n) else LastChunkLen(n)
  }

  /** Part `i` of the entity: the bytes the handler copies into its `i`-th chunk. */
  function Part(entity: seq<byte>, i: nat): seq<byte>
    requires i < ChunkParts
  {
    var start := i * RegularChunkLen(|entity|);
    entity[start..start + ChunkLen(|entity|, i)]
  }

  /** The three writes of the chunked echo, in order. */
  function SplitEntity(entity: seq<byte>): seq<seq<byte>>
  {
    [Part(entity, 0), Part(entity, 1), Part(entity, 2)]
  }

  /** The three part lengths add up to the entity length. */
  lemma SplitLengths(entity: seq<byte>)
    ensures var parts := SplitEntity(entity);
      && |parts| == ChunkParts
      && |parts[0]| == |parts[1]| == |entity| / 3
      && |parts[2]| == |entity| / 3 + |entity| % 3
      && |parts[0]| + |parts[1]| + |parts[2]| == |entity|
  {
  }

  /** The parts are contiguous and do not overlap, so written in order they give back the entity. */
  lemma SplitReconstructs(entity: seq<byte>)
    ensures Flatten(SplitEntity(entity)) == entity
  {
    var parts := SplitEntity(entity);
    var r := RegularChunkLen(|entity|);
    assert ChunkLen(|entity|, 2) == |entity| - 2 * r;
    assert parts[..2] == [parts[0], parts[1]];
    assert parts[..2][..1] == [parts[0]];
    assert [parts[0]][..0] == [];
    assert Flatten([parts[0]]) == parts[0];
    assert Flatten(parts[..2]) == parts[0] + parts[1];
    assert Flatten(parts) == parts[0] + parts[1] + parts[2];
    assert entity == entity[..r] + entity[r..2 * r] + entity[2 * r..];
  }

  /** An entity shorter than three bytes goes out whole in the last write, after two empty ones. */
  lemma ShortEntity(entity: seq<byte>)
    requires |entity| < ChunkParts
    ensures SplitEntity(entity) == [[], [], entity]
  {
    assert RegularChunkLen(|entity|) == 0;
    assert entity[0..|entity|] == entity;
  }

  /** What the handler writes to the response output stream. */
  function EchoWrites(entity: seq<byte>, chunkResponse: bool): (w: seq<seq<byte>>)
    ensures chunkResponse ==> |w| == ChunkParts
    ensures !chunkResponse ==> |w| <= 1 && (w == [] <==> entity == [])
  {
    if chunkResponse then SplitEntity(entity)
    else if entity == [] then []
    else [entity]
  }

  /** Either way, the bytes written back are exactly the bytes read. */
  lemma EchoPreservesEntity(entity: seq<byte>, chunkResponse: bool)
    ensures Flatten(EchoWrites(entity, chunkResponse)) == entity
  {
    if chunkResponse {
      SplitReconstructs(entity);
    } else if entity != [] {
      assert [entity][..0] == [];
    }
  }

  // ---------------------------------------------------------------------------
  // Streams and the handler itself
  // ---------------------------------------------------------------------------

  /** An output stream, remembered as the sequence of its `write` calls. */
  class OutputSink {
    var writes: seq<seq<byte>>

    constructor ()
      ensures writes == []
    {
      writes := [];
    }

    /** The bytes written so far. */
    function Contents(): seq<byte>
      reads this
    {
      Flatten(writes)
    }

    /** `OutputStream.write(byte[])`. */
    method Write(data: seq<byte>)
      modifies this
      ensures writes == old(writes) + [data]
      ensures Contents() == old(Contents()) + data
    {
      FlattenAppend(writes, [data]);
      assert Flatten([data]) == data by { assert [data][..0] == []; }
      writes := writes + [data];
    }

    /**
     * `new ByteArrayInputStream(data).transferTo(this)`: the buffered bytes
     * are handed over in one write, and nothing is written for an empty buffer.
     */
    method TransferFrom(data: seq<byte>)
      modifies this
      ensures writes == old(writes) + (if data == [] then [] else [data])
      ensures Contents() == old(Contents()) + data
    {
      if data != [] {
        Write(data);
      } else {
        assert writes + [] == writes;
      }
    }
  }

  /** The request as the handler sees it: its headers and the entity `readAllBytes` returns. */
  datatype ServerRequest = ServerRequest(headers: Headers, entity: seq<byte>)

  /** The response: mutable headers and the output stream the handler writes to. */
  class ServerResponse {
    var headers: Headers
    const out: OutputSink

    constructor (out: OutputSink)
      ensures headers == map[] && this.out == out
    {
      headers := map[];
      this.out := out;
    }
  }

  ghost predicate InBounds(srcLength: nat, srcPos: int, destLength: nat, destPos: int, length: int)
  {
    0 <= srcPos && 0 <= destPos && 0 <= length && srcPos + length <= srcLength && destPos + length <= destLength
  }

  /**
   * `System.arraycopy`: `thrown` stands for the IndexOutOfBoundsException
   * raised, before anything is copied, when a range leaves its array;
   * otherwise `dest[destPos..destPos+length]` receives the source range as
   * it was before the call (so overlapping ranges of one array also copy right).
   */
  method ArrayCopy(src: array<byte>, srcPos: int, dest: array<byte>, destPos: int, length: int) returns (thrown: bool)
    modifies dest
    ensures thrown <==> !InBounds(src.Length, srcPos, dest.Length, destPos, length)
    ensures thrown ==> dest[..] == old(dest[..])
    ensures InBounds(src.Length, srcPos, dest.Length, destPos, length) ==>
      dest[..] == old(dest[..destPos]) + old(src[srcPos..srcPos + length]) + old(dest[destPos + length..])
  {
    if !(0 <= srcPos && 0 <= destPos && 0 <= length && srcPos + length <= src.Length && destPos + length <= dest.Length) {
      return true;
    }
    var copied := src[srcPos..srcPos + length];
    var k := 0;
    while k < length
      invariant 0 <= k <= length
      invariant forall j :: 0 <= j < dest.Length ==>
        dest[j] == (if destPos <= j < destPos + k then copied[j - destPos] else old(dest[j]))
    {
      dest[destPos + k] := copied[k];
      k := k + 1;
    }
    assert dest[..] == old(dest[..destPos]) + copied + old(dest[destPos + length..]);
    return false;
  }

  /** `inputStream.readAllBytes()`: a fresh array holding the request entity. */
  method ReadAllBytes(entity: seq<byte>) returns (a: array<byte>)
    ensures fresh(a) && a[..] == entity
  {
    a := new byte[|entity|](i requires 0 <= i < |entity| => entity[i]);
  }

  /**
   * The chunked branch: three chunks of `regularChunkLen`, `regularChunkLen`
   * and `lastChunkLen` bytes, each copied out of the entity and written in
   * turn. Every copy stays in bounds.
   */
  method WriteInParts(entity: array<byte>, out: OutputSink)
    modifies out
    ensures out.writes == old(out.writes) + SplitEntity(old(entity[..]))
  {
    var regularChunkLen := entity.Length / ChunkParts;
    var lastChunkLen := regularChunkLen + entity.Length % ChunkParts;
    for i := 0 to ChunkParts
      invariant out.writes == old(out.writes) + SplitEntity(entity[..])[..i]
    {
      var chunkLen := if i != ChunkParts - 1 then regularChunkLen else lastChunkLen;
      assert chunkLen == ChunkLen(entity.Length, i);
      var chunk := new byte[chunkLen];
      var thrown := ArrayCopy(entity, i * regularChunkLen, chunk, 0, chunkLen);
      assert !thrown;
      assert chunk[..] == Part(entity[..], i);
      out.Write(chunk[..]);
      assert SplitEntity(entity[..])[..i + 1] == SplitEntity(entity[..])[..i] + [Part(entity[..], i)];
    }
  }

  /** The header half of `customHandler`: the three conditional `set` calls on the response headers. */
  method SetMarkerHeaders(reqHeaders: Headers, res: ServerResponse)
    modifies res
    ensures res.headers == MirrorHeaders(reqHeaders, old(res.headers))
  {
    if ContainsValue(reqHeaders, Expect, Continue100) {
      res.headers := Set(res.headers, XReqExpect100, "true");
    }
    if Contains(reqHeaders, ContentLength) {
      res.headers := Set(res.headers, XReqContentLength, reqHeaders[ContentLength].first);
    }
    if ContainsValue(reqHeaders, TransferEncoding, Chunked) {
      res.headers := Set(res.headers, XReqChunked, "true");
    }
  }

  /**
   * `customHandler`: the marker headers mirror the request's framing headers
   * and the output stream receives the entity, whole or in three parts.
   */
  method CustomHandler(req: ServerRequest, res: ServerResponse, chunkResponse: bool)
    modifies res, res.out
    ensures res.headers == MirrorHeaders(req.headers, old(res.headers))
    ensures res.out.writes == old(res.out.writes) + EchoWrites(req.entity, chunkResponse)
    ensures res.out.Contents() == old(res.out.Contents()) + req.entity
  {
    SetMarkerHeaders(req.headers, res);
    var outputStream := res.out;
    ghost var before := outputStream.writes;
    if !chunkResponse {
      outputStream.TransferFrom(req.entity);
    } else {
      var entity := ReadAllBytes(req.entity);
      WriteInParts(entity, outputStream);
    }
    assert outputStream.writes == before + EchoWrites(req.entity, chunkResponse);
    FlattenAppend(before, EchoWrites(req.entity, chunkResponse));
    EchoPreservesEntity(req.entity, chunkResponse);
  }
}

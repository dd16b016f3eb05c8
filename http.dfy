/**
 * Values the echo test exchanges over HTTP/1.1: bytes, header maps and the
 * decimal rendering of a length.
 *
 * Header names are kept in their lower-case form: Helidon compares header
 * names without regard to case, so a name written "Content-Length" by a
 * caller and "content-length" here denote the same header.
 */
module Http {

  newtype byte = b: int | 0 <= b < 256

  /** The values of one header, in insertion order; a present header has at least one value. */
  datatype HeaderValues = HeaderValues(first: string, rest: seq<string>)
  {
    function All(): (vs: seq<string>)
      ensures |vs| >= 1 && vs[0] == first
    {
      [first] + rest
    }
  }

  type Headers = map<string, HeaderValues>

  const ContentLength: string := "content-length"
  const TransferEncoding: string := "transfer-encoding"
  const Expect: string := "expect"
  const Chunked: string := "chunked"
  const Continue100: string := "100-continue"

  /** `Headers.contains(HeaderName)`: the header is present. */
  predicate Contains(h: Headers, name: string)
  {
    name in h
  }

  /** `Headers.contains(HeaderValue)`: the header is present and carries `value` among its values. */
  predicate ContainsValue(h: Headers, name: string, value: string)
  {
    name in h && value in h[name].All()
  }

  /** `WritableHeaders.set(name, value)`: the header afterwards has exactly this one value. */
  function Set(h: Headers, name: string, value: string): (r: Headers)
    ensures name in r && r[name].All() == [value]
    ensures forall k :: k in h && k != name ==> k in r && r[k] == h[k]
    ensures forall k :: k in r ==> k in h || k == name
  {
    h[name := HeaderValues(value, [])]
  }

  /** The bytes of a sequence of writes, in the order they were written. */
  function Flatten(writes: seq<seq<byte>>): seq<byte>
  {
    if writes == [] then [] else Flatten(writes[..|writes| - 1]) + writes[|writes| - 1]
  }

  lemma {:induction false} FlattenAppend(a: seq<seq<byte>>, b: seq<seq<byte>>)
    ensures Flatten(a + b) == Flatten(a) + Flatten(b)
    decreases |b|
  {
    if b == [] {
      assert a + b == a;
    } else {
      assert (a + b)[..|a + b| - 1] == a + b[..|b| - 1];
      FlattenAppend(a, b[..|b| - 1]);
    }
  }

  function Digit(d: nat): (c: char)
    requires d < 10
    ensures '0' <= c <= '9'
  {
    "0123456789"[d]
  }

  /** `String.valueOf(long)` for a non-negative value. */
  function DecimalString(n: nat): (s: string)
    ensures 1 <= |s|
    ensures forall i :: 0 <= i < |s| ==> '0' <= s[i] <= '9'
    ensures n >= 10 ==> s[0] != '0'
  {
    if n < 10 then [Digit(n)] else DecimalString(n / 10) + [Digit(n % 10)]
  }

  /** The value a decimal string denotes; the inverse of `DecimalString`. */
  function DecimalValue(s: string): nat
    requires forall i :: 0 <= i < |s| ==> '0' <= s[i] <= '9'
  {
    if s == [] then 0 else 10 * DecimalValue(s[..|s| - 1]) + (s[|s| - 1] - '0') as nat
  }

  lemma {:induction false} DecimalRoundTrip(n: nat)
    ensures DecimalValue(DecimalString(n)) == n
  {
    if n >= 10 {
      var s := DecimalString(n);
      assert s[..|s| - 1] == DecimalString(n / 10);
      DecimalRoundTrip(n / 10);
    }
  }
}

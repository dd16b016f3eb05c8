/**
 * The customised media context of the webclient integration test. It
 * delegates every lookup to the default context, except the writer looked
 * up with both request and response headers (the one a server uses for a
 * response entity): that writer is wrapped. The wrapper's five-argument
 * `write` cuts a string entity to its first five characters before handing
 * it on; its four-argument `write` hands every object on as it is.
 */
module MediaWriter {
  import opened Wrappers
  import Http

  /** The object handed to a writer: a `String`, or an object of any other type (kept as its bytes). */
  datatype Entity = Text(s: string) | Other(content: seq<Http.byte>)

  /** `String.substring(0, 5)` on a shorter string. */
  datatype WriteError = StringIndexOutOfBounds

  const MaxLen: nat := 5

  /**
   * The object the wrapper's five-argument `write` hands to the default
   * writer: the first five characters of a string (a failure when the
   * string is shorter), any other object unchanged.
   */
  function ResponseWriteArgument(obj: Entity): (r: Result<Entity, WriteError>)
    ensures obj.Text? ==> (r.Success? <==> |obj.s| >= MaxLen)
    ensures obj.Text? && r.Success? ==> r.value.Text? && |r.value.s| == MaxLen && r.value.s <= obj.s
    ensures obj.Other? ==> r == Success(obj)
  {
    match obj
    case Text(s) => if |s| < MaxLen then Failure(StringIndexOutOfBounds) else Success(Text(s[..MaxLen]))
    case Other(_) => Success(obj)
  }

  /** The object the wrapper's four-argument `write` hands to the default writer: it never fails and changes nothing. */
  function RequestWriteArgument(obj: Entity): (r: Result<Entity, WriteError>)
    ensures r.Success? && r.value == obj
  {
    Success(obj)
  }

  /** The two `write` forms of the wrapper agree exactly on objects that are not strings and on five-character strings. */
  lemma WriteFormsAgree(obj: Entity)
    ensures ResponseWriteArgument(obj) == RequestWriteArgument(obj) <==> obj.Other? || |obj.s| == MaxLen
  {
    if obj.Text? && |obj.s| == MaxLen {
      assert obj.s[..MaxLen] == obj.s;
    }
  }

  /** Cutting twice is cutting once: a five-character string goes through the five-argument `write` unchanged. */
  lemma ResponseWriteIdempotent(obj: Entity)
    requires ResponseWriteArgument(obj).Success?
    ensures ResponseWriteArgument(ResponseWriteArgument(obj).value) == ResponseWriteArgument(obj)
  {
    if obj.Text? {
      var cut := ResponseWriteArgument(obj).value;
      assert cut.s[..MaxLen] == cut.s;
    }
  }

  /** Which writer lookup of the media context is made. */
  datatype WriterLookup =
    | ForRequest   // `writer(type, requestHeaders)`: a client writing a request entity
    | ForResponse  // `writer(type, requestHeaders, responseHeaders)`: a server writing a response entity

  /** Which `write` form the caller of the writer uses. */
  datatype WriteForm = FourArguments | FiveArguments

  /** Only the response lookup returns the wrapping writer; the request lookup returns the default writer itself. */
  predicate Wrapped(lookup: WriterLookup)
  {
    lookup.ForResponse?
  }

  /**
   * What the default writer finally receives when an entity is written
   * through the writer a lookup returned, with a given `write` form.
   */
  function DefaultWriterArgument(lookup: WriterLookup, form: WriteForm, obj: Entity): (r: Result<Entity, WriteError>)
    ensures !Wrapped(lookup) ==> r == Success(obj)
    ensures r != Success(obj) ==> Wrapped(lookup) && form.FiveArguments? && obj.Text? && |obj.s| != MaxLen
    ensures r.Failure? ==> obj.Text? && |obj.s| < MaxLen
  {
    if !Wrapped(lookup) then Success(obj)
    else match form
      case FiveArguments => WriteFormsAgree(obj); ResponseWriteArgument(obj)
      case FourArguments => RequestWriteArgument(obj)
  }

  /**
   * `testMediaContext`: a client built with this context writes its request
   * entity through the default writer, so "Sending Something" is sent and
   * echoed whole, whichever `write` form is used; a server writing it as a
   * response entity through this context would have sent "Sendi".
   */
  lemma RequestEntityBypassesWrapper(form: WriteForm)
    ensures DefaultWriterArgument(ForRequest, form, Text("Sending Something")) == Success(Text("Sending Something"))
    ensures DefaultWriterArgument(ForResponse, FiveArguments, Text("Sending Something")) == Success(Text("Sendi"))
  {
    assert "Sending Something"[..MaxLen] == "Sendi";
  }
}

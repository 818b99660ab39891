/** Response shaping of `handleFile`: status, header list and the slice of
    the file to send, from the file's size and type and the range (if any). */
module Responder {
  import opened Wrappers
  import opened Text
  import opened ByteRanges

  type Header = (string, string)

  /** What `handleFile` hands to `startResponse`, plus the slice it then reads:
      `size` bytes from `offset`. */
  datatype Response = Response(status: string, headers: seq<Header>, offset: UInt64, size: UInt64)

  /** The value of the first header called `name`. */
  function FindHeader(headers: seq<Header>, name: string): Option<string>
  {
    if headers == [] then None
    else if headers[0].0 == name then Some(headers[0].1)
    else FindHeader(headers[1..], name)
  }

  lemma {:induction false} FindHeaderAppend(a: seq<Header>, b: seq<Header>, name: string)
    ensures FindHeader(a + b, name) == if FindHeader(a, name).Some? then FindHeader(a, name) else FindHeader(b, name)
  {
    if a == [] {
      assert a + b == b;
    } else {
      assert (a + b)[0] == a[0];
      assert (a + b)[1..] == a[1..] + b;
      FindHeaderAppend(a[1..], b, name);
    }
  }

  /** Reads a "bytes first-last/complete-length" value back into its numbers. */
  function ParseContentRange(value: string): Option<(nat, nat, nat)>
  {
    if !HasPrefix(value, "bytes ") then None
    else
      var halves := Split(value[6..], '/');
      if |halves| != 2 then None
      else
        var ends := Split(halves[0], '-');
        if |ends| == 2 && ends[0] != [] && ends[1] != [] && halves[1] != [] &&
           AllDigits(ends[0]) && AllDigits(ends[1]) && AllDigits(halves[1])
        then Some((DigitsValue(ends[0]), DigitsValue(ends[1]), DigitsValue(halves[1])))
        else None
  }

  /** "bytes first-last/complete-length", the form of a `Content-Range` value
      in section 4.2 of RFC 7233, reads back as its three numbers. */
  lemma ContentRangeFormatRoundTrip(first: nat, last: nat, total: nat)
    ensures ParseContentRange("bytes " + NatToString(first) + "-" + NatToString(last) + "/" + NatToString(total)) ==
            Some((first, last, total))
  {
    var a, b, c := NatToString(first), NatToString(last), NatToString(total);
    var v := "bytes " + a + "-" + b + "/" + c;
    assert v == "bytes " + (a + "-" + b + "/" + c);
    assert v[..6] == "bytes ";
    assert v[6..] == a + "-" + b + "/" + c;
    DigitsExclude(a, '/');
    DigitsExclude(b, '/');
    DigitsExclude(a, '-');
    DigitsExclude(b, '-');
    DigitsExclude(c, '/');
    var ends := a + "-" + b;
    assert '/' !in ends;
    assert v[6..] == ends + "/" + c;
    SplitTwo(ends, c, '/');
    SplitTwo(a, b, '-');
    DigitsValueOfNatToString(first);
    DigitsValueOfNatToString(last);
    DigitsValueOfNatToString(total);
  }

  /** The `Content-Range` value for `size` bytes from `offset`: it names
      exactly the bytes sent, first position `offset`, last (inclusive)
      `offset + size - 1`, out of `fileSize`. The source's format string has
      `%ly` for the last position, a typo for `%lu`. */
  function ContentRangeValue(offset: nat, size: nat, fileSize: nat): (value: string)
    requires 1 <= offset + size
    ensures HasPrefix(value, "bytes ")
    ensures ParseContentRange(value) == Some((offset, offset + size - 1, fileSize))
  {
    ContentRangeFormatRoundTrip(offset, offset + size - 1, fileSize);
    "bytes " + NatToString(offset) + "-" + NatToString(offset + size - 1) + "/" + NatToString(fileSize)
  }

  /** The headers every response starts with, under the source's names. */
  function BaseHeaders(mime: string): seq<Header>
  {
    [("ContentType", mime), ("LastModifiedDate", ""), ("ETag", "")]
  }

  lemma BaseHeadersLookup(mime: string)
    ensures FindHeader(BaseHeaders(mime), "ContentType") == Some(mime)
    ensures FindHeader(BaseHeaders(mime), "Content-Range") == None
    ensures FindHeader(BaseHeaders(mime), "ContentLength") == None
  {
    var h := BaseHeaders(mime);
    assert "ContentType" != "Content-Range" && "ContentType" != "ContentLength";
    assert "LastModifiedDate" != "Content-Range" && "LastModifiedDate" != "ContentLength";
    assert "ETag" != "Content-Range" && "ETag" != "ContentLength";
    forall name | name in {"Content-Range", "ContentLength"}
      ensures FindHeader(h, name) == None
    {
      assert h[1..][1..][1..] == [];
      assert FindHeader(h[1..][1..][1..], name) == None;
      assert FindHeader(h[1..][1..], name) == None;
      assert FindHeader(h[1..], name) == None;
    }
  }

  lemma WholeFileHeadersLookup(mime: string, length: string)
    ensures var h := BaseHeaders(mime) + [("ContentLength", length)];
      && FindHeader(h, "ContentType") == Some(mime)
      && FindHeader(h, "Content-Range") == None
      && FindHeader(h, "ContentLength") == Some(length)
  {
    var tail := [("ContentLength", length)];
    BaseHeadersLookup(mime);
    assert "Content-Range" != "ContentLength";
    FindHeaderAppend(BaseHeaders(mime), tail, "ContentType");
    FindHeaderAppend(BaseHeaders(mime), tail, "Content-Range");
    FindHeaderAppend(BaseHeaders(mime), tail, "ContentLength");
  }

  lemma PartialHeadersLookup(mime: string, contentRange: string, length: string)
    ensures var h := BaseHeaders(mime) + [("Content-Range", contentRange), ("ContentLength", length)];
      && FindHeader(h, "ContentType") == Some(mime)
      && FindHeader(h, "Content-Range") == Some(contentRange)
      && FindHeader(h, "ContentLength") == Some(length)
  {
    var tail := [("Content-Range", contentRange), ("ContentLength", length)];
    BaseHeadersLookup(mime);
    assert "Content-Range" != "ContentLength";
    FindHeaderAppend(BaseHeaders(mime), tail, "ContentType");
    FindHeaderAppend(BaseHeaders(mime), tail, "Content-Range");
    FindHeaderAppend(BaseHeaders(mime), tail, "ContentLength");
    assert tail[1..] == [tail[1]];
  }

  /** `handleFile`'s shaping of the response: a non-regular file gets none;
      a byte range makes it a 206 with `Content-Range`; otherwise it is a 200
      for the whole file. The `requires` is the source's UInt64 arithmetic for
      the last position, offset + size - 1, which traps otherwise. */
  function Respond(fileSize: UInt64, isRegular: bool, mime: string, ra: Option<ByteRange>): (response: Option<Response>)
    requires ra.Some? ==> 1 <= ra.value.location + ra.value.length <= UIntMax
    ensures response.Some? <==> isRegular
    ensures response.Some? ==> FindHeader(response.value.headers, "ContentType") == Some(mime)
    ensures response.Some? && ra.None? ==>
      var resp := response.value;
      && resp.status == "200 OK"
      && resp.offset == 0 && resp.size == fileSize
      && FindHeader(resp.headers, "Content-Range") == None
      && FindHeader(resp.headers, "ContentLength") == Some(NatToString(fileSize))
    ensures response.Some? && ra.Some? ==>
      var resp, r := response.value, ra.value;
      && resp.status == "206"
      && resp.offset == r.location && resp.size == r.length
      && FindHeader(resp.headers, "Content-Range") == Some(ContentRangeValue(r.location, r.length, fileSize))
      && ParseContentRange(ContentRangeValue(r.location, r.length, fileSize)) ==
         Some((resp.offset, resp.offset + resp.size - 1, fileSize))
      && FindHeader(resp.headers, "ContentLength") == Some(NatToString(r.length))
  {
    if !isRegular then None
    else
      match ra
      case None =>
        var length := NatToString(fileSize);
        WholeFileHeadersLookup(mime, length);
        Some(Response("200 OK", BaseHeaders(mime) + [("ContentLength", length)], 0, fileSize))
      case Some(r) =>
        var contentRange, length := ContentRangeValue(r.location, r.length, fileSize), NatToString(r.length);
        PartialHeadersLookup(mime, contentRange, length);
        Some(Response("206", BaseHeaders(mime) + [("Content-Range", contentRange), ("ContentLength", length)],
                      r.location, r.length))
  }
}

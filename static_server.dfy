/** The `Static` server object: `handleFile`, which looks the file up,
    resolves the `Range` header, shapes the response and, once the file opens
    for reading, appends a record to the request log. Filesystem access is
    represented by its results: the attributes (absent when
    `attributesOfItem` throws) and whether `FileHandle` opened the file. */
module StaticServer {
  import opened Wrappers
  import opened ByteRanges
  import opened Mime
  import opened Responder

  /** What `attributesOfItem` reports that `handleFile` uses. */
  datatype FileAttributes = FileAttributes(size: UInt64, isRegular: bool)

  /** A log entry (`StaticRequest`) without its two timestamps. */
  datatype StaticRequest = StaticRequest(path: string, fileSize: UInt64, range: Option<ByteRange>)

  /** The range handed to the response shaping: only a satisfiable byte
      range; a header without one and an unsatisfiable one both give nil. */
  function RangeArgument(resolution: Resolution): (ra: Option<ByteRange>)
    ensures ra.Some? <==> resolution.Partial?
    ensures ra.Some? ==> ra.value == resolution.range
  {
    if resolution.Partial? then Some(resolution.range) else None
  }

  /** Specification of `handleFile`'s response. The MIME type is looked up
      with the whole path where an extension is expected, as the source does. */
  function Serve(path: string, range: string, attributes: Option<FileAttributes>,
                 system: string -> Option<string>): (response: Option<Response>)
  {
    if attributes.None? then None
    else
      var fileSize := attributes.value.size;
      Respond(fileSize, attributes.value.isRegular, PreferredMimeType(path, None, system),
              RangeArgument(Resolve(ParseByteRange(Some(range)), fileSize)))
  }

  /** Whatever the header, a served response reads a slice inside the file,
      says in `ContentLength` how long it is, and is a 206 exactly when the
      header named a satisfiable byte range. */
  lemma ServedSliceWithinFile(path: string, range: string, attributes: Option<FileAttributes>,
                              system: string -> Option<string>)
    ensures var response := Serve(path, range, attributes, system);
      response.Some? ==>
        var resp, fileSize := response.value, attributes.value.size;
        && resp.offset + resp.size <= fileSize
        && Text.DigitsValue(FindHeader(resp.headers, "ContentLength").value) == resp.size
        && (resp.status == "206" <==> Resolve(ParseByteRange(Some(range)), fileSize).Partial?)
        && (resp.status == "206" ==> 0 < resp.size)
  {
    var response := Serve(path, range, attributes, system);
    if response.Some? {
      Text.DigitsValueOfNatToString(response.value.size);
    }
  }

  /** A regular file whose header resolves to a byte range gets a 206 for
      exactly that slice. */
  lemma ServePartialContent(path: string, range: string, fileSize: UInt64,
                            system: string -> Option<string>, r: ByteRange)
    requires Resolve(ParseByteRange(Some(range)), fileSize) == Partial(r)
    ensures var resp := Serve(path, range, Some(FileAttributes(fileSize, true)), system).value;
      && resp.status == "206" && resp.offset == r.location && resp.size == r.length
      && FindHeader(resp.headers, "Content-Range") == Some(ContentRangeValue(r.location, r.length, fileSize))
      && FindHeader(resp.headers, "ContentLength") == Some(Text.NatToString(r.length))
  {
  }

  /** A regular file whose header resolves to no byte range, or to an
      unsatisfiable one, gets a 200 for the whole file. */
  lemma ServeWholeFile(path: string, range: string, fileSize: UInt64, system: string -> Option<string>)
    requires !Resolve(ParseByteRange(Some(range)), fileSize).Partial?
    ensures var resp := Serve(path, range, Some(FileAttributes(fileSize, true)), system).value;
      && resp.status == "200 OK" && resp.offset == 0 && resp.size == fileSize
      && FindHeader(resp.headers, "Content-Range") == None
      && FindHeader(resp.headers, "ContentLength") == Some(Text.NatToString(fileSize))
  {
  }

  class Static {
    const basePath: string
    const port: int
    var log: seq<StaticRequest>

    constructor (basePath: string, port: int)
      ensures this.basePath == basePath && this.port == port && log == []
    {
      this.basePath := basePath;
      this.port := port;
      log := [];
    }

    /** `handleFile` with the request's `Range` header passed to `parseRange`
        (the source passes "" under a wrong argument label). The response is
        started before the file is opened; the log grows only when it opens. */
    method HandleFile(path: string, range: string, attributes: Option<FileAttributes>,
                      system: string -> Option<string>, fileOpened: bool) returns (response: Option<Response>)
      modifies this
      ensures response == Serve(path, range, attributes, system)
      ensures log == if response.Some? && fileOpened
                     then old(log) + [StaticRequest(path, attributes.value.size, None)]
                     else old(log)
    {
      if attributes.None? {
        return None;  // attributesOfItem threw; the catch block does nothing
      }
      var fileSize := attributes.value.size;
      var offset: UInt64 := 0;
      var size: UInt64 := fileSize;
      if !attributes.value.isRegular {
        return None;
      }
      var code := "200 OK";
      var mime := MimeForExtension(path, None, system);
      var header := [("ContentType", mime), ("LastModifiedDate", ""), ("ETag", "")];
      var resolution := ParseRange(fileSize, Some(range));
      var ra := RangeArgument(resolution);
      ghost var expected := Respond(fileSize, true, mime, ra);
      if ra.Some? {
        var r := ra.value;
        code := "206";
        offset := r.location;
        size := r.length;
        header := header + [("Content-Range", ContentRangeValue(offset, size, fileSize))];
      }
      header := header + [("ContentLength", Text.NatToString(size))];
      response := Some(Response(code, header, offset, size));
      if ra.Some? {
        var tail := [("Content-Range", ContentRangeValue(offset, size, fileSize)),
                     ("ContentLength", Text.NatToString(size))];
        assert header == BaseHeaders(mime) + tail;
        assert expected == Some(Response("206", BaseHeaders(mime) + tail, offset, size));
      } else {
        assert header == BaseHeaders(mime) + [("ContentLength", Text.NatToString(fileSize))];
      }
      if fileOpened {
        log := log + [StaticRequest(path, fileSize, None)];
      }
    }
  }
}

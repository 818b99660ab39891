/** Worked requests against a 10000-byte regular file: first how each header
    resolves, then the response it gets. */
module Scenarios {
  import opened Wrappers
  import opened Text
  import opened Headers
  import opened ByteRanges
  import opened Responder
  import opened StaticServer

  const File := Some(FileAttributes(10000, true))

  lemma Numerals()
    ensures NatToString(500) == "500" && NatToString(999) == "999" && NatToString(10000) == "10000"
    ensures NatToString(9500) == "9500" && NatToString(9999) == "9999"
  {
  }

  lemma SecondFiveHundredText()
    ensures ContentRangeValue(500, 500, 10000) == "bytes 500-999/10000"
  {
    Numerals();
  }

  lemma FinalFiveHundredText()
    ensures ContentRangeValue(9500, 500, 10000) == "bytes 9500-9999/10000"
  {
    Numerals();
  }

  /** "500-999": the second 500 bytes. */
  lemma SecondFiveHundredResolves()
    ensures Resolve(ParseByteRange(Some("bytes=500-999")), 10000) == Partial(ByteRange(500, 500))
  {
    assert "bytes=500-999" == "bytes=" + NatToString(500) + "-" + NatToString(999);
    ClosedRange(500, 999, 10000);
  }

  lemma SecondFiveHundredResponse(path: string, system: string -> Option<string>)
    ensures var resp := Serve(path, "bytes=500-999", File, system).value;
      && resp.status == "206" && resp.offset == 500 && resp.size == 500
      && FindHeader(resp.headers, "Content-Range") == Some("bytes 500-999/10000")
      && FindHeader(resp.headers, "ContentLength") == Some("500")
  {
    SecondFiveHundredResolves();
    ServePartialContent(path, "bytes=500-999", 10000, system, ByteRange(500, 500));
    Numerals();
    SecondFiveHundredText();
  }

  /** "9500-": everything from byte 9500 on. */
  lemma FromNinetyFiveHundredResolves()
    ensures Resolve(ParseByteRange(Some("bytes=9500-")), 10000) == Partial(ByteRange(9500, 500))
  {
    assert "bytes=9500-" == "bytes=" + NatToString(9500) + "-";
    OpenRange(9500, 10000);
  }

  lemma FromNinetyFiveHundredResponse(path: string, system: string -> Option<string>)
    ensures var resp := Serve(path, "bytes=9500-", File, system).value;
      && resp.status == "206" && resp.offset == 9500 && resp.size == 500
      && FindHeader(resp.headers, "Content-Range") == Some("bytes 9500-9999/10000")
  {
    FromNinetyFiveHundredResolves();
    ServePartialContent(path, "bytes=9500-", 10000, system, ByteRange(9500, 500));
    Numerals();
    FinalFiveHundredText();
  }

  /** "-500": the final 500 bytes, the same slice as "9500-". */
  lemma FinalFiveHundredResolves()
    ensures Resolve(ParseByteRange(Some("bytes=-500")), 10000) == Partial(ByteRange(9500, 500))
  {
    assert "bytes=-500" == "bytes=-" + NatToString(500);
    SuffixRange(500, 10000);
  }

  lemma FinalFiveHundredResponse(path: string, system: string -> Option<string>)
    ensures var resp := Serve(path, "bytes=-500", File, system).value;
      && resp.status == "206" && resp.offset == 9500 && resp.size == 500
      && FindHeader(resp.headers, "Content-Range") == Some("bytes 9500-9999/10000")
  {
    FinalFiveHundredResolves();
    ServePartialContent(path, "bytes=-500", 10000, system, ByteRange(9500, 500));
    Numerals();
    FinalFiveHundredText();
  }

  /** "10000-20000" starts past the last byte: unsatisfiable. */
  lemma PastTheEndResolves()
    ensures Resolve(ParseByteRange(Some("bytes=10000-20000")), 10000) == Unsatisfiable
  {
    assert "bytes=10000-20000" == "bytes=" + NatToString(10000) + "-" + NatToString(20000);
    ClosedRange(10000, 20000, 10000);
  }

  /** With no 416 in the source, an unsatisfiable range gets the whole file. */
  lemma PastTheEndResponse(path: string, system: string -> Option<string>)
    ensures var resp := Serve(path, "bytes=10000-20000", File, system).value;
      && resp.status == "200 OK" && resp.offset == 0 && resp.size == 10000
      && FindHeader(resp.headers, "Content-Range") == None
  {
    PastTheEndResolves();
    ServeWholeFile(path, "bytes=10000-20000", 10000, system);
  }

  /** Two ranges: only single ranges are supported, so the header is ignored. */
  lemma TwoRangesResolve()
    ensures Resolve(ParseByteRange(Some("bytes=0-99,200-299")), 10000) == Whole(ByteRange(0, 10000))
  {
    assert "bytes=0-99,200-299" == "bytes=" + "0-99" + "," + "200-299";
    SeveralRanges("0-99", "200-299");
  }

  lemma TwoRangesResponse(path: string, system: string -> Option<string>)
    ensures var resp := Serve(path, "bytes=0-99,200-299", File, system).value;
      && resp.status == "200 OK" && resp.size == 10000
      && FindHeader(resp.headers, "ContentLength") == Some("10000")
  {
    TwoRangesResolve();
    ServeWholeFile(path, "bytes=0-99,200-299", 10000, system);
    Numerals();
  }

  /** No header, or the empty value: the whole file with a 200. */
  lemma NoHeaderResponse(path: string, mime: string, system: string -> Option<string>)
    ensures Resolve(ParseByteRange(None), 10000) == Whole(ByteRange(0, 10000))
    ensures var resp := Respond(10000, true, mime, RangeArgument(Resolve(ParseByteRange(None), 10000))).value;
      && resp.status == "200 OK" && resp.offset == 0 && resp.size == 10000
      && FindHeader(resp.headers, "ContentLength") == Some("10000")
    ensures var resp := Serve(path, "", File, system).value;
      && resp.status == "200 OK" && resp.offset == 0 && resp.size == 10000
      && FindHeader(resp.headers, "ContentLength") == Some("10000")
  {
    NoValidRangeServesWholeFile(Some(""), 10000);
    ServeWholeFile(path, "", 10000, system);
    Numerals();
  }

  /** Any spelling of the unit before a closed range "a-b". */
  lemma CapitalisedClosedRange(unit: string, x: string, y: string, a: nat, b: nat)
    requires Lower(unit) == "bytes=" && a <= b <= IntMax
    requires x == NatToString(a) && y == NatToString(b)
    ensures ParseByteRange(Some(unit + (x + "-" + y))) == ByteRange(a, b - a + 1)
  {
    CapitalisedUnit(unit, x + "-" + y);
    ClosedRangeParses(x, y, a, b);
  }

  /** The unit token is case-insensitive: "Bytes=500-999", "BYTES=500-999"
      and every other spelling of the unit read as "bytes=500-999". */
  lemma UnitIsCaseInsensitive(unit: string)
    requires Lower(unit) == "bytes="
    ensures ParseByteRange(Some(unit + "500-999")) == ByteRange(500, 500)
  {
    Numerals();
    assert "500-999" == "500" + "-" + "999";
    CapitalisedClosedRange(unit, "500", "999", 500, 999);
  }
}

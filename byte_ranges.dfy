/** The HTTP `Range` header, single-range subset of section 2.1 of RFC 7233:
    the reference parse of `parseRange`, which turns the header into an
    NSRange-like (location, length) pair with NSUIntegerMax as a marker, and
    the reference clamp, which resolves that pair against the file size. */
module ByteRanges {
  import opened Wrappers
  import opened Text
  import opened Headers

  /** NSUIntegerMax on a 64-bit platform. */
  const UIntMax: nat := 0xFFFF_FFFF_FFFF_FFFF

  /** The source's `UInt64` / `NSUInteger`. */
  type UInt64 = x: nat | x <= UIntMax

  function Min(a: int, b: int): int { if a <= b then a else b }
  function Max(a: int, b: int): int { if a <= b then b else a }

  /** An NSRange. A location of NSUIntegerMax marks a suffix request for the
      final `length` bytes; with length 0 it marks a header that did not parse. */
  datatype ByteRange = ByteRange(location: UInt64, length: UInt64)

  const InvalidRange := ByteRange(UIntMax, 0)

  /** `GCDWebServerIsValidByteRange`: the only unusable range is the marker a
      header that did not parse leaves behind. */
  function IsValidByteRange(range: ByteRange): (valid: bool)
    ensures valid <==> range != InvalidRange
  {
    range.location != UIntMax || range.length > 0
  }

  /** The reference parse (`bytes=` prefix, one comma-separated range, two
      `-`-separated parts, then closed `a-b`, open `a-` or suffix `-n`).
      Numbers are read with `integerValue`; since the parts hold no `-`, a
      value is never negative and the source's `>= 0` tests always pass. */
  function ParseByteRange(header: Option<string>): (range: ByteRange)
    ensures range.location == UIntMax || range.location <= IntMax
  {
    if header.None? then InvalidRange
    else
      var rangeHeader := NormalizeHeaderValue(header.value);
      if !HasPrefix(rangeHeader, "bytes=") then InvalidRange
      else
        var components := Split(rangeHeader[6..], ',');
        if |components| != 1 then InvalidRange
        else
          var parts := Split(components[0], '-');
          if |parts| != 2 then InvalidRange
          else RangeOfParts(parts[0], parts[1])
  }

  /** The three accepted shapes of "start-end", in the source's order. */
  function RangeOfParts(startString: string, endString: string): (range: ByteRange)
    ensures IsValidByteRange(range) <==> (startString != [] || IntegerValue(endString) > 0)
    // a non-empty start is where the range begins
    ensures startString != [] ==> range.location == IntegerValue(startString)
    // "a-b" with a <= b ends at byte b, inclusive
    ensures startString != [] && endString != [] && IntegerValue(startString) <= IntegerValue(endString) ==>
      range.location + range.length - 1 == IntegerValue(endString)
    // "a-" (or "a-b" with b < a) runs to the end, whatever the file size
    ensures startString != [] && (endString == [] || IntegerValue(endString) < IntegerValue(startString)) ==>
      range.length == UIntMax
    // "-n" asks for the final n bytes; n = 0 leaves the unusable marker
    ensures startString == [] ==> range == ByteRange(UIntMax, IntegerValue(endString))
  {
    var startValue, endValue := IntegerValue(startString), IntegerValue(endString);
    if |startString| > 0 && |endString| > 0 && endValue >= startValue then
      ByteRange(startValue, endValue - startValue + 1)  // "500-999"
    else if |startString| > 0 then
      ByteRange(startValue, UIntMax)                    // "9500-"
    else if |endString| > 0 && endValue > 0 then
      ByteRange(UIntMax, endValue)                      // "-500"
    else
      InvalidRange
  }

  /** Outcome of resolving a parsed range against a file: no usable byte range
      (serve `range`, the whole file), a satisfiable byte range, or nothing
      satisfiable (the reference returns nil; a 416 is only a TODO there). */
  datatype Resolution = Whole(range: ByteRange) | Partial(range: ByteRange) | Unsatisfiable

  /** Half-open interval [lo, hi) of byte positions. */
  datatype Interval = Interval(lo: int, hi: int)
  {
    predicate Contains(p: int)
    {
      lo <= p < hi
    }
  }

  /** The positions a (non-marker) range covers. */
  function Positions(range: ByteRange): Interval
  {
    Interval(range.location, range.location + range.length)
  }

  /** The byte positions a valid range asks for, before looking at what the
      file holds: [location, location + length), or for a suffix request the
      last `length` positions before the end. */
  function Requested(range: ByteRange, fileSize: UInt64): Interval
  {
    if range.location == UIntMax then Interval(fileSize - range.length, fileSize)
    else Interval(range.location, range.location + range.length)
  }

  /** Specification of the clamp: a valid range is served as exactly the
      requested positions that lie inside the file, or is unsatisfiable when
      none do; an invalid one is ignored and the whole file is served. */
  function Resolve(range: ByteRange, fileSize: UInt64): (resolution: Resolution)
    ensures resolution.Whole? <==> !IsValidByteRange(range)
    ensures resolution.Whole? ==> resolution.range == ByteRange(0, fileSize)
    ensures resolution.Partial? ==>
      && 0 < resolution.range.length
      && resolution.range.location + resolution.range.length <= fileSize
    ensures resolution.Unsatisfiable? ==> IsValidByteRange(range)
  {
    if !IsValidByteRange(range) then Whole(ByteRange(0, fileSize))
    else
      var req := Requested(range, fileSize);
      var lo, hi := Max(req.lo, 0), Min(req.hi, fileSize);
      if lo < hi then Partial(ByteRange(lo, hi - lo)) else Unsatisfiable
  }

  /** A satisfiable range is served as exactly the requested positions that
      lie inside the file; an unsatisfiable one asks for none of them. */
  lemma ResolveServesRequestedPositions(range: ByteRange, fileSize: UInt64)
    ensures var resolution := Resolve(range, fileSize);
      && (resolution.Partial? ==>
            forall p :: Positions(resolution.range).Contains(p) <==>
                        0 <= p < fileSize && Requested(range, fileSize).Contains(p))
      && (resolution.Unsatisfiable? ==>
            forall p :: 0 <= p < fileSize ==> !Requested(range, fileSize).Contains(p))
  {
  }

  /** The reference clamp: rewrites the range's location and length in
      place, and is exactly `Resolve`. */
  method ClampRange(range: ByteRange, fileSize: UInt64) returns (resolution: Resolution)
    ensures resolution == Resolve(range, fileSize)
  {
    var clamped := range;
    var hasByteRange := IsValidByteRange(clamped);
    if hasByteRange {
      if clamped.location != UIntMax {
        clamped := clamped.(location := Min(clamped.location, fileSize));
        clamped := clamped.(length := Min(clamped.length, fileSize - clamped.location));
        assert clamped.length == Max(Min(range.location + range.length, fileSize) - range.location, 0);
      } else {
        clamped := clamped.(length := Min(clamped.length, fileSize));
        clamped := clamped.(location := fileSize - clamped.length);
        assert clamped.location == Max(fileSize - range.length, 0);
      }
      if clamped.length == 0 {
        return Unsatisfiable;
      }
      resolution := Partial(clamped);
    } else {
      clamped := clamped.(location := 0);
      clamped := clamped.(length := fileSize);
      resolution := Whole(clamped);
    }
  }

  /** `parseRange` with the reference parse and the reference clamp. */
  method ParseRange(fileSize: UInt64, r: Option<string>) returns (resolution: Resolution)
    ensures resolution == Resolve(ParseByteRange(r), fileSize)
    ensures resolution.Partial? ==>
      0 < resolution.range.length && resolution.range.location + resolution.range.length <= fileSize
    ensures resolution.Whole? <==> !IsValidByteRange(ParseByteRange(r))
    ensures resolution.Whole? ==> resolution.range == ByteRange(0, fileSize)
  {
    var range := ParseByteRange(r);
    resolution := ClampRange(range, fileSize);
  }

  /** A header parses to a usable byte range exactly when it is present,
      starts with `bytes=` once normalised, holds one comma-separated range,
      that range has exactly two `-`-separated parts, and either the first part
      is non-empty or the second reads as a positive number. */
  lemma ParseValidIff(header: Option<string>)
    ensures IsValidByteRange(ParseByteRange(header)) <==>
      (header.Some? &&
       var v := NormalizeHeaderValue(header.value);
       HasPrefix(v, "bytes=") && ',' !in v[6..] &&
       var parts := Split(v[6..], '-');
       |parts| == 2 && (parts[0] != [] || IntegerValue(parts[1]) > 0))
  {
  }

  /** A missing header, another unit, several ranges, or a range that is not
      two `-`-separated parts are all ignored: the whole file is served. */
  lemma NoValidRangeServesWholeFile(header: Option<string>, fileSize: UInt64)
    requires
      || header.None?
      || !HasPrefix(NormalizeHeaderValue(header.value), "bytes=")
      || ',' in NormalizeHeaderValue(header.value)[6..]
      || |Split(NormalizeHeaderValue(header.value)[6..], '-')| != 2
    ensures ParseByteRange(header) == InvalidRange
    ensures Resolve(ParseByteRange(header), fileSize) == Whole(ByteRange(0, fileSize))
  {
  }

  /** `"bytes=" + x + "-" + y` for decimal texts x and y: already normal,
      one comma-separated range, and its two parts are x and y. */
  lemma RangeHeaderParts(x: string, y: string)
    requires AllDigits(x) && AllDigits(y)
    ensures var h := "bytes=" + x + "-" + y;
      && NormalizeHeaderValue(h) == h
      && HasPrefix(h, "bytes=")
      && Split(h[6..], ',') == [x + "-" + y]
      && Split(x + "-" + y, '-') == [x, y]
      && ParseByteRange(Some(h)) == RangeOfParts(x, y)
  {
    var range := x + "-" + y;
    var h := "bytes=" + range;
    assert h == "bytes=" + x + "-" + y;
    DigitsExclude(x, '-');
    DigitsExclude(y, '-');
    DigitsExclude(x, ',');
    DigitsExclude(y, ',');
    DigitRangeIsNormal(x, y);
    assert h[..6] == "bytes=";
    assert h[6..] == range;
    assert ',' !in range;
    assert Split(range, ',') == [range];
    SplitTwo(x, y, '-');
    ParseOfParts(h, x, y);
  }

  lemma DigitRangeIsNormal(x: string, y: string)
    requires AllDigits(x) && AllDigits(y)
    ensures NormalizeHeaderValue("bytes=" + x + "-" + y) == "bytes=" + x + "-" + y
  {
    var h := "bytes=" + x + "-" + y;
    forall c | c in h
      ensures !IsUpper(c)
    {
      assert c in "bytes=" || c in x || c in "-" || c in y;
    }
    NormalizeWithoutUpper(h);
  }

  /** The parse of a normal `bytes=` header holding one range "x-y". */
  lemma ParseOfParts(h: string, x: string, y: string)
    requires NormalizeHeaderValue(h) == h && HasPrefix(h, "bytes=")
    requires Split(h[6..], ',') == [x + "-" + y] && Split(x + "-" + y, '-') == [x, y]
    ensures ParseByteRange(Some(h)) == RangeOfParts(x, y)
  {
  }

  /** More than one comma-separated range: the header is ignored, whatever
      the ranges say. */
  lemma SeveralRanges(first: string, rest: string)
    ensures ParseByteRange(Some("bytes=" + first + "," + rest)) == InvalidRange
  {
    var h := "bytes=" + first + "," + rest;
    var n := NormalizeHeaderValue(h);
    forall k | 0 <= k < 6
      ensures n[k] == h[k]
    {
      assert h[k] == "bytes="[k];
    }
    assert n[..6] == "bytes=";
    var comma := 6 + |first|;
    assert h[comma] == ',';
    assert n[comma] == ',';
    assert n[6..][|first|] == ',';
    NoValidRangeServesWholeFile(Some(h), 0);
  }

  /** The unit token is case-insensitive: any spelling of `bytes=` that
      lower-cases to it ("Bytes=", "BYTES=", "bYtEs=") reads as `bytes=`,
      whatever follows it. */
  lemma CapitalisedUnit(unit: string, rest: string)
    requires Lower(unit) == "bytes="
    ensures ParseByteRange(Some(unit + rest)) == ParseByteRange(Some("bytes=" + rest))
  {
    var h1, h2 := unit + rest, "bytes=" + rest;
    forall k | 0 <= k < 6
      ensures LowerChar(h1[k]) == h2[k] == LowerChar(h2[k]) && h1[k] != ';' && h2[k] != ';'
    {
      assert h1[k] == unit[k] && h2[k] == "bytes="[k];
      assert Lower(unit)[k] == LowerChar(unit[k]);
      LowerCharFixesSemicolon(unit[k]);
    }
    forall k | 6 <= k < |h1|
      ensures h1[k] == h2[k]
    {
    }
    PrefixEndAgrees(h1, h2);
    var n1, n2 := NormalizeHeaderValue(h1), NormalizeHeaderValue(h2);
    forall k | 0 <= k < |h1|
      ensures n1[k] == n2[k]
    {
    }
    assert n1 == n2;
  }

  /** Parsing sees only the normalised header: normalising first changes
      nothing. */
  lemma ParseSeesNormalisedHeader(header: string)
    ensures ParseByteRange(Some(header)) == ParseByteRange(Some(NormalizeHeaderValue(header)))
  {
    NormalizeIdempotent(header);
  }

  /** Two headers without `;` that differ only in the case of their letters
      parse alike. */
  lemma LetterCaseIgnored(h1: string, h2: string)
    requires ';' !in h1 && ';' !in h2 && Lower(h1) == Lower(h2)
    ensures ParseByteRange(Some(h1)) == ParseByteRange(Some(h2))
  {
    NormalizeLowersOnlyBeforeSemicolon(h1);
    NormalizeLowersOnlyBeforeSemicolon(h2);
  }

  /** Closed range "a-b" with a <= b: location a, length b - a + 1. Once
      resolved, it is served from a up to the last byte min(b, fileSize - 1),
      or is unsatisfiable when a is past the end. */
  lemma ClosedRange(a: nat, b: nat, fileSize: UInt64)
    requires a <= b <= IntMax
    ensures var h := Some("bytes=" + NatToString(a) + "-" + NatToString(b));
      && ParseByteRange(h) == ByteRange(a, b - a + 1)
      && var d := Resolve(ParseByteRange(h), fileSize);
      && (d.Unsatisfiable? <==> fileSize <= a)
      && (a < fileSize ==>
            d.Partial? && d.range.location == a &&
            d.range.location + d.range.length - 1 == Min(b, fileSize - 1))
  {
    var x, y := NatToString(a), NatToString(b);
    ClosedRangeParses(x, y, a, b);
    ResolveClosed(a, b, fileSize);
  }

  lemma ClosedRangeParses(x: string, y: string, a: nat, b: nat)
    requires a <= b <= IntMax && x == NatToString(a) && y == NatToString(b)
    ensures ParseByteRange(Some("bytes=" + x + "-" + y)) == ByteRange(a, b - a + 1)
    ensures ParseByteRange(Some("bytes=" + (x + "-" + y))) == ByteRange(a, b - a + 1)
  {
    RangeHeaderParts(x, y);
    assert "bytes=" + (x + "-" + y) == "bytes=" + x + "-" + y;
    IntegerValueOfNatToString(a);
    IntegerValueOfNatToString(b);
    assert RangeOfParts(x, y) == ByteRange(a, b - a + 1);
  }

  lemma ResolveClosed(a: nat, b: nat, fileSize: UInt64)
    requires a <= b <= IntMax
    ensures var d := Resolve(ByteRange(a, b - a + 1), fileSize);
      && (d.Unsatisfiable? <==> fileSize <= a)
      && (a < fileSize ==>
            d.Partial? && d.range.location == a &&
            d.range.location + d.range.length - 1 == Min(b, fileSize - 1))
  {
  }

  /** Open range "a-": location a, length NSUIntegerMax; once clamped its
      length is fileSize - min(a, fileSize), and a zero length is
      unsatisfiable. */
  lemma OpenRange(a: nat, fileSize: UInt64)
    requires a <= IntMax
    ensures var h := Some("bytes=" + NatToString(a) + "-");
      && ParseByteRange(h) == ByteRange(a, UIntMax)
      && var d := Resolve(ParseByteRange(h), fileSize);
      && var n := fileSize - Min(a, fileSize);
      && (n == 0 ==> d == Unsatisfiable)
      && (n > 0 ==> d == Partial(ByteRange(a, n)))
  {
    var x := NatToString(a);
    RangeHeaderParts(x, "");
    assert x + "-" + "" == x + "-";
    assert "bytes=" + x + "-" + "" == "bytes=" + x + "-";
    IntegerValueOfNatToString(a);
    assert ParseByteRange(Some("bytes=" + x + "-")) == ByteRange(a, UIntMax);
    ResolveOpen(a, fileSize);
  }

  lemma ResolveOpen(a: nat, fileSize: UInt64)
    requires a <= IntMax
    ensures var d := Resolve(ByteRange(a, UIntMax), fileSize);
      && var n := fileSize - Min(a, fileSize);
      && (n == 0 ==> d == Unsatisfiable)
      && (n > 0 ==> d == Partial(ByteRange(a, n)))
  {
  }

  /** Suffix range "-n" with n > 0: location NSUIntegerMax, length n; once
      clamped it is the final min(n, fileSize) bytes, ending exactly at the end
      of the file, and unsatisfiable only for an empty file. */
  lemma SuffixRange(n: nat, fileSize: UInt64)
    requires 0 < n <= IntMax
    ensures var h := Some("bytes=-" + NatToString(n));
      && ParseByteRange(h) == ByteRange(UIntMax, n)
      && var d := Resolve(ParseByteRange(h), fileSize);
      && (fileSize == 0 ==> d == Unsatisfiable)
      && (fileSize > 0 ==> d == Partial(ByteRange(fileSize - Min(n, fileSize), Min(n, fileSize))))
      && (d.Partial? ==> d.range.location + d.range.length == fileSize)
  {
    var y := NatToString(n);
    RangeHeaderParts("", y);
    assert "" + "-" + y == "-" + y;
    assert "bytes=" + "" + "-" + y == "bytes=-" + y;
    IntegerValueOfNatToString(n);
    assert ParseByteRange(Some("bytes=-" + y)) == ByteRange(UIntMax, n);
    ResolveSuffix(n, fileSize);
  }

  lemma ResolveSuffix(n: nat, fileSize: UInt64)
    requires 0 < n <= IntMax
    ensures var d := Resolve(ByteRange(UIntMax, n), fileSize);
      && (fileSize == 0 ==> d == Unsatisfiable)
      && (fileSize > 0 ==> d == Partial(ByteRange(fileSize - Min(n, fileSize), Min(n, fileSize))))
      && (d.Partial? ==> d.range.location + d.range.length == fileSize)
  {
  }

  /** Where the reference departs from section 2.1 of RFC 7233, which calls
      "a-b" with b < a invalid (so the header would be ignored): the parse
      falls through to the open-range branch and serves from a to the end. */
  lemma DescendingRangeReadsAsOpen(a: nat, b: nat)
    requires b < a <= IntMax
    ensures ParseByteRange(Some("bytes=" + NatToString(a) + "-" + NatToString(b))) == ByteRange(a, UIntMax)
  {
    RangeHeaderParts(NatToString(a), NatToString(b));
    IntegerValueOfNatToString(a);
    IntegerValueOfNatToString(b);
  }

  /** Whatever the header, a served byte range is non-empty and lies inside
      the file, and an unsatisfiable answer only comes from a usable range. */
  lemma ResolvedRangeWithinFile(header: Option<string>, fileSize: UInt64)
    ensures var d := Resolve(ParseByteRange(header), fileSize);
      && (d.Partial? ==>
            0 < d.range.length && d.range.location < fileSize &&
            d.range.location + d.range.length <= fileSize)
      && (d.Unsatisfiable? ==> IsValidByteRange(ParseByteRange(header)))
      && (d.Whole? ==> d.range == ByteRange(0, fileSize))
  {
  }
}

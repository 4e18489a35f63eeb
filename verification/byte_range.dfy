/**
 * The single-range `Range` header of a file request: the recogniser for the pattern
 * `^bytes=(0|[1-9]\d*)-((0|[1-9]\d*)?)$`, the conversion of its two groups to `long`s,
 * the order check, and the store read a validated range turns into.
 * This is the one-range subset of the byte-range-spec of section 2.1 of RFC 7233:
 * no suffix ranges and no lists of ranges.
 */
module ByteRange {
  import opened Wrappers
  import opened Numerals
  import opened Store

  const RangePatternRegexp: string := "^bytes=(0|[1-9]\\d*)-((0|[1-9]\\d*)?)$"
  const RangePrefix: string := "bytes="

  /** The two capture groups of a match: the start digits and the end digits, empty when absent. */
  datatype Groups = Groups(start: string, end: string)

  /** The position of the first `-` in `t`, or `|t|` when there is none. */
  function IndexOfDash(t: string): (i: nat)
    ensures i <= |t|
    ensures forall j :: 0 <= j < i ==> t[j] != '-'
    ensures i < |t| ==> t[i] == '-'
  {
    if |t| == 0 || t[0] == '-' then 0 else 1 + IndexOfDash(t[1..])
  }

  /**
   * Whole-input matching of the range pattern (Java's `Matcher.matches`, where `\d` is an
   * ASCII digit). The digits of the first group cannot contain `-`, so the first `-` after
   * the prefix separates the groups.
   */
  function MatchRange(h: string): (g: Option<Groups>)
    ensures g.Some? ==> IsCanonical(g.value.start) && (g.value.end == [] || IsCanonical(g.value.end))
    ensures g.Some? ==> h == RangePrefix + g.value.start + "-" + g.value.end
  {
    if |h| < |RangePrefix| || h[..|RangePrefix|] != RangePrefix then None
    else
      var t := h[|RangePrefix|..];
      var i := IndexOfDash(t);
      if i == |t| then None
      else
        var s, e := t[..i], t[i + 1..];
        if IsCanonical(s) && (e == [] || IsCanonical(e)) then
          assert h == RangePrefix + s + "-" + e by {
            assert t == s + "-" + e;
            assert h == h[..|RangePrefix|] + t;
          }
          Some(Groups(s, e))
        else None
  }

  /** The recogniser accepts every header built from the pattern's pieces, and splits it back into them. */
  lemma MatchRangeComplete(s: string, e: string)
    requires IsCanonical(s) && (e == [] || IsCanonical(e))
    ensures MatchRange(RangePrefix + s + "-" + e) == Some(Groups(s, e))
  {
    var h := RangePrefix + s + "-" + e;
    assert h[..|RangePrefix|] == RangePrefix;
    var t := h[|RangePrefix|..];
    assert t == s + "-" + e;
    var i := IndexOfDash(t);
    assert t[|s|] == '-';
    assert t[..i] == s && t[i + 1..] == e;
  }

  /** A validated range: inclusive start, and an inclusive end unless the range is open-ended. */
  datatype RangeSpec = RangeSpec(start: int, end: Option<int>) {
    predicate Valid() {
      0 <= start <= LongMax && (end.Some? ==> start <= end.value <= LongMax)
    }
  }

  /** Why a header was refused; the three messages of the source's `BadRangeRequestException`. */
  datatype Reason =
    | NoMatch
    | NotALong(element: string)
    | EndBeforeStart(path: string)

  /** A refused range request: the reason and the raw header, which the exception carries. */
  datatype BadRangeRequest = BadRangeRequest(reason: Reason, header: string) {
    function Message(): string {
      match reason
      case NoMatch => "Byte range header does not match " + RangePatternRegexp
      case NotALong(element) => "Could not parse range element '" + element + "' to long."
      case EndBeforeStart(path) => "Range end is before range start for path [" + path + "]"
    }
  }

  /**
   * Validation of the `Range` header of a request for descriptor `d`: the pattern, then the
   * start as a `long`, then (when present) the end as a `long` and the order of the two.
   */
  function ParseRange(d: Descriptor, h: string): (r: Result<RangeSpec, BadRangeRequest>)
    ensures r.Success? ==> r.value.Valid()
    ensures r.Failure? ==> r.error.header == h
    ensures r.Failure? && r.error.reason.EndBeforeStart? ==> r.error.reason.path == Path(d)
    ensures (r.Failure? && r.error.reason == NoMatch) <==> MatchRange(h).None?
    ensures r.Failure? && r.error.reason.NotALong?
        ==> IsCanonical(r.error.reason.element) && DecimalValue(r.error.reason.element) > LongMax
  {
    match MatchRange(h)
    case None => Failure(BadRangeRequest(NoMatch, h))
    case Some(g) =>
      match ParseLong(g.start)
      case None => Failure(BadRangeRequest(NotALong(g.start), h))
      case Some(start) =>
        if g.end == [] then Success(RangeSpec(start, None))
        else
          match ParseLong(g.end)
          case None => Failure(BadRangeRequest(NotALong(g.end), h))
          case Some(end) =>
            if end < start then Failure(BadRangeRequest(EndBeforeStart(Path(d)), h))
            else Success(RangeSpec(start, Some(end)))
  }

  /** The header a client sends for a range: `bytes=<start>-<end>`, with `<end>` empty when open. */
  function Render(r: RangeSpec): string
    requires r.Valid()
  {
    RangePrefix + Decimal(r.start) + "-" + (if r.end.Some? then Decimal(r.end.value) else "")
  }

  /** Every valid range, written as a header, parses back to itself. */
  lemma ParseRangeRoundTrip(d: Descriptor, r: RangeSpec)
    requires r.Valid()
    ensures ParseRange(d, Render(r)) == Success(r)
  {
    var e := if r.end.Some? then Decimal(r.end.value) else "";
    MatchRangeComplete(Decimal(r.start), e);
    ParseLongDecimal(r.start);
    if r.end.Some? {
      ParseLongDecimal(r.end.value);
    }
  }

  /** Every accepted header is exactly the rendering of the range it parses to. */
  lemma ParseRangeAcceptsOnlyRendered(d: Descriptor, h: string)
    requires ParseRange(d, h).Success?
    ensures Render(ParseRange(d, h).value) == h
  {
    var g := MatchRange(h).value;
    if g.end != [] {
      assert Decimal(ParseLong(g.end).value) == g.end;
    }
  }

  /** A start above `Long.MAX_VALUE` is refused as an unparsable element, whatever the end. */
  lemma StartOverflowRejected(d: Descriptor, s: string, e: string)
    requires IsCanonical(s) && DecimalValue(s) > LongMax
    requires e == [] || IsCanonical(e)
    ensures ParseRange(d, RangePrefix + s + "-" + e) == Failure(BadRangeRequest(NotALong(s), RangePrefix + s + "-" + e))
  {
    MatchRangeComplete(s, e);
  }

  /** An end above `Long.MAX_VALUE` after a valid start is refused as an unparsable element. */
  lemma EndOverflowRejected(d: Descriptor, start: nat, e: string)
    requires start <= LongMax
    requires IsCanonical(e) && DecimalValue(e) > LongMax
    ensures ParseRange(d, RangePrefix + Decimal(start) + "-" + e)
         == Failure(BadRangeRequest(NotALong(e), RangePrefix + Decimal(start) + "-" + e))
  {
    MatchRangeComplete(Decimal(start), e);
    ParseLongDecimal(start);
  }

  /** Well-formed bounds with the end before the start are refused with the descriptor's path. */
  lemma InvertedRangeRejected(d: Descriptor, start: nat, end: nat)
    requires end < start <= LongMax
    ensures ParseRange(d, RangePrefix + Decimal(start) + "-" + Decimal(end))
         == Failure(BadRangeRequest(EndBeforeStart(Path(d)), RangePrefix + Decimal(start) + "-" + Decimal(end)))
  {
    MatchRangeComplete(Decimal(start), Decimal(end));
    ParseLongDecimal(start);
    ParseLongDecimal(end);
  }

  /**
   * An order refusal arises only from two numerals that are both `long`s, the end smaller
   * than the start: a malformed header or an overflowing element never yields it.
   */
  lemma EndBeforeStartOnlyForInverted(d: Descriptor, h: string)
    requires ParseRange(d, h).Failure? && ParseRange(d, h).error.reason.EndBeforeStart?
    ensures exists start: nat, end: nat :: end < start <= LongMax && h == RangePrefix + Decimal(start) + "-" + Decimal(end)
  {
    var g := MatchRange(h).value;
    var start := ParseLong(g.start).value;
    var end := ParseLong(g.end).value;
    assert Decimal(start) == g.start && Decimal(end) == g.end;
    assert end < start <= LongMax && h == RangePrefix + Decimal(start) + "-" + Decimal(end);
  }

  /** The message of an order refusal names the descriptor's storage path. */
  lemma InvertedRangeMessage(d: Descriptor, start: nat, end: nat)
    requires end < start <= LongMax
    ensures ParseRange(d, RangePrefix + Decimal(start) + "-" + Decimal(end)).Failure?
    ensures ParseRange(d, RangePrefix + Decimal(start) + "-" + Decimal(end)).error.Message()
         == "Range end is before range start for path [" + Path(d) + "]"
  {
    InvertedRangeRejected(d, start, end);
  }

  /** The message of a header that does not match quotes the pattern. */
  lemma NoMatchMessage(d: Descriptor, h: string)
    requires MatchRange(h).None?
    ensures ParseRange(d, h).Failure?
    ensures ParseRange(d, h).error.Message() == "Byte range header does not match " + RangePatternRegexp
  {
  }

  /** The message of an overflowing start quotes that element. */
  lemma StartOverflowMessage(d: Descriptor, s: string, e: string)
    requires IsCanonical(s) && DecimalValue(s) > LongMax
    requires e == [] || IsCanonical(e)
    ensures ParseRange(d, RangePrefix + s + "-" + e).Failure?
    ensures ParseRange(d, RangePrefix + s + "-" + e).error.Message() == "Could not parse range element '" + s + "' to long."
  {
    StartOverflowRejected(d, s, e);
  }

  /** A header without the `-` is refused: `bytes=5`. */
  lemma MissingDashRejected(d: Descriptor)
    ensures ParseRange(d, "bytes=5") == Failure(BadRangeRequest(NoMatch, "bytes=5"))
  {
    assert "bytes=5"[..6] == RangePrefix;
    assert "bytes=5"[6..] == "5";
  }

  /** A suffix range is refused: `bytes=-5`. */
  lemma SuffixRangeRejected(d: Descriptor)
    ensures ParseRange(d, "bytes=-5") == Failure(BadRangeRequest(NoMatch, "bytes=-5"))
  {
    assert "bytes=-5"[..6] == RangePrefix;
    assert "bytes=-5"[6..] == "-5";
  }

  /** A start with a leading zero is refused: `bytes=01-2`. */
  lemma LeadingZeroRejected(d: Descriptor)
    ensures ParseRange(d, "bytes=01-2") == Failure(BadRangeRequest(NoMatch, "bytes=01-2"))
  {
    assert "bytes=01-2"[..6] == RangePrefix;
    assert "bytes=01-2"[6..] == "01-2";
  }

  /** A list of ranges is refused: `bytes=1,2-3`. */
  lemma RangeListRejected(d: Descriptor)
    ensures ParseRange(d, "bytes=1,2-3") == Failure(BadRangeRequest(NoMatch, "bytes=1,2-3"))
  {
    assert "bytes=1,2-3"[..6] == RangePrefix;
    assert "bytes=1,2-3"[6..] == "1,2-3";
    assert !IsDigit("1,2-3"[1]);
  }

  /**
   * The window length as the source computes it, `intervalEnd - intervalStart + 1` in
   * Java `long` arithmetic, where each operation wraps around.
   */
  function WindowLengthAsWritten(start: Long, end: Long): Long {
    Wrap(Wrap(end - start) + 1)
  }

  /** For the widest range, `bytes=0-9223372036854775807`, the computed length wraps to `Long.MIN_VALUE`. */
  lemma WindowLengthAsWrittenWraps()
    ensures WindowLengthAsWritten(0, LongMax) == LongMin
  {
  }

  /** For every other valid range the source's length is the exact inclusive length. */
  lemma WindowLengthAsWrittenOtherwiseExact(start: Long, end: Long)
    requires 0 <= start <= end
    requires start > 0 || end < LongMax
    ensures WindowLengthAsWritten(start, end) == end - start + 1
  {
  }

  /** The read the source asks for: the window length is the wrapping `WindowLengthAsWritten`. */
  function RequestForAsWritten(d: Descriptor, r: RangeSpec): (q: StoreRequest)
    requires r.Valid()
    ensures q.d == d && !q.ReadWhole? && q.offset == r.start
    ensures q.ReadFrom? <==> r.end.None?
    ensures q.ReadWindow? ==> (q.length - (r.end.value - r.start + 1)) % LongModulus == 0
    ensures q.ReadWindow? ==> (q.length < 1 <==> r == RangeSpec(0, Some(LongMax)))
  {
    match r.end
    case None => ReadFrom(d, r.start)
    case Some(end) => ReadWindow(d, r.start, WindowLengthAsWritten(r.start, end))
  }

  /** For the widest range the source asks the store for a window of length `Long.MIN_VALUE`. */
  lemma WidestRangeReadAsWritten(d: Descriptor)
    ensures ParseRange(d, Render(RangeSpec(0, Some(LongMax)))) == Success(RangeSpec(0, Some(LongMax)))
    ensures RequestForAsWritten(d, RangeSpec(0, Some(LongMax))) == ReadWindow(d, 0, LongMin)
  {
    ParseRangeRoundTrip(d, RangeSpec(0, Some(LongMax)));
    WindowLengthAsWrittenWraps();
  }

  /** For every other valid range the source's read is the corrected one. */
  lemma RequestForAsWrittenOtherwiseAgrees(d: Descriptor, r: RangeSpec)
    requires r.Valid() && r != RangeSpec(0, Some(LongMax))
    ensures RequestForAsWritten(d, r) == RequestFor(d, r)
  {
    if r.end.Some? {
      WindowLengthAsWrittenOtherwiseExact(r.start, r.end.value);
    }
  }

  function Min(a: int, b: int): int {
    if a < b then a else b
  }

  /**
   * The window length, corrected: the inclusive length `end - start + 1` when it fits a
   * `long`, otherwise `Long.MAX_VALUE`. Since no stored file is longer than `Long.MAX_VALUE`
   * bytes, the window then still selects every byte of the requested range.
   */
  function WindowLength(start: Long, end: Long): (n: Long)
    requires 0 <= start <= end
    ensures 1 <= n
    ensures end - start + 1 <= LongMax ==> n == end - start + 1
    ensures Min(start + n, LongMax) == Min(end + 1, LongMax)
  {
    if end - start + 1 <= LongMax then end - start + 1 else LongMax
  }

  /**
   * The read a validated range becomes: from the start to the end of the file when the
   * range is open, else the window of the range's length starting at its start.
   */
  function RequestFor(d: Descriptor, r: RangeSpec): (q: StoreRequest)
    requires r.Valid()
    ensures q.d == d && !q.ReadWhole? && q.offset == r.start
    ensures q.ReadFrom? <==> r.end.None?
    ensures q.ReadWindow? ==> 1 <= q.length && Min(q.offset + q.length, LongMax) == Min(r.end.value + 1, LongMax)
    ensures q.ReadWindow? && r.end.value - r.start + 1 <= LongMax ==> q.length == r.end.value - r.start + 1
  {
    match r.end
    case None => ReadFrom(d, r.start)
    case Some(end) => ReadWindow(d, r.start, WindowLength(r.start, end))
  }

  /** Every header that renders a valid range parses to that range. */
  lemma RenderedHeadersParse(d: Descriptor, h: string)
    ensures forall spec: RangeSpec | spec.Valid() && h == Render(spec) :: ParseRange(d, h) == Success(spec)
  {
    forall spec: RangeSpec | spec.Valid() && h == Render(spec)
      ensures ParseRange(d, h) == Success(spec)
    {
      ParseRangeRoundTrip(d, spec);
    }
  }

  /**
   * The read a `Range` header leads to, or why the header was refused: a header that
   * renders a valid range reads that range, and no other header reads anything.
   */
  function RangeRequest(d: Descriptor, h: string): (r: Result<StoreRequest, BadRangeRequest>)
    ensures forall spec: RangeSpec | spec.Valid() && h == Render(spec) :: r == Success(RequestFor(d, spec))
    ensures r.Success? ==> exists spec: RangeSpec :: spec.Valid() && h == Render(spec) && r.value == RequestFor(d, spec)
    ensures r.Failure? ==> r.error.header == h
  {
    RenderedHeadersParse(d, h);
    match ParseRange(d, h)
    case Failure(e) => Failure(e)
    case Success(spec) =>
      ParseRangeAcceptsOnlyRendered(d, h);
      Success(RequestFor(d, spec))
  }
}

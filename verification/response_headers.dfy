/**
 * The response headers of a file delivery: `Content-Type` and `Content-Disposition` for
 * every delivery, and `Accept-Ranges`, `Content-Range` and `Content-Length` for a ranged one.
 */
module ResponseHeaders {
  import opened Wrappers
  import opened Numerals
  import opened Store

  /** The media type of RPM packages, which are offered as attachments. */
  const RpmMediaType: string := "application/x-rpm"

  /** The headers the controller sets; `None` is a header it leaves unset. */
  datatype Headers = Headers(
    acceptRanges: Option<string>,
    contentRange: Option<string>,
    contentLength: Option<int>,
    contentType: Option<string>,
    contentDisposition: Option<string>)

  const NoHeaders: Headers := Headers(None, None, None, None, None)

  /**
   * Java's `Character.isWhitespace` as in Java 7 and 8 (Unicode 6.0 to 6.2): the ASCII
   * separators and the Unicode space, line and paragraph separators other than the no-break
   * spaces. Those versions still class U+180E MONGOLIAN VOWEL SEPARATOR as a space separator.
   */
  predicate IsJavaWhitespace(c: char) {
    || c == ' ' || (0x09 <= c as int <= 0x0D) || (0x1C <= c as int <= 0x1F)
    || c as int == 0x1680 || c as int == 0x180E || (0x2000 <= c as int <= 0x2006) || (0x2008 <= c as int <= 0x200A)
    || c as int == 0x2028 || c as int == 0x2029 || c as int == 0x205F || c as int == 0x3000
  }

  /** `StringUtils.isNotBlank`: present and holding a character that is not whitespace. */
  predicate IsNotBlank(s: Option<string>) {
    s.Some? && exists k :: 0 <= k < |s.value| && !IsJavaWhitespace(s.value[k])
  }

  /** `p` with its trailing `/` characters removed. */
  function StripTrailingSlashes(p: string): (r: string)
    ensures r <= p
    ensures r == [] || r[|r| - 1] != '/'
    ensures forall k :: |r| <= k < |p| ==> p[k] == '/'
  {
    if |p| > 0 && p[|p| - 1] == '/' then StripTrailingSlashes(p[..|p| - 1]) else p
  }

  /** The part of `p` after its last `/`, or all of `p` when it has none. */
  function LastSegment(p: string): (r: string)
    ensures '/' !in r
    ensures |r| <= |p| && r == p[|p| - |r|..]
    ensures |r| < |p| ==> p[|p| - |r| - 1] == '/'
  {
    if |p| == 0 || p[|p| - 1] == '/' then [] else LastSegment(p[..|p| - 1]) + [p[|p| - 1]]
  }

  /**
   * `new File(p).getName()` with `/` as separator: the path is normalised (repeated and
   * trailing separators dropped) and the name is what follows its last separator.
   */
  function BaseName(p: string): (r: string)
    ensures '/' !in r
    ensures '/' !in p ==> r == p
  {
    LastSegment(StripTrailingSlashes(p))
  }

  /** The file name of a path is its last segment, whatever directory precedes it and however many separators follow. */
  lemma BaseNameOfPath(dir: string, name: string, trailing: nat)
    requires |name| > 0 && '/' !in name
    ensures BaseName(dir + "/" + name + seq(trailing, _ => '/')) == name
  {
    var slashes := seq(trailing, _ => '/');
    var p := dir + "/" + name + slashes;
    var stripped := StripTrailingSlashes(p);
    StrippedLength(dir + "/" + name, slashes);
    assert stripped == dir + "/" + name;
    LastSegmentAfterSlash(dir, name);
  }

  /** A bare file name, followed by any number of separators, is its own file name. */
  lemma BaseNameWithoutDirectory(name: string, trailing: nat)
    requires |name| > 0 && '/' !in name
    ensures BaseName(name + seq(trailing, _ => '/')) == name
  {
    StrippedLength(name, seq(trailing, _ => '/'));
    assert BaseName(name) == name;
  }

  /** A path made only of separators (the root) has the empty file name. */
  lemma {:induction false} BaseNameOfSlashesOnly(n: nat)
    ensures BaseName(seq(n, _ => '/')) == ""
  {
    StripAllSlashes(n);
  }

  /** Removing trailing separators from a run of separators leaves nothing. */
  lemma {:induction false} StripAllSlashes(n: nat)
    ensures StripTrailingSlashes(seq(n, _ => '/')) == ""
  {
    if n > 0 {
      var p := seq(n, _ => '/');
      assert p[..n - 1] == seq(n - 1, _ => '/');
      StripAllSlashes(n - 1);
    }
  }

  /** Removing trailing separators from `q + slashes`, where `q` does not end in one, gives `q`. */
  lemma {:induction false} StrippedLength(q: string, slashes: string)
    requires |q| > 0 && q[|q| - 1] != '/'
    requires forall k :: 0 <= k < |slashes| ==> slashes[k] == '/'
    ensures StripTrailingSlashes(q + slashes) == q
    decreases |slashes|
  {
    if |slashes| > 0 {
      var shorter := slashes[..|slashes| - 1];
      assert (q + slashes)[..|q + slashes| - 1] == q + shorter;
      StrippedLength(q, shorter);
    } else {
      assert q + slashes == q;
    }
  }

  /** The last segment of `dir/name` is `name` when `name` holds no separator. */
  lemma LastSegmentAfterSlash(dir: string, name: string)
    requires |name| > 0 && '/' !in name
    ensures LastSegment(dir + "/" + name) == name
  {
    var p := dir + "/" + name;
    var r := LastSegment(p);
    assert p[|p| - |name| - 1] == '/';
  }

  /** The disposition type: `attachment` for RPM packages, `inline` for anything else. */
  function DispositionType(contentType: Option<string>): string {
    if contentType == Some(RpmMediaType) then "attachment" else "inline"
  }

  /**
   * The headers every delivery adds (`withContentHeaders`): the resource's content type
   * unless it is blank, then the disposition, decided on the content type now in the
   * headers and naming the resource's file without its directories.
   */
  function ContentHeaders(h: Headers, res: Resource): (r: Headers)
    ensures r.acceptRanges == h.acceptRanges && r.contentRange == h.contentRange
    ensures r.contentLength == h.contentLength
    ensures r.contentType == (if IsNotBlank(res.contentType) then res.contentType else h.contentType)
    ensures r.contentDisposition.Some?
  {
    var contentType := if IsNotBlank(res.contentType) then res.contentType else h.contentType;
    h.(contentType := contentType,
       contentDisposition := Some(DispositionType(contentType) + "; filename=" + BaseName(res.filename)))
  }

  /**
   * On headers that carry no content type yet, the disposition is `attachment` exactly
   * when the resource's content type is the RPM media type, `inline` otherwise (blank and
   * absent content types included), and names the resource's file without its directories.
   */
  lemma AttachmentExactlyForRpm(h: Headers, res: Resource)
    requires h.contentType == None
    ensures res.contentType == Some(RpmMediaType)
        ==> ContentHeaders(h, res).contentDisposition.value == "attachment" + "; filename=" + BaseName(res.filename)
    ensures res.contentType != Some(RpmMediaType)
        ==> ContentHeaders(h, res).contentDisposition.value == "inline" + "; filename=" + BaseName(res.filename)
  {
    if res.contentType == Some(RpmMediaType) {
      assert !IsJavaWhitespace(RpmMediaType[0]);
    }
  }

  /** The content headers added to two header sets that agree on the content type agree on type and disposition. */
  lemma ContentHeadersFollowContentType(h1: Headers, h2: Headers, res: Resource)
    requires h1.contentType == h2.contentType
    ensures ContentHeaders(h1, res).contentType == ContentHeaders(h2, res).contentType
    ensures ContentHeaders(h1, res).contentDisposition == ContentHeaders(h2, res).contentDisposition
  {
  }

  /**
   * The `Content-Range` value the source writes: `bytes 0-<contentLength - 1>/<fileLength>`,
   * with the subtraction in `long` arithmetic and whatever offset the range started at.
   */
  function ContentRange(res: Resource): (r: string)
    ensures |r| > 8 && r[..8] == "bytes 0-"
    ensures res.contentLength == 0 && 0 <= res.fileLength ==> r == "bytes 0--1/" + Decimal(res.fileLength)
  {
    assert Wrap(-1) == -1 && LongToString(-1) == "-1" by {
      assert Decimal(1) == "1";
    }
    "bytes 0-" + LongToString(Wrap(res.contentLength - 1)) + "/" + LongToString(res.fileLength)
  }

  /**
   * For a resource with content, the value is the byte-content-range of section 4.2 of
   * RFC 7233 for the bytes `0` to `contentLength - 1` of a file of `fileLength` bytes.
   */
  lemma ContentRangeNamesLeadingBytes(res: Resource)
    requires 1 <= res.contentLength && 0 <= res.fileLength
    ensures ContentRange(res) == "bytes 0-" + Decimal(res.contentLength - 1) + "/" + Decimal(res.fileLength)
  {
    assert Wrap(res.contentLength - 1) == res.contentLength - 1;
    assert LongToString(res.contentLength - 1) == Decimal(res.contentLength - 1);
    assert LongToString(res.fileLength) == Decimal(res.fileLength);
  }

  /** The byte-content-range of section 4.2 of RFC 7233 for bytes `first` to `last` of a file of `total` bytes. */
  function StandardContentRange(first: nat, last: nat, total: nat): string {
    "bytes " + Decimal(first) + "-" + Decimal(last) + "/" + Decimal(total)
  }

  /**
   * The value the source writes for `n >= 1` delivered bytes is the standard value for the
   * bytes `start` to `start + n - 1` exactly when `start` is 0.
   */
  lemma StandardContentRangeFromZeroOnly(res: Resource, start: nat)
    requires 1 <= res.contentLength && 0 <= res.fileLength
    ensures ContentRange(res) == StandardContentRange(start, start + res.contentLength - 1, res.fileLength)
        <==> start == 0
  {
    ContentRangeNamesLeadingBytes(res);
    var standard := StandardContentRange(start, start + res.contentLength - 1, res.fileLength);
    if start == 0 {
      assert Decimal(0) == "0";
      assert standard == "bytes " + "0" + "-" + Decimal(res.contentLength - 1) + "/" + Decimal(res.fileLength);
    } else {
      assert Decimal(start)[0] != '0';
      assert standard[6] == Decimal(start)[0];
      assert ContentRange(res)[6] == '0';
    }
  }

  /** The headers of a ranged delivery (`rangeHeaders`), before the content headers are added. */
  function RangeHeaders(res: Resource): (r: Headers)
    ensures r.acceptRanges == Some("bytes")
    ensures r.contentRange.Some? && "bytes 0-" <= r.contentRange.value
    ensures r.contentLength == Some(res.contentLength as int)
    ensures r.contentType == None && r.contentDisposition == None
  {
    NoHeaders.(acceptRanges := Some("bytes"), contentRange := Some(ContentRange(res)), contentLength := Some(res.contentLength as int))
  }
}

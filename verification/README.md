# Byte-range delivery of the yum repository server's file controller

This project models the file controller of the GridFS-backed yum repository server.
The controller delivers repository files whole or as a single HTTP byte range, and it deletes RPM files idempotently.
The model covers four pieces of the controller:

- the recogniser for the `Range` header pattern `^bytes=(0|[1-9]\d*)-((0|[1-9]\d*)?)$`, which is the one-range subset of the byte-range-spec of section 2.1 of RFC 7233;
- the conversion of both numbers to Java `long`s, with overflow refused;
- the end-before-start check, and the store read a validated range turns into;
- the response headers (`Content-Type`, `Content-Disposition`, `Accept-Ranges`, `Content-Range`, `Content-Length`), and deletion that swallows "not found".

Modules, one per concern:

- `Wrappers`: `Option` and `Result`.
- `Numerals`: Java `long` wrap-around, decimal numerals, `Long.parseLong` (a reference function and the JDK's accumulation loop), `Long.toString`.
- `Store`: the descriptor, the bounded resource, the three reads the controller can ask for, and the delete outcome. The store itself is a function parameter.
- `ByteRange`: the pattern recogniser, `ParseRange`, the window length, and the store request.
- `ResponseHeaders`: `withContentHeaders`, `rangeHeaders`, and `java.io.File.getName`.
- `FileController`: `deliverFile`, `deliverRangeOfFile` and `deleteFile`.

`ResponseHeaders.IsNotBlank` follows commons-lang `StringUtils.isNotBlank`, with whitespace as Java 7 and 8 `Character.isWhitespace` defines it (Unicode 6.0 to 6.2).
Monitoring counters become a returned `Counter` tag. Exceptions become `Failure` values.
The three `BadRangeRequestException`s are told apart by a `Reason`: the pattern did not match, a number is not a `long`, or the end is before the start. Each carries the raw header.

## Content-Range and error kinds

The model follows the code in both of these places.

- Content-Range: section 4.2 of RFC 7233 requires `Content-Range: bytes <first>-<last>/<total>`, where `<first>` is the first byte sent. Line 157 always writes `bytes 0-<length-1>/<total>`, whatever the requested start. For `bytes=500-` on a 1000-byte file the answer is therefore `bytes 0-499/1000`. An empty delivery gets `bytes 0--1/<total>`, since the `long` subtraction `0 - 1` is written as is (`ResponseHeaders.ContentRange`). `FileController.RangedContentRangeIgnoresStart`, together with `FileController.PartialContentFor`, proves the header is the standard one exactly when the range starts at 0.
- Error kinds: the controller throws one exception class, `BadRangeRequestException`, with three messages. The messages are at lines 98-100 (end before start), 114 (element not a `long`) and 131 (pattern not matched). The model keeps the three apart as the `Reason` of a `BadRangeRequest`. `ByteRange.ParseRange`, `ByteRange.EndBeforeStartOnlyForInverted` and the three message lemmas show which inputs lead to which message.

## Model

| member | source | states |
|---|---|---|
| Numerals.Wrap | src/main/java/de/is24/infrastructure/gridfs/http/web/controller/FileController.java:102 | Java `long` arithmetic: the result equals the exact value when that is a `long`, and is congruent to it modulo 2^64 |
| Numerals.Decimal | src/main/java/de/is24/infrastructure/gridfs/http/web/controller/FileController.java:157 | the numeral written for a non-negative number is canonical (no leading zero) and reads back as that number |
| Numerals.LongToString | src/main/java/de/is24/infrastructure/gridfs/http/web/controller/FileController.java:157 | `Long.toString` writes a canonical numeral for non-negative values, and a minus sign before the magnitude's numeral for negative ones |
| Numerals.CanonicalIsDecimal | src/main/java/de/is24/infrastructure/gridfs/http/web/controller/FileController.java:49 | every digit string the `(0\|[1-9]\d*)` group accepts is the rendering of its own value, so the numerals accepted are exactly the decimals of naturals |
| Numerals.ParseLong | src/main/java/de/is24/infrastructure/gridfs/http/web/controller/FileController.java:110-116 | a parsed element is a non-negative `long` equal to the value of its digits; for a canonical element, rendering the result gives back the element |
| Numerals.ParseLongLoop | src/main/java/de/is24/infrastructure/gridfs/http/web/controller/FileController.java:110-116 | the JDK's negative-accumulation loop, with its overflow tests before each multiply and subtract, returns exactly the reference parse: the value when it fits, else failure |
| Numerals.ParseLongDecimal | src/main/java/de/is24/infrastructure/gridfs/http/web/controller/FileController.java:110-116 | every `long` written in decimal parses back to itself |
| Numerals.ParseLongOverflow | src/main/java/de/is24/infrastructure/gridfs/http/web/controller/FileController.java:110-116 | a numeral above `Long.MAX_VALUE` is refused, never wrapped |
| ByteRange.MatchRange | src/main/java/de/is24/infrastructure/gridfs/http/web/controller/FileController.java:128-134 | a matched header is exactly `bytes=` + start group + `-` + end group, with a canonical start and an empty or canonical end |
| ByteRange.MatchRangeComplete | src/main/java/de/is24/infrastructure/gridfs/http/web/controller/FileController.java:49 | every header built from a canonical start and an empty or canonical end matches, and splits back into exactly those groups |
| ByteRange.ParseRange | src/main/java/de/is24/infrastructure/gridfs/http/web/controller/FileController.java:85-101 | an accepted range has 0 <= start <= end <= `Long.MAX_VALUE`; every refusal carries the raw header; a header is refused for the pattern exactly when it does not match; an order refusal names the descriptor's path; an unparsable element is a canonical numeral above `Long.MAX_VALUE` |
| ByteRange.EndBeforeStartOnlyForInverted | src/main/java/de/is24/infrastructure/gridfs/http/web/controller/FileController.java:96-101 | an order refusal arises only from a header naming two `long`s with the end below the start |
| ByteRange.InvertedRangeMessage | src/main/java/de/is24/infrastructure/gridfs/http/web/controller/FileController.java:97-101 | the order refusal's message is `Range end is before range start for path [<path>]` with the descriptor's path |
| ByteRange.NoMatchMessage | src/main/java/de/is24/infrastructure/gridfs/http/web/controller/FileController.java:128-134 | a header that does not match is refused with the message `Byte range header does not match ` followed by the pattern |
| ByteRange.StartOverflowMessage | src/main/java/de/is24/infrastructure/gridfs/http/web/controller/FileController.java:110-116 | an overflowing start is refused with the message `Could not parse range element '<start>' to long.` |
| ByteRange.ParseRangeRoundTrip | src/main/java/de/is24/infrastructure/gridfs/http/web/controller/FileController.java:86-96 | for 0 <= s <= e <= 2^63-1, `bytes=s-e` parses to start s and end e, and `bytes=s-` parses to start s with no end |
| ByteRange.ParseRangeAcceptsOnlyRendered | src/main/java/de/is24/infrastructure/gridfs/http/web/controller/FileController.java:86-96 | any header that is accepted is character for character the rendering of the range it parses to |
| ByteRange.StartOverflowRejected | src/main/java/de/is24/infrastructure/gridfs/http/web/controller/FileController.java:90 | a start numeral above `Long.MAX_VALUE` is refused as an unparsable element, whatever the end |
| ByteRange.EndOverflowRejected | src/main/java/de/is24/infrastructure/gridfs/http/web/controller/FileController.java:96 | after a valid start, an end numeral above `Long.MAX_VALUE` is refused as an unparsable element |
| ByteRange.InvertedRangeRejected | src/main/java/de/is24/infrastructure/gridfs/http/web/controller/FileController.java:97-101 | well-formed bounds with end < start are refused as "end before start", carrying the descriptor's path and the header |
| ByteRange.MissingDashRejected | src/main/java/de/is24/infrastructure/gridfs/http/web/controller/FileController.java:128-134 | `bytes=5` is refused as not matching the pattern |
| ByteRange.SuffixRangeRejected | src/main/java/de/is24/infrastructure/gridfs/http/web/controller/FileController.java:128-134 | the suffix range `bytes=-5` is refused as not matching the pattern |
| ByteRange.LeadingZeroRejected | src/main/java/de/is24/infrastructure/gridfs/http/web/controller/FileController.java:128-134 | `bytes=01-2` (a leading zero) is refused as not matching the pattern |
| ByteRange.RangeListRejected | src/main/java/de/is24/infrastructure/gridfs/http/web/controller/FileController.java:128-134 | the list `bytes=1,2-3` is refused as not matching the pattern |
| ByteRange.WindowLengthAsWrittenWraps | src/main/java/de/is24/infrastructure/gridfs/http/web/controller/FileController.java:102 | for `bytes=0-9223372036854775807` the source's `intervalEnd - intervalStart + 1` wraps to `Long.MIN_VALUE` |
| ByteRange.WindowLengthAsWrittenOtherwiseExact | src/main/java/de/is24/infrastructure/gridfs/http/web/controller/FileController.java:102 | for every other valid range, the source's length is the exact inclusive length |
| ByteRange.RequestForAsWritten | src/main/java/de/is24/infrastructure/gridfs/http/web/controller/FileController.java:93-103 | the read the source asks for starts at the range's start and is open-ended exactly when the range has no end; a window's length is congruent to `end - start + 1` modulo 2^64, and is below 1 exactly for `bytes=0-9223372036854775807` |
| ByteRange.WidestRangeReadAsWritten | src/main/java/de/is24/infrastructure/gridfs/http/web/controller/FileController.java:102 | `bytes=0-9223372036854775807` is accepted, and the source then asks the store for a window of length `Long.MIN_VALUE` |
| ByteRange.RequestForAsWrittenOtherwiseAgrees | src/main/java/de/is24/infrastructure/gridfs/http/web/controller/FileController.java:93-103 | for every other valid range, the read the source asks for is the corrected read |
| ByteRange.WindowLength | src/main/java/de/is24/infrastructure/gridfs/http/web/controller/FileController.java:102 | the corrected length is at least 1; it is `end - start + 1` whenever that fits a `long`; and the window selects the same bytes as the range in any file a `long` can measure |
| ByteRange.RequestFor | src/main/java/de/is24/infrastructure/gridfs/http/web/controller/FileController.java:93-103 | the read starts at the range's start; it is open-ended exactly when the range has no end; otherwise it is a window of length >= 1 covering the range |
| ByteRange.RenderedHeadersParse | src/main/java/de/is24/infrastructure/gridfs/http/web/controller/FileController.java:86-96 | a header that renders a valid range parses to exactly that range |
| ByteRange.RangeRequest | src/main/java/de/is24/infrastructure/gridfs/http/web/controller/FileController.java:85-103 | a header that renders a valid range leads to the read of that range; a header that leads to a read renders the range read; a refusal carries the raw header |
| ResponseHeaders.BaseName | src/main/java/de/is24/infrastructure/gridfs/http/web/controller/FileController.java:124 | the disposition's file name contains no `/`, and a name without `/` is kept as is |
| ResponseHeaders.BaseNameOfPath | src/main/java/de/is24/infrastructure/gridfs/http/web/controller/FileController.java:124 | the file name of `dir/name` followed by any number of `/` is `name` |
| ResponseHeaders.BaseNameWithoutDirectory | src/main/java/de/is24/infrastructure/gridfs/http/web/controller/FileController.java:124 | the file name of a bare `name` followed by any number of `/` is `name` |
| ResponseHeaders.BaseNameOfSlashesOnly | src/main/java/de/is24/infrastructure/gridfs/http/web/controller/FileController.java:124 | a path made only of `/` (the root) has the empty file name |
| ResponseHeaders.ContentHeaders | src/main/java/de/is24/infrastructure/gridfs/http/web/controller/FileController.java:118-126 | sets the resource's content type only when it is not blank, always sets a disposition, and leaves range and length headers untouched |
| ResponseHeaders.ContentHeadersFollowContentType | src/main/java/de/is24/infrastructure/gridfs/http/web/controller/FileController.java:118-126 | content type and disposition depend only on the resource and the content type already set, not on the other headers |
| ResponseHeaders.AttachmentExactlyForRpm | src/main/java/de/is24/infrastructure/gridfs/http/web/controller/FileController.java:119-124 | the disposition is `attachment; filename=<base name>` exactly for content type `application/x-rpm`, and `inline; filename=<base name>` otherwise, including blank or absent types |
| ResponseHeaders.ContentRange | src/main/java/de/is24/infrastructure/gridfs/http/web/controller/FileController.java:156-157 | the value line 157 writes always starts `bytes 0-`; for an empty delivery of a file of `n` bytes the `long` subtraction gives `bytes 0--1/<n>` |
| ResponseHeaders.ContentRangeNamesLeadingBytes | src/main/java/de/is24/infrastructure/gridfs/http/web/controller/FileController.java:156-157 | for a resource with content, the Content-Range is `bytes 0-<contentLength-1>/<fileLength>` in decimal |
| ResponseHeaders.StandardContentRangeFromZeroOnly | src/main/java/de/is24/infrastructure/gridfs/http/web/controller/FileController.java:156-157 | the written Content-Range equals the RFC 7233 value for bytes start..start+n-1 if and only if start is 0 |
| ResponseHeaders.RangeHeaders | src/main/java/de/is24/infrastructure/gridfs/http/web/controller/FileController.java:153-160 | a ranged answer has `Accept-Ranges: bytes`, a Content-Range starting `bytes 0-`, and Content-Length equal to the resource's content length; it has no content type or disposition yet |
| FileController.DeliverFile | src/main/java/de/is24/infrastructure/gridfs/http/web/controller/FileController.java:68-77 | fails exactly when the store lacks the whole file; otherwise 200 with the store's resource, Content-Length of the resource, no range headers, counter `.get.rpm`; its Content-Type is the resource's type when it is not blank and absent otherwise; Content-Disposition is `attachment; filename=<base name>` exactly for `application/x-rpm` and `inline; filename=<base name>` otherwise |
| FileController.DeliverRangeOfFile | src/main/java/de/is24/infrastructure/gridfs/http/web/controller/FileController.java:79-108 | an invalid header gives exactly the validation's refusal, carrying the raw header; for a valid header the answer fails exactly when the store has nothing for the validated read; success is 206 with `Accept-Ranges: bytes`, Content-Length and Content-Range of the delivered resource, counter `.get.rpm-range`; its Content-Type is the resource's type when it is not blank and absent otherwise; Content-Disposition is `attachment; filename=<base name>` exactly for `application/x-rpm` and `inline; filename=<base name>` otherwise |
| FileController.RangedReadNotFound | src/main/java/de/is24/infrastructure/gridfs/http/web/controller/FileController.java:92-103 | a valid header whose read the store finds nothing for fails as file not found, naming that read |
| FileController.ValidationPrecedesStore | src/main/java/de/is24/infrastructure/gridfs/http/web/controller/FileController.java:85-103 | when the header is refused, the answer does not depend on the store: every rejection happens before any store access |
| FileController.RangeReadIsTheValidatedRange | src/main/java/de/is24/infrastructure/gridfs/http/web/controller/FileController.java:92-103 | an accepted header consults the store for one read only: stores that agree on the validated range's read give the same answer |
| FileController.SameDispositionForWholeAndRange | src/main/java/de/is24/infrastructure/gridfs/http/web/controller/FileController.java:76-106 | when the whole read and a validated range's read return resources with the same stored content type and file name, however their bytes differ, both deliveries succeed with the same content type and disposition |
| FileController.PartialContentResponse | src/main/java/de/is24/infrastructure/gridfs/http/web/controller/FileController.java:105-107 | the partial-content answer for a resource is 206 with the resource as body, `Accept-Ranges: bytes`, the resource's length as Content-Length, its Content-Range, and counter `.get.rpm-range`; its Content-Type is the resource's type when it is not blank and absent otherwise; Content-Disposition is `attachment; filename=<base name>` exactly for `application/x-rpm` and `inline; filename=<base name>` otherwise |
| FileController.PartialContentFor | src/main/java/de/is24/infrastructure/gridfs/http/web/controller/FileController.java:92-107 | a validated header whose read the store answers gets exactly the partial-content answer for the resource the store returned |
| FileController.ClosedRangeDelivery | src/main/java/de/is24/infrastructure/gridfs/http/web/controller/FileController.java:96-107 | `bytes=s-e` with s <= e, other than the one overflowing range, asks the store for `e - s + 1` bytes from s and delivers what the store returns |
| FileController.OpenRangeDelivery | src/main/java/de/is24/infrastructure/gridfs/http/web/controller/FileController.java:93-94 | `bytes=s-` asks the store for everything from s and delivers what the store returns |
| FileController.RangedContentRangeIgnoresStart | src/main/java/de/is24/infrastructure/gridfs/http/web/controller/FileController.java:153-157 | the partial-content answer, which `FileController.PartialContentFor` shows every validated range from `start` receives, has Content-Range `bytes 0-<n-1>/<total>`; this is the RFC 7233 value for the bytes `start` to `start+n-1` exactly when `start` is 0 |
| FileController.InvertedRangeScenario | src/main/java/de/is24/infrastructure/gridfs/http/web/controller/FileController.java:97-101 | `bytes=50-10` is refused as "end before start", with the file's path and the header, whatever the store holds |
| FileController.DeleteKey | src/main/java/de/is24/infrastructure/gridfs/http/web/controller/FileController.java:142 | the key deleted is the path's repository and architecture, with the file name followed by `.rpm` |
| FileController.DeleteFile | src/main/java/de/is24/infrastructure/gridfs/http/web/controller/FileController.java:137-151 | a delete always answers 204 No Content; it counts `.delete.rpm` exactly when the store deleted the key and `.delete.nonExistentRPM` exactly when it did not find it |
| FileController.DeleteIsIdempotent | src/main/java/de/is24/infrastructure/gridfs/http/web/controller/FileController.java:143-150 | deleting the same file twice answers 204 both times; the second delete counts a nonexistent file; the first counts a deletion exactly when the file was there |

## Findings

| source | as written | input that shows it | evidently intended | confidence | as-written member | corrected member |
|---|---|---|---|---|---|---|
| src/main/java/de/is24/infrastructure/gridfs/http/web/controller/FileController.java:102 | `intervalEnd - intervalStart + 1` in `long` arithmetic | `Range: bytes=0-9223372036854775807`: the length wraps to -9223372036854775808 and the store is asked for a negative length | a positive length covering the requested bytes | not executed; high that the value wraps, unknown what the store does with it | ByteRange.WidestRangeReadAsWritten | ByteRange.WindowLength |

`ByteRange.RequestForAsWritten` is the read as the source computes it. `ByteRange.WindowLengthAsWrittenWraps` shows the wrap of the length on its own.
The corrected length is `Long.MAX_VALUE` for that one input. No stored file is longer than `Long.MAX_VALUE` bytes, so the window still selects every byte of the range. `ByteRange.RequestFor`, and with it the rest of the model, uses the corrected length. `ByteRange.WindowLengthAsWrittenOtherwiseExact` and `ByteRange.RequestForAsWrittenOtherwiseAgrees` show that no other input is affected.

## Left out

- Spring MVC request mapping, the annotations, `@Autowired` wiring and the no-argument constructor kept for proxying: these are framework plumbing. The path variables arrive as plain strings.
- Monitoring and logging (`InApplicationMonitor`, `@TimeMeasurement`, SLF4J): each counter increment is returned as a `Counter` tag. `Counter.Name` uses the declared class name, whereas `getClass()` on a proxied bean can return a generated subclass name.
- The store (`FileStorageService`, `StorageService`, `BoundedGridFsResource`, GridFS): it is a function from read requests to an optional resource. A missing file is `None`, reported as `FileNotFound`. Streaming the body, `IOException` and closing streams are not modelled.
- `FileDescriptor` is not part of this model. Its path is taken to be repository, architecture and file name joined by `/`.
- `MediaType.valueOf` is not modelled. The content type is an opaque string compared exactly with `application/x-rpm`. Spring's case-insensitive comparison, its parameters and trimming, and its exception for an unparsable type are left out.
- `Numerals.ParseLong`: covers unsigned ASCII digit strings only. Java's leading `+`/`-` handling and its non-ASCII Unicode digits are left out, because the range pattern lets only ASCII digits reach the parse.
- `ResponseHeaders.BaseName`: models `java.io.File` with `/` as the separator (a Unix host). The Windows separator and a null file name are left out.
- ByteRange.RequestFor: for `bytes=0-9223372036854775807` it reads a window of length `Long.MAX_VALUE`, where line 102 asks for `Long.MIN_VALUE`. The model uses the corrected length (see Findings); `ByteRange.RequestForAsWritten` keeps the source's read.
- ByteRange.RangeRequest: for `bytes=0-9223372036854775807` it leads to the corrected read, not the source's negative-length read, as for `ByteRange.RequestFor` above.
- FileController.DeliverRangeOfFile: for `bytes=0-9223372036854775807` it consults the store with the corrected read. A store that answers only the source's negative-length read therefore gives a different outcome.
- Store failures other than "not found" on delete: lines 143-150 catch only `GridFSFileNotFoundException`, so any other exception from `storageService.delete` propagates to the caller. The delete outcome has only the two cases the controller handles.
- The response body is the resource record itself. The bytes it streams are not modelled.

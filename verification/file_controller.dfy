/**
 * The file controller: whole-file delivery, ranged delivery and idempotent deletion of
 * repository files. The store is a parameter; monitoring counters become a returned tag.
 */
module FileController {
  import opened Wrappers
  import opened Numerals
  import opened Store
  import opened ByteRange
  import opened ResponseHeaders

  const RpmExtension: string := ".rpm"
  const ControllerClassName: string := "de.is24.infrastructure.gridfs.http.web.controller.FileController"

  datatype Status = Ok | PartialContent | NoContent {
    function Code(): int {
      match this
      case Ok => 200
      case PartialContent => 206
      case NoContent => 204
    }
  }

  /** The monitoring counter each outcome increments. */
  datatype Counter = GetRpm | GetRpmRange | DeleteRpm | DeleteNonExistentRpm {
    function Name(): string {
      ControllerClassName + match this
        case GetRpm => ".get.rpm"
        case GetRpmRange => ".get.rpm-range"
        case DeleteRpm => ".delete.rpm"
        case DeleteNonExistentRpm => ".delete.nonExistentRPM"
    }
  }

  /** A delivery: status, headers, the resource streamed as the body, and the counter incremented. */
  datatype Response = Response(status: Status, headers: Headers, body: Resource, counter: Counter)

  /** Why a delivery failed: a refused `Range` header, or a read the store found nothing for. */
  datatype DeliveryError = BadRange(bad: BadRangeRequest) | FileNotFound(request: StoreRequest)

  /** `deliverFile`: the whole file, with its length and content headers. */
  function DeliverFile(repo: string, arch: string, filename: string, store: Lookup): (r: Result<Response, DeliveryError>)
    ensures r.Failure? <==> store(ReadWhole(Descriptor(repo, arch, filename))).None?
    ensures r.Failure? ==> r.error == FileNotFound(ReadWhole(Descriptor(repo, arch, filename)))
    ensures r.Success? ==> r.value.body == store(ReadWhole(Descriptor(repo, arch, filename))).value
    ensures r.Success? ==> r.value.status.Code() == 200 && r.value.counter == GetRpm
    ensures r.Success? ==> r.value.headers.contentLength == Some(r.value.body.contentLength as int)
    ensures r.Success? ==> r.value.headers.acceptRanges == None && r.value.headers.contentRange == None
    ensures r.Success? ==> (r.value.headers.contentType
        == if IsNotBlank(r.value.body.contentType) then r.value.body.contentType else None)
    ensures r.Success? ==> (r.value.headers.contentDisposition
        == Some((if r.value.body.contentType == Some(RpmMediaType) then "attachment" else "inline")
                + "; filename=" + BaseName(r.value.body.filename)))
  {
    var request := ReadWhole(Descriptor(repo, arch, filename));
    match store(request)
    case None => Failure(FileNotFound(request))
    case Some(res) =>
      var headers := NoHeaders.(contentLength := Some(res.contentLength as int));
      AttachmentExactlyForRpm(headers, res);
      Success(Response(Ok, ContentHeaders(headers, res), res, GetRpm))
  }

  /**
   * `deliverRangeOfFile`: validates the `Range` header, then reads the validated range from
   * the store and answers with partial content and the range headers.
   */
  function DeliverRangeOfFile(repo: string, arch: string, filename: string, header: string, store: Lookup)
    : (r: Result<Response, DeliveryError>)
    ensures ParseRange(Descriptor(repo, arch, filename), header).Failure?
        ==> r == Failure(BadRange(ParseRange(Descriptor(repo, arch, filename), header).error))
    ensures r.Failure? && r.error.BadRange? ==> r.error.bad.header == header
    ensures ParseRange(Descriptor(repo, arch, filename), header).Success?
        ==> (r.Failure? <==> store(RequestFor(Descriptor(repo, arch, filename), ParseRange(Descriptor(repo, arch, filename), header).value)).None?)
    ensures r.Success? ==> r.value.status.Code() == 206 && r.value.counter == GetRpmRange
    ensures r.Success? ==> r.value.headers.acceptRanges == Some("bytes")
    ensures r.Success? ==> r.value.headers.contentLength == Some(r.value.body.contentLength as int)
    ensures r.Success? ==> r.value.headers.contentRange == Some(ContentRange(r.value.body))
    ensures r.Success? ==> (r.value.headers.contentType
        == if IsNotBlank(r.value.body.contentType) then r.value.body.contentType else None)
    ensures r.Success? ==> (r.value.headers.contentDisposition
        == Some((if r.value.body.contentType == Some(RpmMediaType) then "attachment" else "inline")
                + "; filename=" + BaseName(r.value.body.filename)))
  {
    var d := Descriptor(repo, arch, filename);
    match RangeRequest(d, header)
    case Failure(bad) => Failure(BadRange(bad))
    case Success(request) =>
      match store(request)
      case None => Failure(FileNotFound(request))
      case Some(res) => Success(PartialContentResponse(res))
  }

  /** The partial-content answer carrying `res`: the range headers, then the content headers. */
  function PartialContentResponse(res: Resource): (r: Response)
    ensures r.status.Code() == 206 && r.counter == GetRpmRange && r.body == res
    ensures r.headers.acceptRanges == Some("bytes")
    ensures r.headers.contentLength == Some(res.contentLength as int)
    ensures r.headers.contentRange == Some(ContentRange(res))
    ensures r.headers.contentType == (if IsNotBlank(res.contentType) then res.contentType else None)
    ensures r.headers.contentDisposition
        == Some((if res.contentType == Some(RpmMediaType) then "attachment" else "inline")
                + "; filename=" + BaseName(res.filename))
  {
    AttachmentExactlyForRpm(RangeHeaders(res), res);
    Response(PartialContent, ContentHeaders(RangeHeaders(res), res), res, GetRpmRange)
  }

  /** Every rejection of the header happens before the store is consulted: the store cannot change it. */
  lemma ValidationPrecedesStore(repo: string, arch: string, filename: string, header: string, s1: Lookup, s2: Lookup)
    requires ParseRange(Descriptor(repo, arch, filename), header).Failure?
    ensures DeliverRangeOfFile(repo, arch, filename, header, s1) == DeliverRangeOfFile(repo, arch, filename, header, s2)
    ensures DeliverRangeOfFile(repo, arch, filename, header, s1).Failure?
  {
  }

  /**
   * An accepted header leads to exactly one read: two stores that agree on the read of the
   * validated range give the same delivery, and that read is the range's offset and length.
   */
  lemma RangeReadIsTheValidatedRange(repo: string, arch: string, filename: string, header: string, s1: Lookup, s2: Lookup)
    requires ParseRange(Descriptor(repo, arch, filename), header).Success?
    requires var spec := ParseRange(Descriptor(repo, arch, filename), header).value;
      s1(RequestFor(Descriptor(repo, arch, filename), spec)) == s2(RequestFor(Descriptor(repo, arch, filename), spec))
    ensures DeliverRangeOfFile(repo, arch, filename, header, s1) == DeliverRangeOfFile(repo, arch, filename, header, s2)
  {
  }

  /**
   * Whole and ranged deliveries of a file carry the same content type and disposition
   * whenever the two reads return resources with the same stored content type and file
   * name, whatever bytes each of them holds.
   */
  lemma SameDispositionForWholeAndRange(d: Descriptor, header: string, store: Lookup, spec: RangeSpec, whole: Resource, part: Resource)
    requires ParseRange(d, header) == Success(spec)
    requires store(ReadWhole(d)) == Some(whole) && store(RequestFor(d, spec)) == Some(part)
    requires whole.contentType == part.contentType && whole.filename == part.filename
    ensures var w := DeliverFile(d.repo, d.arch, d.filename, store);
      var g := DeliverRangeOfFile(d.repo, d.arch, d.filename, header, store);
      && w.Success? && g.Success?
      && w.value.headers.contentType == g.value.headers.contentType
      && w.value.headers.contentDisposition == g.value.headers.contentDisposition
  {
    PartialContentFor(d, header, store, spec, part);
  }

  /** The store key of a delete: the file name from the path with the RPM extension put back. */
  function DeleteKey(repoName: string, arch: string, filename: string): (d: Descriptor)
    ensures d.repo == repoName && d.arch == arch
    ensures |d.filename| == |filename| + 4 && d.filename[..|filename|] == filename
    ensures d.filename[|filename|..] == ".rpm"
  {
    Descriptor(repoName, arch, filename + RpmExtension)
  }

  /** The answer to a delete: its status, the counter incremented, and the key deleted. */
  datatype Deletion = Deletion(status: Status, counter: Counter, key: Descriptor)

  /**
   * `deleteFile`: deletes the `.rpm` file from the store; a file the store does not find
   * is not an error, so both outcomes answer "no content" and only the counter differs.
   */
  function DeleteFile(repoName: string, arch: string, filename: string, delete: Descriptor -> DeleteOutcome)
    : (r: Deletion)
    ensures r.key == DeleteKey(repoName, arch, filename)
    ensures r.status.Code() == 204
    ensures r.counter == DeleteRpm <==> delete(r.key) == Deleted
    ensures r.counter == DeleteNonExistentRpm <==> delete(r.key) == NotFound
  {
    var key := DeleteKey(repoName, arch, filename);
    match delete(key)
    case Deleted => Deletion(NoContent, DeleteRpm, key)
    case NotFound => Deletion(NoContent, DeleteNonExistentRpm, key)
  }

  /** A reference store holding a set of files: a delete removes the file if it is there. */
  function DeleteIn(files: set<Descriptor>): Descriptor -> DeleteOutcome {
    d => if d in files then Deleted else NotFound
  }

  /**
   * Deleting the same file twice from a reference store answers "no content" both times;
   * the second delete finds nothing and counts a nonexistent file, and the file is gone.
   */
  lemma DeleteIsIdempotent(files: set<Descriptor>, repoName: string, arch: string, filename: string)
    ensures var key := DeleteKey(repoName, arch, filename);
      var first := DeleteFile(repoName, arch, filename, DeleteIn(files));
      var second := DeleteFile(repoName, arch, filename, DeleteIn(files - {key}));
      && first.status == second.status == NoContent
      && (first.counter == DeleteRpm <==> key in files)
      && second.counter == DeleteNonExistentRpm
  {
  }

  /**
   * A header that validates to `spec` is answered with partial content carrying the
   * resource the store finds under the read of `spec`.
   */
  lemma PartialContentFor(d: Descriptor, header: string, store: Lookup, spec: RangeSpec, res: Resource)
    requires ParseRange(d, header) == Success(spec)
    requires store(RequestFor(d, spec)) == Some(res)
    ensures DeliverRangeOfFile(d.repo, d.arch, d.filename, header, store) == Success(PartialContentResponse(res))
  {
  }

  /**
   * A validated header whose read the store finds nothing for fails as "file not found",
   * naming the read of the validated range.
   */
  lemma RangedReadNotFound(d: Descriptor, header: string, store: Lookup, spec: RangeSpec)
    requires ParseRange(d, header) == Success(spec)
    requires store(RequestFor(d, spec)).None?
    ensures DeliverRangeOfFile(d.repo, d.arch, d.filename, header, store) == Failure(FileNotFound(RequestFor(d, spec)))
  {
  }

  /**
   * A closed range written as a header, `bytes=<start>-<end>`, asks the store for the
   * `end - start + 1` bytes from `start`, and the answer delivers what the store returned,
   * with its length as the `Content-Length`.
   */
  lemma ClosedRangeDelivery(d: Descriptor, start: nat, end: nat, store: Lookup, res: Resource)
    requires start <= end <= LongMax && (start > 0 || end < LongMax)
    requires store(ReadWindow(d, start, end - start + 1)) == Some(res)
    ensures var r := DeliverRangeOfFile(d.repo, d.arch, d.filename, Render(RangeSpec(start, Some(end))), store);
      && r.Success?
      && r.value.body == res
      && r.value.headers.contentLength == Some(res.contentLength as int)
  {
    var spec := RangeSpec(start, Some(end));
    assert ParseRange(d, Render(spec)) == Success(spec) by {
      ParseRangeRoundTrip(d, spec);
    }
    assert RequestFor(d, spec) == ReadWindow(d, start, end - start + 1);
    PartialContentFor(d, Render(spec), store, spec, res);
  }

  /** An open range written as a header, `bytes=<start>-`, asks the store for everything from `start`. */
  lemma OpenRangeDelivery(d: Descriptor, start: nat, store: Lookup, res: Resource)
    requires start <= LongMax
    requires store(ReadFrom(d, start)) == Some(res)
    ensures var r := DeliverRangeOfFile(d.repo, d.arch, d.filename, Render(RangeSpec(start, None)), store);
      r.Success? && r.value.body == res
  {
    var spec := RangeSpec(start, None);
    ParseRangeRoundTrip(d, spec);
    PartialContentFor(d, Render(spec), store, spec, res);
  }

  /**
   * The `Content-Range` of a ranged delivery agrees with section 4.2 of RFC 7233 only for
   * ranges starting at byte 0. `PartialContentFor` shows that a range from `start` whose
   * read returns `res` is answered with `PartialContentResponse(res)`; for `n >= 1` bytes
   * that answer names bytes `0` to `n - 1` where the standard names `start` to `start + n - 1`.
   */
  lemma RangedContentRangeIgnoresStart(res: Resource, start: nat)
    requires 1 <= res.contentLength && 0 <= res.fileLength
    ensures PartialContentResponse(res).headers.contentRange
         == Some("bytes 0-" + Decimal(res.contentLength - 1) + "/" + Decimal(res.fileLength))
    ensures (PartialContentResponse(res).headers.contentRange
             == Some(StandardContentRange(start, start + res.contentLength - 1, res.fileLength))) <==> start == 0
  {
    ContentRangeNamesLeadingBytes(res);
    StandardContentRangeFromZeroOnly(res, start);
  }

  /** The header naming the bytes 50 to 10. */
  lemma FiftyToTenHeader()
    ensures RangePrefix + Decimal(50) + "-" + Decimal(10) == "bytes=50-10"
  {
    assert Decimal(50) == "50" && Decimal(10) == "10";
  }

  /** `bytes=50-10` is refused for its order, with the file's path, before the store is consulted. */
  lemma InvertedRangeScenario(store: Lookup)
    ensures var d := Descriptor("updates", "x86_64", "foo-1.0.rpm");
      DeliverRangeOfFile("updates", "x86_64", "foo-1.0.rpm", "bytes=50-10", store)
        == Failure(BadRange(BadRangeRequest(EndBeforeStart(Path(d)), "bytes=50-10")))
  {
    var d := Descriptor("updates", "x86_64", "foo-1.0.rpm");
    var h := "bytes=50-10";
    FiftyToTenHeader();
    InvertedRangeRejected(d, 50, 10);
  }
}

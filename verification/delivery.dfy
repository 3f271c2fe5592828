/** Serving stored files (`get_file`, `download_file` and `stream_file` in
    app/file/file.py): the access rule, the `Content-Disposition` header,
    byte-range answers with `Content-Range` as in section 4.2 of RFC 7233,
    and what the route's outer `try`/`except Exception` does to the
    HTTP errors raised inside it. */
module Delivery {
  import opened Types
  import opened Decimal
  import opened Disk
  import opened FileModels
  import opened RangeRequests
  import opened PercentEncoding
  import opened Users

  /** The response headers the routes set. */
  datatype HeaderName =
    | ContentRangeHeader | AcceptRangesHeader | ContentLengthHeader | ContentDispositionHeader
    | CacheControlHeader | ETagHeader | WwwAuthenticateHeader

  type Headers = map<HeaderName, string>

  /** An HTTP answer: status, headers, media type and the body as the
      chunks the streaming iterator yields. */
  datatype Reply = Reply(status: int, headers: Headers, mediaType: string, body: seq<seq<byte>>)

  /** A route either returns a reply or raises an `HTTPException`, which
      FastAPI renders as a reply with the exception's status and headers. */
  datatype Outcome = Returned(reply: Reply) | Raised(reply: Reply)

  /** `create_file_iterator`'s default chunk size, used by downloads. */
  const DownloadChunkSize: nat := 1024 * 1024

  /** The chunk size `stream_file` passes. */
  const StreamChunkSize: nat := 64 * 1024

  const CacheControl: string := "public, max-age=3600"
  const OctetStream: string := "application/octet-stream"

  /** The reply FastAPI renders for an `HTTPException` without a body of ours. */
  function ErrorReply(status: int, headers: Headers): Reply
  {
    Reply(status, headers, "application/json", [])
  }

  /** The 401 every file route raises for an anonymous request on a
      private file. */
  const Unauthorized: Reply := ErrorReply(401, map[WwwAuthenticateHeader := "Bearer"])

  /** The access rule shared by the file routes: a public file is open to
      everyone; a private one needs a user (401), who must be its uploader
      (403), except that `get_file` also admits superusers. `None` means
      access is granted. */
  function CheckAccess(rec: FileRecord, user: Option<User>, superuserOverride: bool): (r: Option<Reply>)
    ensures rec.isPublic ==> r.None?
    ensures !rec.isPublic && user.None? ==> r == Some(Unauthorized)
    ensures !rec.isPublic && user.Some? ==>
      (r.None? <==> rec.uploaderId == Some(user.value.id) || (superuserOverride && user.value.isSuperuser))
    ensures !rec.isPublic && user.Some? && r.Some? ==> r.value == ErrorReply(403, map[])
  {
    if rec.isPublic then None
    else if user.None? then Some(Unauthorized)
    else if !(superuserOverride && user.value.isSuperuser) && rec.uploaderId != Some(user.value.id) then
      Some(ErrorReply(403, map[]))
    else None
  }

  /** `get_file`: the record, 404 when the id is unknown, then the access
      rule with the superuser override. */
  function GetFile(found: Option<FileRecord>, user: Option<User>): (r: Outcome)
    ensures found.None? ==> r == Raised(ErrorReply(404, map[]))
    ensures found.Some? ==> (r.Returned? <==> CheckAccess(found.value, user, true).None?)
  {
    if found.None? then Raised(ErrorReply(404, map[]))
    else match CheckAccess(found.value, user, true)
      case Some(e) => Raised(e)
      case None => Returned(Reply(200, map[], "application/json", []))
  }

  /** `attachment; filename=...`: the name verbatim when it is ASCII, else
      the fallback `file` plus the RFC 5987 extended parameter holding the
      percent-encoded UTF-8 of the name. */
  function ContentDisposition(name: string): (h: string)
    ensures |h| >= |"attachment; filename="| && h[..|"attachment; filename="|] == "attachment; filename="
    ensures IsAscii(name) ==> h[|"attachment; filename="|..] == name
    ensures !IsAscii(name) ==> |ExtendedPrefix| <= |h| && h[..|ExtendedPrefix|] == ExtendedPrefix
  {
    if IsAscii(name) then "attachment; filename=" + name
    else "attachment; filename=file; filename*=UTF-8''" + Quote(Utf8(name))
  }

  const ExtendedPrefix: string := "attachment; filename=file; filename*=UTF-8''"

  /** The header carries the name: verbatim when ASCII, otherwise the
      extended parameter decodes (percent-decoding, then UTF-8) back to
      exactly the name, and uses only unreserved characters and escapes. */
  lemma DispositionCarriesName(name: string)
    ensures IsAscii(name) ==> ContentDisposition(name) == "attachment; filename=" + name
    ensures !IsAscii(name) ==>
      var h := ContentDisposition(name);
      && |ExtendedPrefix| <= |h| && h[..|ExtendedPrefix|] == ExtendedPrefix
      && QuotedForm(h[|ExtendedPrefix|..])
      && PercentDecode(h[|ExtendedPrefix|..]) == Some(Utf8(name))
      && Utf8Decode(Utf8(name)) == Some(name)
  {
    if !IsAscii(name) {
      var h := ContentDisposition(name);
      assert h[|ExtendedPrefix|..] == Quote(Utf8(name));
      QuoteForm(Utf8(name));
      QuoteRoundTrip(Utf8(name));
      Utf8RoundTrip(name);
    }
  }

  /** Which of the two serving routes. */
  datatype Route = Download | Stream

  function ChunkSizeOf(route: Route): nat
  {
    if route == Download then DownloadChunkSize else StreamChunkSize
  }

  /** The strong validator both routes send: the digest in double quotes. */
  function ETag(rec: FileRecord): string { "\"" + rec.md5 + "\"" }

  /** `Content-Range: bytes {start}-{end}/{size}`. */
  function ContentRange(r: ByteRange, size: nat): string
  {
    "bytes " + NatToString(r.first) + "-" + NatToString(r.last) + "/" + NatToString(size)
  }

  /** The `Content-Range` of a 416 answer: `bytes *` then a slash and the size. */
  function UnsatisfiedRange(size: nat): string
  {
    "bytes */" + NatToString(size)
  }

  /** The headers common to every successful answer of `route`, with
      `Content-Disposition` on downloads only. */
  function BaseHeaders(route: Route, rec: FileRecord, length: nat): Headers
  {
    var h := map[AcceptRangesHeader := "bytes", ContentLengthHeader := NatToString(length),
                 CacheControlHeader := CacheControl, ETagHeader := ETag(rec)];
    if route == Download then h[ContentDispositionHeader := ContentDisposition(rec.name)] else h
  }

  /** What `mimetypes.guess_type` gave, or the binary fallback. */
  function MediaType(guessed: Option<string>): string
  {
    if guessed.Some? then guessed.value else OctetStream
  }

  /** The 206 answer for the window `r` of a file whose bytes are
      `content`: `Content-Range` names the window and the size, the
      `Content-Length` reads back as the number of bytes sent, and the body
      is exactly the window, in chunks no larger than the route's. */
  function RangeAnswer(route: Route, rec: FileRecord, content: seq<byte>, r: ByteRange, mime: string): (reply: Reply)
    requires r.first <= r.last < |content|
    ensures reply.status == 206
    ensures ContentRangeHeader in reply.headers && reply.headers[ContentRangeHeader] == ContentRange(r, |content|)
    ensures ContentLengthHeader in reply.headers && AllDigits(reply.headers[ContentLengthHeader])
    ensures DigitsValue(reply.headers[ContentLengthHeader]) == |Flatten(reply.body)|
    ensures Flatten(reply.body) == content[r.first..r.last + 1]
    ensures forall i :: 0 <= i < |reply.body| ==> 0 < |reply.body[i]| <= ChunkSizeOf(route)
    ensures ETagHeader in reply.headers && reply.headers[ETagHeader] == ETag(rec)
    ensures ContentDispositionHeader in reply.headers <==> route == Download
  {
    var headers := BaseHeaders(route, rec, r.last - r.first + 1)[ContentRangeHeader := ContentRange(r, |content|)];
    RangeServedExactly(content, r, ChunkSizeOf(route));
    Reply(206, headers, mime, CreateFileIterator(content, r.first, Some(r.last), ChunkSizeOf(route)))
  }

  /** The 200 answer: the whole file, with a `Content-Length` that reads
      back as its size and no `Content-Range`. */
  function FullAnswer(route: Route, rec: FileRecord, content: seq<byte>, mime: string): (reply: Reply)
    ensures reply.status == 200
    ensures Flatten(reply.body) == content
    ensures ContentLengthHeader in reply.headers && AllDigits(reply.headers[ContentLengthHeader])
    ensures DigitsValue(reply.headers[ContentLengthHeader]) == |content|
    ensures ContentRangeHeader !in reply.headers
    ensures ETagHeader in reply.headers && reply.headers[ETagHeader] == ETag(rec)
    ensures ContentDispositionHeader in reply.headers <==> route == Download
  {
    Reply(200, BaseHeaders(route, rec, |content|), mime, CreateFileIterator(content, 0, None, ChunkSizeOf(route)))
  }

  /** The body of the routes' `try` block: 404 when the blob is missing;
      with a non-empty `Range` header, 206 and the parsed window, or 416
      when the header is rejected; otherwise 200 and the whole file.
      `guessed` is what `mimetypes.guess_type` returned for the name. */
  function Serve(route: Route, d: Disk, rec: FileRecord, rangeHeader: Option<string>,
                 guessed: Option<string>): (o: Outcome)
    ensures !BlobExists(d, rec) ==> o == Raised(ErrorReply(404, map[]))
    ensures o.Returned? ==> o.reply.status == 200 || o.reply.status == 206
    ensures o.Raised? ==> o.reply.status == 404 || o.reply.status == 416
  {
    if !BlobExists(d, rec) then Raised(ErrorReply(404, map[]))
    else
      var content := d[rec.path][BlobName(rec.md5, rec.name)].content;
      if rangeHeader.Some? && rangeHeader.value != "" then
        match ParseRangeHeader(rangeHeader.value, |content|)
        case Ok(r) => Returned(RangeAnswer(route, rec, content, r, MediaType(guessed)))
        case Err(_) => Raised(ErrorReply(416, map[ContentRangeHeader := UnsatisfiedRange(|content|)]))
      else
        Returned(FullAnswer(route, rec, content, MediaType(guessed)))
  }

  /** The outer `except Exception` of the routes as written: every
      exception raised in the `try` block, the route's own `HTTPException`s
      included, becomes a 500. */
  function CatchAllAsWritten(o: Outcome): (o': Outcome)
    ensures o.Returned? ==> o' == o
    ensures o.Raised? ==> o' == Raised(ErrorReply(500, map[]))
  {
    if o.Raised? then Raised(ErrorReply(500, map[])) else o
  }

  /** The routes as written: lookup (404), access without the superuser
      override (401/403), then the `try` block behind the catch-all. */
  function ServeRouteAsWritten(route: Route, d: Disk, found: Option<FileRecord>, user: Option<User>,
                               rangeHeader: Option<string>, guessed: Option<string>): (o: Outcome)
    ensures found.None? ==> o == Raised(ErrorReply(404, map[]))
    ensures found.Some? && CheckAccess(found.value, user, false).Some? ==>
      o == Raised(CheckAccess(found.value, user, false).value)
    ensures found.Some? && CheckAccess(found.value, user, false).None? ==>
      o == CatchAllAsWritten(Serve(route, d, found.value, rangeHeader, guessed))
  {
    if found.None? then Raised(ErrorReply(404, map[]))
    else match CheckAccess(found.value, user, false)
      case Some(e) => Raised(e)
      case None => CatchAllAsWritten(Serve(route, d, found.value, rangeHeader, guessed))
  }

  /** The routes as evidently intended: the errors raised in the `try`
      block (404 for a missing blob, 416 for a rejected range) reach the
      client. */
  function ServeRoute(route: Route, d: Disk, found: Option<FileRecord>, user: Option<User>,
                      rangeHeader: Option<string>, guessed: Option<string>): (o: Outcome)
    ensures found.None? ==> o == Raised(ErrorReply(404, map[]))
    ensures found.Some? && CheckAccess(found.value, user, false).Some? ==>
      o == Raised(CheckAccess(found.value, user, false).value)
    ensures found.Some? && CheckAccess(found.value, user, false).None? ==>
      o == Serve(route, d, found.value, rangeHeader, guessed)
  {
    if found.None? then Raised(ErrorReply(404, map[]))
    else match CheckAccess(found.value, user, false)
      case Some(e) => Raised(e)
      case None => Serve(route, d, found.value, rangeHeader, guessed)
  }

  /** The two versions differ only where the `try` block raises. */
  lemma AsWrittenAgreesOnSuccess(route: Route, d: Disk, found: Option<FileRecord>, user: Option<User>,
                                 rangeHeader: Option<string>, guessed: Option<string>)
    ensures var fixed := ServeRoute(route, d, found, user, rangeHeader, guessed);
      var asWritten := ServeRouteAsWritten(route, d, found, user, rangeHeader, guessed);
      && (fixed.Returned? <==> asWritten.Returned?)
      && (fixed.Returned? ==> asWritten == fixed)
      && (asWritten.Raised? && asWritten.reply.status != 500 ==> asWritten == fixed)
  {
  }

  /** The bytes of `rec`'s blob. */
  function BlobContent(d: Disk, rec: FileRecord): seq<byte>
    requires BlobExists(d, rec)
  {
    d[rec.path][BlobName(rec.md5, rec.name)].content
  }

  /** A rejected range, as written: the 416 raised for it is caught by the
      outer handler and the client sees a 500 without `Content-Range`. */
  lemma RejectedRangeBecomes500(route: Route, d: Disk, rec: FileRecord, user: Option<User>,
                                header: string, guessed: Option<string>)
    requires CheckAccess(rec, user, false).None? && BlobExists(d, rec)
    requires header != "" && ParseRangeHeader(header, |BlobContent(d, rec)|).Err?
    ensures ServeRouteAsWritten(route, d, Some(rec), user, Some(header), guessed) == Raised(ErrorReply(500, map[]))
  {
  }

  /** A concrete case: a suffix range `bytes=-5` on any stored file. */
  lemma SuffixRangeAnswered500(route: Route, d: Disk, rec: FileRecord, guessed: Option<string>)
    requires rec.isPublic && BlobExists(d, rec)
    ensures ServeRouteAsWritten(route, d, Some(rec), None, Some("bytes=-5"), guessed).reply.status == 500
    ensures ServeRoute(route, d, Some(rec), None, Some("bytes=-5"), guessed).reply.status == 416
  {
    SuffixRangeRejected("5", |BlobContent(d, rec)|);
    assert BytesPrefix + "-" + "5" == "bytes=-5";
  }

  /** A rejected range, as intended: 416 with the unsatisfied-range `Content-Range`
      as section 4.4 of RFC 7233 asks, and no body. */
  lemma RejectedRangeIs416(route: Route, d: Disk, rec: FileRecord, user: Option<User>,
                           header: string, guessed: Option<string>)
    requires CheckAccess(rec, user, false).None? && BlobExists(d, rec)
    requires header != "" && ParseRangeHeader(header, |BlobContent(d, rec)|).Err?
    ensures var o := ServeRoute(route, d, Some(rec), user, Some(header), guessed);
      && o.Raised?
      && o.reply.status == 416
      && o.reply.headers == map[ContentRangeHeader := UnsatisfiedRange(|BlobContent(d, rec)|)]
      && o.reply.body == []
  {
  }

  /** A record whose blob is gone: 500 as written, 404 as intended. */
  lemma MissingBlobStatus(route: Route, d: Disk, rec: FileRecord, user: Option<User>,
                          rangeHeader: Option<string>, guessed: Option<string>)
    requires CheckAccess(rec, user, false).None? && !BlobExists(d, rec)
    ensures ServeRouteAsWritten(route, d, Some(rec), user, rangeHeader, guessed).reply.status == 500
    ensures ServeRoute(route, d, Some(rec), user, rangeHeader, guessed).reply.status == 404
  {
  }

  /** A satisfiable range is answered by `RangeAnswer` for the parsed
      window, the same way in both versions of the routes. */
  lemma RangeReply(route: Route, d: Disk, rec: FileRecord, user: Option<User>,
                   header: string, guessed: Option<string>)
    requires CheckAccess(rec, user, false).None? && BlobExists(d, rec)
    requires header != "" && ParseRangeHeader(header, |BlobContent(d, rec)|).Ok?
    ensures var content := BlobContent(d, rec);
      var r := ParseRangeHeader(header, |content|).value;
      var o := ServeRoute(route, d, Some(rec), user, Some(header), guessed);
      && o == ServeRouteAsWritten(route, d, Some(rec), user, Some(header), guessed)
      && o == Returned(RangeAnswer(route, rec, content, r, MediaType(guessed)))
  {
  }

  /** No `Range` header (or an empty one) is answered by `FullAnswer`. */
  lemma FullReply(route: Route, d: Disk, rec: FileRecord, user: Option<User>,
                  rangeHeader: Option<string>, guessed: Option<string>)
    requires CheckAccess(rec, user, false).None? && BlobExists(d, rec)
    requires rangeHeader.None? || rangeHeader.value == ""
    ensures ServeRoute(route, d, Some(rec), user, rangeHeader, guessed)
      == Returned(FullAnswer(route, rec, BlobContent(d, rec), MediaType(guessed)))
  {
  }

  /** Resuming an interrupted download: `bytes=0-{k-1}` and `bytes={k}-`
      parse to the windows `0..k-1` and `k..size-1` (`ParseFormattedRange`,
      `ParseOpenRange`), the routes answer them with `RangeAnswer`
      (`RangeReply`), and the bodies of the two answers together are the
      whole file. */
  lemma ResumeRoundTrip(route: Route, rec: FileRecord, content: seq<byte>, k: nat, mime: string)
    requires 0 < k < |content|
    ensures Flatten(RangeAnswer(route, rec, content, ByteRange(0, k - 1), mime).body)
            + Flatten(RangeAnswer(route, rec, content, ByteRange(k, |content| - 1), mime).body) == content
  {
    WindowsJoin(content, k);
  }

  lemma WindowsJoin(content: seq<byte>, k: nat)
    requires k <= |content|
    ensures content[0..k] + content[k..|content| - 1 + 1] == content
  {
    assert content[0..k] + content[k..] == content;
  }

  /** Downloads are stricter than `get_file`: whoever may download a file
      may also read its record, and a superuser who is not the uploader of
      a private file may read the record but not download it. */
  lemma SuperuserOverrideOnlyInGetFile(rec: FileRecord, user: Option<User>)
    ensures CheckAccess(rec, user, false).None? ==> CheckAccess(rec, user, true).None?
    ensures !rec.isPublic && user.Some? && user.value.isSuperuser && rec.uploaderId != Some(user.value.id) ==>
      && GetFile(Some(rec), user).Returned?
      && CheckAccess(rec, user, false) == Some(ErrorReply(403, map[]))
  {
  }

  /** A private file without an uploader cannot be downloaded by anyone. */
  lemma OrphanedPrivateFileUndownloadable(route: Route, d: Disk, rec: FileRecord, user: Option<User>,
                                          rangeHeader: Option<string>, guessed: Option<string>)
    requires !rec.isPublic && rec.uploaderId.None?
    ensures ServeRoute(route, d, Some(rec), user, rangeHeader, guessed).Raised?
    ensures ServeRouteAsWritten(route, d, Some(rec), user, rangeHeader, guessed).Raised?
  {
  }
}

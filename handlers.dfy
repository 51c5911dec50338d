/**
 * The three request handlers, as functions from the query values and the outcomes of their
 * collaborators to the response they produce. The upstream fetch, the URL parser and the
 * extraction service are supplied; piping bytes is recorded only as the way the body ends.
 */
module Handlers {
  import opened Wrappers
  import opened JsValues
  import opened TokenHeaders
  import Filename

  /** The upstream GET: `axios.get(url, { responseType: "stream", headers, maxRedirects })`. */
  datatype UpstreamRequest = UpstreamRequest(url: string, headers: map<string, Json>, maxRedirects: nat)

  /** How the piped upstream body ends. */
  datatype Transfer = Completes | ErrorsBeforeHeadersSent | ErrorsAfterHeadersSent

  /**
   * The outcome of the upstream GET: it rejects (invalid URL, network or DNS failure,
   * non-2xx status, too many redirects), or it answers with lower-cased header names and a
   * body stream.
   */
  datatype Upstream = RequestFailed | Responded(headers: map<string, string>, transfer: Transfer)

  /** The collaborators: library codecs, the upstream fetch and the extraction service (Err carries `err.message`). */
  datatype Collaborators = Collaborators(
    codecs: Codecs,
    fetch: UpstreamRequest -> Upstream,
    extract: string -> Result<Json, string>)

  /** A JSON body, the upstream bytes piped to the end, or the bytes piped until `res.end()` cut them off. */
  datatype Body = JsonBody(value: Json) | Piped | PipedThenEnded

  /** The status, the headers the handler sets, and the body. */
  datatype Response = Response(status: nat, headers: map<string, string>, body: Body)

  /** A file response, and whether the handler attached the cleanup listeners. */
  datatype FileReply = FileReply(response: Response, cleanupArmed: bool)

  const MAX_REDIRECTS: nat := 5
  const OCTET_STREAM := "application/octet-stream"
  const MISSING_URL := "Missing 'url' query parameter."
  const MISSING_MEDIA_URL := "Missing 'mediaUrl' query parameter."
  const INVALID_MEDIA_URL := "Invalid mediaUrl."
  const DOWNLOAD_FAILED := "Failed to download media."
  const SEND_FAILED := "Failed to send file."
  const STREAM_FAILED := "Failed to stream media."

  /** `{ success: false, error: message }`. */
  function ErrorBody(message: string): Json
  {
    JObject(map["success" := JBool(false), "error" := JString(message)])
  }

  /** `res.status(status).json({ success: false, error: message })` before any header is set. */
  function ErrorResponse(status: nat, message: string): Response
  {
    Response(status, map[], JsonBody(ErrorBody(message)))
  }

  /** `!value` for a query value: missing or empty. */
  predicate Absent(value: Option<string>)
  {
    value.None? || value.value == ""
  }

  /** `headers[name]` when it is present and non-empty. */
  predicate HasValue(headers: map<string, string>, name: string)
  {
    name in headers && headers[name] != ""
  }

  /** `headers[name] || fallback`. */
  function ValueOr(headers: map<string, string>, name: string, fallback: string): string
  {
    if HasValue(headers, name) then headers[name] else fallback
  }

  /** `{ name: headers[name] }` when `headers[name]` is truthy, `{}` otherwise. */
  function CopyIfPresent(headers: map<string, string>, from: string, to: string): map<string, string>
  {
    if HasValue(headers, from) then map[to := headers[from]] else map[]
  }

  /** `attachment; filename="<name>"`. */
  function ContentDisposition(name: string): string
  {
    "attachment; filename=\"" + name + "\""
  }

  /** The request the file handler makes: to the parsed URL's serialisation, or none when it does not parse. */
  function FileRequest(mediaUrl: string, codecs: Codecs): (r: Option<UpstreamRequest>)
    ensures r.None? <==> codecs.parseUrl(mediaUrl).None?
    ensures r.Some? ==> var href := codecs.parseUrl(mediaUrl).value.href;
      r.value == UpstreamRequest(href, BuildUpstreamHeaders(mediaUrl, href, codecs), MAX_REDIRECTS)
  {
    match codecs.parseUrl(ResolveMediaUrl(mediaUrl, codecs))
    case None => None
    case Some(url) => Some(UpstreamRequest(url.href, BuildUpstreamHeaders(mediaUrl, url.href, codecs), MAX_REDIRECTS))
  }

  /** The headers the file handler sets once upstream has answered. */
  function FileHeaders(finalName: string, upstream: map<string, string>): (h: map<string, string>)
    ensures h.Keys <= {"Content-Disposition", "Content-Type", "Content-Length"}
    ensures "Content-Disposition" in h && h["Content-Disposition"] == ContentDisposition(finalName)
    ensures "Content-Type" in h
    ensures HasValue(upstream, "content-type") ==> h["Content-Type"] == upstream["content-type"]
    ensures !HasValue(upstream, "content-type") ==> h["Content-Type"] == OCTET_STREAM
    ensures "Content-Length" in h <==> HasValue(upstream, "content-length")
    ensures "Content-Length" in h ==> h["Content-Length"] == upstream["content-length"]
  {
    map["Content-Disposition" := ContentDisposition(finalName), "Content-Type" := ValueOr(upstream, "content-type", OCTET_STREAM)]
      + CopyIfPresent(upstream, "content-length", "Content-Length")
  }

  /**
   * The response once the body is piped: complete, cut off by `res.end()` after the headers
   * went out, or replaced by a 500 JSON error when the stream fails before they did.
   */
  function Piping(headers: map<string, string>, transfer: Transfer, failure: string): (r: Response)
    ensures r.headers == headers
    ensures r.status == 500 <==> transfer == ErrorsBeforeHeadersSent
    ensures r.status != 500 ==> r.status == 200
    ensures transfer == ErrorsBeforeHeadersSent ==> r.body == JsonBody(ErrorBody(failure))
    ensures transfer == Completes ==> r.body == Piped
    ensures transfer == ErrorsAfterHeadersSent ==> r.body == PipedThenEnded
  {
    match transfer
    case Completes => Response(200, headers, Piped)
    case ErrorsBeforeHeadersSent => Response(500, headers, JsonBody(ErrorBody(failure)))
    case ErrorsAfterHeadersSent => Response(200, headers, PipedThenEnded)
  }

  /** The file handler's reply once upstream has rejected or answered. */
  function FileAnswer(finalName: string, upstream: Upstream): (reply: FileReply)
    ensures reply.response.status != 400
    ensures reply.cleanupArmed <==> upstream.Responded?
    ensures reply.response.body.JsonBody? ==> reply.response.body.value in {ErrorBody(DOWNLOAD_FAILED), ErrorBody(SEND_FAILED)}
  {
    match upstream
    case RequestFailed => FileReply(ErrorResponse(500, DOWNLOAD_FAILED), false)
    case Responded(headers, transfer) => FileReply(Piping(FileHeaders(finalName, headers), transfer, SEND_FAILED), true)
  }

  /** `handleMediaFileDownload`: the attachment download. */
  function HandleMediaFileDownload(mediaUrl: Option<string>, filename: Option<string>, env: Collaborators): (reply: FileReply)
    ensures reply.response.status == 400 <==> Absent(mediaUrl) || env.codecs.parseUrl(mediaUrl.value).None?
    ensures Absent(mediaUrl) ==> reply == FileReply(ErrorResponse(400, MISSING_MEDIA_URL), false)
    ensures !Absent(mediaUrl) && env.codecs.parseUrl(mediaUrl.value).None? ==>
      reply == FileReply(ErrorResponse(400, INVALID_MEDIA_URL), false)
    ensures reply.cleanupArmed ==> !Absent(mediaUrl) && env.codecs.parseUrl(mediaUrl.value).Some?
    ensures reply.cleanupArmed ==> env.fetch(FileRequest(mediaUrl.value, env.codecs).value).Responded?
  {
    if Absent(mediaUrl) then FileReply(ErrorResponse(400, MISSING_MEDIA_URL), false)
    else
      var resolved := ResolveMediaUrl(mediaUrl.value, env.codecs);
      assert resolved == mediaUrl.value;
      match env.codecs.parseUrl(resolved)
      case None => FileReply(ErrorResponse(400, INVALID_MEDIA_URL), false)
      case Some(url) =>
        var finalName := Filename.AttachmentName(filename, url.pathname);
        FileAnswer(finalName, env.fetch(FileRequest(mediaUrl.value, env.codecs).value))
  }

  /**
   * Once the media URL parses, the handler asks upstream for the parsed URL with the merged
   * headers; a rejection is a 500, an answer arms the cleanup and pipes the body under the
   * attachment headers.
   */
  lemma FileDownloadUpstream(mediaUrl: string, filename: Option<string>, env: Collaborators)
    requires mediaUrl != "" && env.codecs.parseUrl(mediaUrl).Some?
    ensures var url := env.codecs.parseUrl(mediaUrl).value;
      var upstream := env.fetch(FileRequest(mediaUrl, env.codecs).value);
      var reply := HandleMediaFileDownload(Some(mediaUrl), filename, env);
      && (upstream.RequestFailed? ==> reply == FileReply(ErrorResponse(500, DOWNLOAD_FAILED), false))
      && (upstream.Responded? ==> reply.cleanupArmed)
      && (upstream.Responded? ==>
            reply.response == Piping(FileHeaders(Filename.AttachmentName(filename, url.pathname), upstream.headers),
                                     upstream.transfer, SEND_FAILED))
  {
    var request := FileRequest(mediaUrl, env.codecs);
    assert ResolveMediaUrl(mediaUrl, env.codecs) == mediaUrl;
  }

  /** Every JSON body the file handler sends is an error with one of its four fixed messages: nothing from upstream leaks. */
  lemma FileErrorsAreFixed(mediaUrl: Option<string>, filename: Option<string>, env: Collaborators)
    ensures var response := HandleMediaFileDownload(mediaUrl, filename, env).response;
      response.body.JsonBody? ==>
        response.body.value in {ErrorBody(MISSING_MEDIA_URL), ErrorBody(INVALID_MEDIA_URL), ErrorBody(DOWNLOAD_FAILED), ErrorBody(SEND_FAILED)}
  {
    if !Absent(mediaUrl) && env.codecs.parseUrl(mediaUrl.value).Some? {
      var url := env.codecs.parseUrl(mediaUrl.value).value;
      var request := FileRequest(mediaUrl.value, env.codecs).value;
      assert ResolveMediaUrl(mediaUrl.value, env.codecs) == mediaUrl.value;
      assert HandleMediaFileDownload(mediaUrl, filename, env) ==
        FileAnswer(Filename.AttachmentName(filename, url.pathname), env.fetch(request));
    }
  }


  /** The request the stream handler makes: to the media URL as given, whether it parses or not. */
  function StreamRequest(mediaUrl: string, codecs: Codecs): (r: UpstreamRequest)
    ensures r.url == mediaUrl && r.headers == BuildUpstreamHeaders(mediaUrl, mediaUrl, codecs)
    ensures r.maxRedirects == MAX_REDIRECTS
  {
    var resolved := ResolveMediaUrl(mediaUrl, codecs);
    UpstreamRequest(resolved, BuildUpstreamHeaders(mediaUrl, resolved, codecs), MAX_REDIRECTS)
  }

  /** The headers the stream handler sets once upstream has answered. */
  function StreamHeaders(upstream: map<string, string>): (h: map<string, string>)
    ensures h.Keys <= {"Content-Type", "Content-Length", "Accept-Ranges"}
    ensures "Content-Type" in h
    ensures HasValue(upstream, "content-type") ==> h["Content-Type"] == upstream["content-type"]
    ensures !HasValue(upstream, "content-type") ==> h["Content-Type"] == OCTET_STREAM
    ensures "Content-Length" in h <==> HasValue(upstream, "content-length")
    ensures "Content-Length" in h ==> h["Content-Length"] == upstream["content-length"]
    ensures "Accept-Ranges" in h <==> HasValue(upstream, "accept-ranges")
    ensures "Accept-Ranges" in h ==> h["Accept-Ranges"] == upstream["accept-ranges"]
  {
    map["Content-Type" := ValueOr(upstream, "content-type", OCTET_STREAM)]
      + CopyIfPresent(upstream, "content-length", "Content-Length")
      + CopyIfPresent(upstream, "accept-ranges", "Accept-Ranges")
  }

  /** `handleMediaStream`: inline streaming, with no URL check of its own and no cleanup. */
  function HandleMediaStream(mediaUrl: Option<string>, env: Collaborators): (response: Response)
    ensures response.status == 400 <==> Absent(mediaUrl)
    ensures Absent(mediaUrl) ==> response == ErrorResponse(400, MISSING_MEDIA_URL)
    ensures !Absent(mediaUrl) ==>
      var upstream := env.fetch(StreamRequest(mediaUrl.value, env.codecs));
      && (upstream.RequestFailed? ==> response == ErrorResponse(500, STREAM_FAILED))
      && (upstream.Responded? ==> response == Piping(StreamHeaders(upstream.headers), upstream.transfer, STREAM_FAILED))
    ensures response.body.JsonBody? ==> response.body.value in {ErrorBody(MISSING_MEDIA_URL), ErrorBody(STREAM_FAILED)}
  {
    if Absent(mediaUrl) then ErrorResponse(400, MISSING_MEDIA_URL)
    else
      match env.fetch(StreamRequest(mediaUrl.value, env.codecs))
      case RequestFailed => ErrorResponse(500, STREAM_FAILED)
      case Responded(upstream, transfer) => Piping(StreamHeaders(upstream), transfer, STREAM_FAILED)
  }

  /**
   * A media URL that does not parse: the file handler rejects it with 400, while the stream
   * handler sends it upstream anyway and answers 500 once the fetch rejects it.
   */
  lemma UnparsableUrlDiffers(mediaUrl: string, filename: Option<string>, env: Collaborators)
    requires mediaUrl != ""
    requires env.codecs.parseUrl(mediaUrl).None?
    requires env.fetch(StreamRequest(mediaUrl, env.codecs)).RequestFailed?
    ensures HandleMediaFileDownload(Some(mediaUrl), filename, env).response == ErrorResponse(400, INVALID_MEDIA_URL)
    ensures HandleMediaStream(Some(mediaUrl), env) == ErrorResponse(500, STREAM_FAILED)
  {
  }

  /** `handleFacebookInstaDownload`: delegate to the extraction service. */
  function HandleFacebookInstaDownload(url: Option<string>, env: Collaborators): (response: Response)
    ensures Absent(url) ==> response == Response(400, map[], JsonBody(JObject(map["error" := JString(MISSING_URL)])))
    ensures Absent(url) ==> "success" !in response.body.value.fields
    ensures !Absent(url) && env.extract(url.value).Ok? ==>
      response == Response(200, map[], JsonBody(JObject(map["success" := JBool(true), "data" := env.extract(url.value).value])))
    ensures !Absent(url) && env.extract(url.value).Err? ==>
      response == ErrorResponse(500, env.extract(url.value).error)
  {
    if Absent(url) then Response(400, map[], JsonBody(JObject(map["error" := JString(MISSING_URL)])))
    else
      match env.extract(url.value)
      case Ok(data) => Response(200, map[], JsonBody(JObject(map["success" := JBool(true), "data" := data])))
      case Err(message) => ErrorResponse(500, message)
  }
}

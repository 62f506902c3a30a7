/**
 * The instant check of routes/checkRoutes.js (`POST /check`): validate and
 * trim the `url` of the request body, fetch it once and report status, time
 * and size, or a zeroed report carrying the error message. Nothing is
 * stored. `fetch` followed by `response.text()` is an input function from
 * URL to outcome, and the three clock readings are inputs.
 */
module CheckRoutes {
  import opened Options
  import opened JsValues

  /** What `fetch(url)` and then `response.text()` give: the status and the
      body text, or a thrown error with its `message`. */
  datatype FetchResult = Fetched(status: int, body: string) | FetchFailed(message: string)

  /** The JSON object sent back. `error` is present only in the fallback. */
  datatype Report = Report(
    url: string,
    statusCode: int,
    responseTimeMs: int,
    responseSizeBytes: nat,
    checkedAt: int,
    error: Option<string>)

  /** The response: 400 with an error, or 200 with a report. */
  datatype Reply = BadRequest | Ok(report: Report)

  function Status(r: Reply): (s: int)
    ensures s == 400 <==> r.BadRequest?
    ensures s == 200 <==> r.Ok?
  {
    if r.BadRequest? then 400 else 200
  }

  /** `analyzeUrl` once the fetch has returned: `start` and `end` are the two
      `Date.now()` readings around it, `stamp` the `checkedAt` reading. */
  function AnalyzeUrl(url: string, status: int, body: string, start: int, end: int, stamp: int): (r: Report)
    ensures r.url == url && r.statusCode == status && r.checkedAt == stamp && r.error.None?
    ensures r.responseTimeMs == end - start && (start <= end ==> r.responseTimeMs >= 0)
    ensures r.responseSizeBytes == Utf8Length(body)
    ensures |body| <= r.responseSizeBytes <= 4 * |body|
  {
    Report(url, status, end - start, Utf8Length(body), stamp, None)
  }

  /** The report of the catch block: every metric zero, and the message. */
  function FallbackReport(url: string, message: string, stamp: int): (r: Report)
    ensures r.url == url && r.checkedAt == stamp && r.error == Some(message)
    ensures r.statusCode == 0 && r.responseTimeMs == 0 && r.responseSizeBytes == 0
  {
    Report(url, 0, 0, 0, stamp, Some(message))
  }

  /** `POST /check`: a body whose `url` is missing, not a string or only white
      space gets 400 and nothing is fetched. Otherwise the trimmed URL is
      fetched and the answer is always 200: the report of the response, or
      the zeroed fallback carrying the error when the fetch threw. */
  function PostCheck(body: Json, fetch: string -> FetchResult, start: int, end: int, stamp: int): (r: Reply)
    ensures r.BadRequest? <==> !body.Str? || AllSpace(body.s)
    ensures r.Ok? ==>
      && r.report.url == Trim(body.s) && r.report.url != ""
      && r.report.checkedAt == stamp
      && (r.report.error.Some? <==> fetch(r.report.url).FetchFailed?)
    ensures r.Ok? && fetch(r.report.url).Fetched? ==>
      && r.report.statusCode == fetch(r.report.url).status
      && r.report.responseTimeMs == end - start
      && r.report.responseSizeBytes == Utf8Length(fetch(r.report.url).body)
    ensures r.Ok? && fetch(r.report.url).FetchFailed? ==>
      && r.report.statusCode == 0 && r.report.responseTimeMs == 0 && r.report.responseSizeBytes == 0
      && r.report.error == Some(fetch(r.report.url).message)
  {
    match TrimmedUrl(body)
    case None => BadRequest
    case Some(url) =>
      match fetch(url)
      case Fetched(status, text) => Ok(AnalyzeUrl(url, status, text, start, end, stamp))
      case FetchFailed(message) => Ok(FallbackReport(url, message, stamp))
  }

  /** White space around the URL changes nothing: the same URL is fetched
      and the same answer given. */
  lemma PaddedUrlSameReply(pre: string, url: string, post: string, fetch: string -> FetchResult, start: int, end: int, stamp: int)
    requires AllSpace(pre) && AllSpace(post)
    ensures PostCheck(Str(pre + url + post), fetch, start, end, stamp) == PostCheck(Str(url), fetch, start, end, stamp)
  {
    TrimIgnoresPadding(pre, url, post);
    TrimEmptyIffAllSpace(pre + url + post);
    TrimEmptyIffAllSpace(url);
  }

  /** Only the outcome of fetching the trimmed URL matters: two fetch
      functions that agree there give the same answer. */
  lemma OnlyTrimmedUrlIsFetched(body: Json, f: string -> FetchResult, g: string -> FetchResult, start: int, end: int, stamp: int)
    requires body.Str? && !AllSpace(body.s) ==> f(Trim(body.s)) == g(Trim(body.s))
    ensures PostCheck(body, f, start, end, stamp) == PostCheck(body, g, start, end, stamp)
  {
  }

  /** The size of a body that is plain ASCII text is its character count. */
  lemma AsciiBodySize(url: string, status: int, body: string, start: int, end: int, stamp: int)
    requires forall i :: 0 <= i < |body| ==> body[i] as int < 0x80
    ensures AnalyzeUrl(url, status, body, start, end, stamp).responseSizeBytes == |body|
  {
    Utf8LengthAscii(body);
  }
}

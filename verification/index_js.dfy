/**
 * The JavaScript client: `getItem` (status check and body choice), the
 * `for` loop that builds the page descriptors with `find` and `filter`, and
 * the nested download loops with their try/catch blocks. The HTTP response,
 * whether the write stream opens, and `path.extname` are supplied as
 * functions of the attempt's destination.
 */
module JsClient {
  import opened Wrappers
  import opened Manifest
  import opened Selection
  import opened UrnSplit
  import opened Downloads

  /**
   * A response body, by what `typeof` says of it and what a write stream
   * accepts: `Text` is a string, `Bytes` a Buffer or Uint8Array, `Null` is
   * null, `Structured` a parsed JSON object or array, and `Scalar` a number,
   * a boolean or undefined. The payload only names the value.
   */
  datatype Body = Text(payload: string) | Bytes(payload: string) | Null | Structured(payload: string) | Scalar(payload: string)

  /** `typeof body === 'object'`: true for null as well as for Buffers and parsed objects. */
  predicate IsObject(body: Body)
  {
    body.Bytes? || body.Null? || body.Structured?
  }

  datatype Response = Response(statusCode: int, body: Body)

  /** What is passed to `wstream.write`: `JSON.stringify(body)`, or the body as it came. */
  datatype Content = Stringified(source: Body) | AsIs(source: Body)

  /** The outcome of `getItem`: its boolean result and what it wrote, if anything. */
  datatype ItemResult = ItemResult(succeeded: bool, written: Option<Content>)

  /** The body is stringified exactly when it is an object and the output file ends in ".json". */
  function ContentToWrite(body: Body, ext: string): (c: Content)
    ensures c.Stringified? <==> IsObject(body) && ext == ".json"
    ensures c.source == body
  {
    if IsObject(body) && ext == ".json" then Stringified(body) else AsIs(body)
  }

  /**
   * `wstream.write(chunk)` accepts a string, a Buffer or a Uint8Array; null
   * and every other value make it throw. `JSON.stringify` of an object
   * (null included) is a string.
   */
  predicate Writable(c: Content)
  {
    c.Stringified? || c.source.Text? || c.source.Bytes?
  }

  /**
   * `getItem`: `response` is None when the request rejects, `ext` is
   * `path.extname(outFile)` and `streamOpened` says whether `openWriteStream`
   * returned a stream. A status other than 200 calls the undefined
   * `callback`, and a chunk the stream refuses makes `write` throw; either
   * error is caught and the function returns false.
   */
  function GetItem(response: Option<Response>, ext: string, streamOpened: bool): (r: ItemResult)
    ensures r.succeeded <==> response.Some? && response.value.statusCode == 200 && streamOpened
                             && Writable(ContentToWrite(response.value.body, ext))
    ensures r.written.Some? <==> r.succeeded
    ensures r.written.Some? ==> r.written.value == ContentToWrite(response.value.body, ext)
  {
    match response
    case None => ItemResult(false, None)
    case Some(res) =>
      if res.statusCode != 200 then ItemResult(false, None)
      else if !streamOpened then ItemResult(false, None)
      else
        var content := ContentToWrite(res.body, ext);
        if Writable(content) then ItemResult(true, Some(content)) else ItemResult(false, None)
  }

  /**
   * For a 200 response and an opened stream, which bodies `getItem` writes:
   * strings and Buffers always; null and parsed objects only into a ".json"
   * file; numbers, booleans and undefined never.
   */
  lemma GetItemBodies(body: Body, ext: string)
    ensures var ok := GetItem(Some(Response(200, body)), ext, true).succeeded;
      && (body.Text? || body.Bytes? ==> ok)
      && (body.Null? || body.Structured? ==> (ok <==> ext == ".json"))
      && (body.Scalar? ==> !ok)
  {
  }

  /** Whether `getItem` returns true for an attempt, given the server, the file system and `path.extname`. */
  function GetItemSucceeds(fetch: Attempt -> Option<Response>, extname: string -> string, opens: string -> bool): Attempt -> bool
  {
    (a: Attempt) => GetItem(fetch(a), extname(a.dest), opens(a.dest)).succeeded
  }

  /** The `for` loop that pushes one descriptor per viewable, using `find` and `filter`. */
  method CollectPages(viewables: seq<Viewable>) returns (pages: seq<Page>)
    ensures pages == PagesOf(viewables)
  {
    pages := [];
    for i := 0 to |viewables|
      invariant |pages| == i
      invariant forall k :: 0 <= k < i ==> pages[k] == PageOf(viewables[k])
    {
      var viewable := viewables[i];
      var pageName := viewable.name;
      var pageFile := FirstMatch(viewable.children, PdfPageRole, ResourceType);
      var thumbnails := Matching(viewable.children, ThumbnailRole, ResourceType);
      pages := pages + [Page(pageName, pageFile, thumbnails)];
    }
  }

  /** The inner loop over a page's thumbnails, each in its own `try`. */
  method DownloadThumbnails(thumbnails: seq<ResourceNode>, urn: string, fetch: Attempt -> Option<Response>, extname: string -> string,
                            opens: string -> bool)
    returns (attempts: seq<Attempt>)
    ensures attempts == ThumbnailAttempts(JavaScript, thumbnails, urn)
  {
    attempts := [];
    for j := 0 to |thumbnails|
      invariant attempts == ThumbnailAttempts(JavaScript, thumbnails[..j], urn)
    {
      var thumbnail := thumbnails[j];
      assert thumbnails[..j + 1] == thumbnails[..j] + [thumbnail];
      ThumbnailAttemptsAppend(JavaScript, thumbnails[..j], [thumbnail], urn);
      if thumbnail.urn.None? {
        continue;
      }
      var thumbnailSuffix := SecondPart(JavaScript, thumbnail.urn.value, urn);
      if thumbnailSuffix.None? {
        continue;
      }
      var attempt := Attempt(thumbnail.urn.value, thumbnailSuffix.value);
      attempts := attempts + [attempt];
      // a false result is thrown, caught and logged by the thumbnail's own `catch`; the loop goes on
      var thumbnailResult := GetItem(fetch(attempt), extname(attempt.dest), opens(attempt.dest));
    }
    assert thumbnails[..|thumbnails|] == thumbnails;
  }

  /**
   * The body of the per-page `try`: fetch the PDF, then, only if `getItem`
   * returned true, each thumbnail in its own `try`. Returning early is a
   * throw caught by the page's `catch`.
   */
  method DownloadPage(page: Page, urn: string, fetch: Attempt -> Option<Response>, extname: string -> string,
                      opens: string -> bool)
    returns (attempts: seq<Attempt>)
    ensures attempts == PageAttempts(JavaScript, page, urn, GetItemSucceeds(fetch, extname, opens))
  {
    attempts := [];
    // `page.file.urn` on an undefined file throws a TypeError
    if page.file.None? {
      return;
    }
    // `split` on an undefined urn throws a TypeError
    var fileUrn := page.file.value.urn;
    if fileUrn.None? {
      return;
    }
    // `path.join` throws on the undefined `split(urn)[1]`
    var suffix := SecondPart(JavaScript, fileUrn.value, urn);
    if suffix.None? {
      return;
    }
    var pdf := Attempt(fileUrn.value, suffix.value);
    attempts := [pdf];
    var fileResult := GetItem(fetch(pdf), extname(pdf.dest), opens(pdf.dest));
    if !fileResult.succeeded {
      // "Failed to download the PDF file for page ...": the thumbnails are skipped
      return;
    }
    var thumbnailAttempts := DownloadThumbnails(page.thumbnails, urn, fetch, extname, opens);
    attempts := attempts + thumbnailAttempts;
  }

  /** The `for` loop over the pages, each page in its own `try`. */
  method DownloadPages(pages: seq<Page>, urn: string, fetch: Attempt -> Option<Response>, extname: string -> string,
                       opens: string -> bool)
    returns (attempts: seq<Attempt>)
    ensures attempts == Schedule(JavaScript, pages, urn, GetItemSucceeds(fetch, extname, opens))
  {
    attempts := [];
    for i := 0 to |pages|
      invariant attempts == Schedule(JavaScript, pages[..i], urn, GetItemSucceeds(fetch, extname, opens))
    {
      var pageAttempts := DownloadPage(pages[i], urn, fetch, extname, opens);
      ScheduleExtend(JavaScript, pages, i, urn, GetItemSucceeds(fetch, extname, opens));
      attempts := attempts + pageAttempts;
    }
    assert pages[..|pages|] == pages;
  }

  /**
   * From the viewables of the first derivative to the end of the run: build
   * the pages, throw 'Nothing to download' when there are none, otherwise
   * make sure the folder `download/<urn>` exists and run the downloads.
   */
  method RunDownload(viewables: seq<Viewable>, urn: string, fetch: Attempt -> Option<Response>,
                     extname: string -> string, opens: string -> bool)
    returns (outcome: RunOutcome)
    ensures outcome.Aborted? <==> viewables == []
    ensures outcome.Aborted? ==> outcome.reason == "Nothing to download"
    ensures outcome.Finished? ==>
              && outcome.folder == Ensured(urn)
              && outcome.attempts == Schedule(JavaScript, PagesOf(viewables), urn, GetItemSucceeds(fetch, extname, opens))
  {
    var pages := CollectPages(viewables);
    if |pages| <= 0 {
      return Aborted("Nothing to download");
    }
    var folder := Ensured(urn);
    var attempts := DownloadPages(pages, urn, fetch, extname, opens);
    outcome := Finished(folder, attempts);
  }
}

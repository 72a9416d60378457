/**
 * The C# client: its HTTP status check, its two node-selection loops, the
 * loop that builds the page descriptors, and the per-page download loop
 * with its try/catch blocks. Downloading one resource (the SDK call, the
 * stream and the file write) is the oracle `download`; an exception thrown
 * and caught inside a loop is modelled as leaving that iteration.
 */
module CsharpClient {
  import opened Wrappers
  import opened Manifest
  import opened Selection
  import opened UrnSplit
  import opened Downloads
  import opened Decimal

  /** What `HttpErrorHandler` does: return a flag, or throw an exception with a message. */
  datatype HandlerOutcome = Returned(isError: bool) | Threw(message: string)

  /** Returns false for a 2xx status; otherwise throws (by default) or returns true. */
  function HttpErrorHandler(statusCode: int, msg: string := "", throwOnError: bool := true): (r: HandlerOutcome)
    ensures r == Returned(false) <==> 200 <= statusCode < 300
    ensures r == Returned(true) <==> !(200 <= statusCode < 300) && !throwOnError
    ensures r.Threw? <==> !(200 <= statusCode < 300) && throwOnError
    ensures r.Threw? ==> r.message == msg + " (HTTP " + IntToString(statusCode) + ")"
  {
    if statusCode < 200 || statusCode >= 300 then
      if throwOnError then Threw(msg + " (HTTP " + IntToString(statusCode) + ")") else Returned(true)
    else Returned(false)
  }

  /** The first child that has both keys and matches role and type, or None. */
  method GetViewableItem(viewables: seq<ResourceNode>, role: string, typ: string) returns (item: Option<ResourceNode>)
    ensures item == FirstMatch(viewables, role, typ)
  {
    for i := 0 to |viewables|
      invariant FirstMatch(viewables, role, typ) == FirstMatch(viewables[i..], role, typ)
    {
      var viewable := viewables[i];
      assert viewables[i..][1..] == viewables[i + 1..];
      if viewable.role.None? || viewable.typ.None? {
        continue;
      }
      if viewable.role.value == role && viewable.typ.value == typ {
        return Some(viewable);
      } else {
        continue;
      }
    }
    return None;
  }

  /** Every child that has both keys and matches role and type, in order. */
  method GetViewableItems(viewables: seq<ResourceNode>, role: string, typ: string) returns (items: seq<ResourceNode>)
    ensures items == Matching(viewables, role, typ)
  {
    items := [];
    for i := 0 to |viewables|
      invariant items == Matching(viewables[..i], role, typ)
    {
      var viewable := viewables[i];
      assert viewables[..i + 1] == viewables[..i] + [viewable];
      MatchingAppend(viewables[..i], [viewable], role, typ);
      if viewable.role.None? || viewable.typ.None? {
        continue;
      }
      if viewable.role.value == role && viewable.typ.value == typ {
        items := items + [viewable];
      } else {
        continue;
      }
    }
    assert viewables[..|viewables|] == viewables;
  }

  /** The `foreach` over the viewables that adds one page descriptor per viewable. */
  method CollectPages(viewables: seq<Viewable>) returns (pages: seq<Page>)
    ensures pages == PagesOf(viewables)
  {
    pages := [];
    for i := 0 to |viewables|
      invariant |pages| == i
      invariant forall k :: 0 <= k < i ==> pages[k] == PageOf(viewables[k])
    {
      var viewable := viewables[i];
      var pageName := viewable.name;
      var children := viewable.children;
      var pageFile := GetViewableItem(children, PdfPageRole, ResourceType);
      var thumbnails := GetViewableItems(children, ThumbnailRole, ResourceType);
      pages := pages + [Page(pageName, pageFile, thumbnails)];
    }
  }

  /** The inner loop over a page's thumbnails, each in its own `try`. */
  method DownloadThumbnails(thumbnails: seq<ResourceNode>, docUrn: string, download: Attempt -> bool)
    returns (attempts: seq<Attempt>)
    ensures attempts == ThumbnailAttempts(DotNet, thumbnails, docUrn)
  {
    attempts := [];
    for j := 0 to |thumbnails|
      invariant attempts == ThumbnailAttempts(DotNet, thumbnails[..j], docUrn)
    {
      var thumbnail := thumbnails[j];
      assert thumbnails[..j + 1] == thumbnails[..j] + [thumbnail];
      ThumbnailAttemptsAppend(DotNet, thumbnails[..j], [thumbnail], docUrn);
      var thumbnailFileUrn := thumbnail.urn;
      if thumbnailFileUrn.None? {
        continue;
      }
      var thumbnailSuffix := SecondPart(DotNet, thumbnailFileUrn.value, docUrn);
      if thumbnailSuffix.None? {
        continue;
      }
      var attempt := Attempt(thumbnailFileUrn.value, thumbnailSuffix.value);
      attempts := attempts + [attempt];
      // a failed thumbnail is thrown, caught and logged by its own `catch`; the loop goes on
      var thumbnailResult := download(attempt);
    }
    assert thumbnails[..|thumbnails|] == thumbnails;
  }

  /**
   * The body of the per-page `try`: download the PDF, then, only if that
   * succeeded, each thumbnail in its own `try`. Returning early is an
   * exception caught by the page's `catch`.
   */
  method DownloadPage(page: Page, docUrn: string, download: Attempt -> bool) returns (attempts: seq<Attempt>)
    ensures attempts == PageAttempts(DotNet, page, docUrn, download)
  {
    attempts := [];
    // `page.file.urn` on a null file throws
    if page.file.None? {
      return;
    }
    // `ToString()` on a missing urn throws
    var derivativeFileUrn := page.file.value.urn;
    if derivativeFileUrn.None? {
      return;
    }
    // `Split(...)[1]` is out of range when the document urn does not occur
    var suffix := SecondPart(DotNet, derivativeFileUrn.value, docUrn);
    if suffix.None? {
      return;
    }
    var pdf := Attempt(derivativeFileUrn.value, suffix.value);
    attempts := [pdf];
    var fileResult := download(pdf);
    if !fileResult {
      // "Failed to download the PDF file for page ...": the thumbnails are skipped
      return;
    }
    var thumbnailAttempts := DownloadThumbnails(page.thumbnails, docUrn, download);
    attempts := attempts + thumbnailAttempts;
  }

  /** The `foreach` over the pages, each page in its own `try`. */
  method DownloadPages(pages: seq<Page>, docUrn: string, download: Attempt -> bool) returns (attempts: seq<Attempt>)
    ensures attempts == Schedule(DotNet, pages, docUrn, download)
  {
    attempts := [];
    for i := 0 to |pages|
      invariant attempts == Schedule(DotNet, pages[..i], docUrn, download)
    {
      var pageAttempts := DownloadPage(pages[i], docUrn, download);
      ScheduleExtend(DotNet, pages, i, docUrn, download);
      attempts := attempts + pageAttempts;
    }
    assert pages[..|pages|] == pages;
  }

  /**
   * From the viewables of the first derivative to the end of the run: build
   * the pages, abort when there are none, otherwise recreate the folder
   * `download/<document urn>` and run the downloads.
   */
  method RunDownload(viewables: seq<Viewable>, docUrn: string, download: Attempt -> bool) returns (outcome: RunOutcome)
    ensures outcome.Aborted? <==> viewables == []
    ensures outcome.Aborted? ==> outcome.reason == "No PDF page found. Task Aborted"
    ensures outcome.Finished? ==>
              && outcome.folder == Recreated(docUrn)
              && outcome.attempts == Schedule(DotNet, PagesOf(viewables), docUrn, download)
  {
    var pages := CollectPages(viewables);
    if |pages| <= 0 {
      return Aborted("No PDF page found. Task Aborted");
    }
    var folder := Recreated(docUrn);
    var attempts := DownloadPages(pages, docUrn, download);
    outcome := Finished(folder, attempts);
  }
}

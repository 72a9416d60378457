/**
 * The download schedule: which resources a run tries to download, and in
 * which order, given an oracle that says whether each download succeeds.
 * Both clients visit the pages in order; for each page they try the PDF
 * first and, only if it succeeded, every thumbnail, where one failing
 * thumbnail does not stop the others. A page without a file, or whose
 * resource urn yields no destination suffix, is skipped whole.
 */
module Downloads {
  import opened Wrappers
  import opened Manifest
  import opened UrnSplit
  import opened Selection

  /** One download attempt: the resource urn and its destination, relative to the download folder. */
  datatype Attempt = Attempt(urn: string, dest: string)

  /** How the folder `download/<document urn>` is prepared before downloading. */
  datatype FolderSetup =
    | Recreated(dir: string) // deleted with its contents if present, then created
    | Ensured(dir: string)   // created if missing, contents kept

  /** The end of a run: aborted before touching the folder, or the folder set up and these attempts made. */
  datatype RunOutcome =
    | Aborted(reason: string)
    | Finished(folder: FolderSetup, attempts: seq<Attempt>)

  /** The attempt for one node, or None when its urn is missing or has no suffix after the document urn. */
  function Destination(rule: SplitRule, node: ResourceNode, docUrn: string): Option<Attempt>
  {
    match node.urn
    case None => None
    case Some(u) =>
      match SecondPart(rule, u, docUrn)
      case None => None
      case Some(suffix) => Some(Attempt(u, suffix))
  }

  /** A node has an attempt exactly when it has a urn with a suffix, and the attempt is that urn and that suffix. */
  lemma DestinationSpec(rule: SplitRule, node: ResourceNode, docUrn: string)
    ensures var r := Destination(rule, node, docUrn);
      && (r.None? <==> node.urn.None? || SecondPart(rule, node.urn.value, docUrn).None?)
      && (r.Some? ==> node.urn == Some(r.value.urn) && SecondPart(rule, r.value.urn, docUrn) == Some(r.value.dest))
  {
  }

  /** The thumbnails' attempts: one per thumbnail that has a destination, whatever the earlier ones gave. */
  function ThumbnailAttempts(rule: SplitRule, thumbs: seq<ResourceNode>, docUrn: string): (r: seq<Attempt>)
    ensures |r| <= |thumbs|
  {
    if thumbs == [] then []
    else
      (match Destination(rule, thumbs[0], docUrn)
       case None => []
       case Some(a) => [a])
      + ThumbnailAttempts(rule, thumbs[1..], docUrn)
  }

  /** One page's attempts: nothing without a file destination, else the PDF, then the thumbnails if it succeeded. */
  function PageAttempts(rule: SplitRule, page: Page, docUrn: string, ok: Attempt -> bool): (r: seq<Attempt>)
    ensures |r| <= 1 + |page.thumbnails|
  {
    match page.file
    case None => []
    case Some(f) =>
      match Destination(rule, f, docUrn)
      case None => []
      case Some(pdf) =>
        if ok(pdf) then [pdf] + ThumbnailAttempts(rule, page.thumbnails, docUrn) else [pdf]
  }

  /** All attempts of a run, page after page. */
  function Schedule(rule: SplitRule, pages: seq<Page>, docUrn: string, ok: Attempt -> bool): seq<Attempt>
  {
    if pages == [] then []
    else PageAttempts(rule, pages[0], docUrn, ok) + Schedule(rule, pages[1..], docUrn, ok)
  }

  /** The attempts for a list of pages are those for its front part followed by those for the rest. */
  lemma {:induction false} ScheduleAppend(rule: SplitRule, a: seq<Page>, b: seq<Page>, docUrn: string, ok: Attempt -> bool)
    ensures Schedule(rule, a + b, docUrn, ok) == Schedule(rule, a, docUrn, ok) + Schedule(rule, b, docUrn, ok)
  {
    if a == [] {
      assert a + b == b;
    } else {
      assert (a + b)[1..] == a[1..] + b;
      ScheduleAppend(rule, a[1..], b, docUrn, ok);
    }
  }

  /** Extending the visited pages by one adds exactly that page's attempts at the end. */
  lemma ScheduleExtend(rule: SplitRule, pages: seq<Page>, i: nat, docUrn: string, ok: Attempt -> bool)
    requires i < |pages|
    ensures Schedule(rule, pages[..i + 1], docUrn, ok)
            == Schedule(rule, pages[..i], docUrn, ok) + PageAttempts(rule, pages[i], docUrn, ok)
  {
    assert pages[..i + 1] == pages[..i] + [pages[i]];
    ScheduleAppend(rule, pages[..i], [pages[i]], docUrn, ok);
    assert Schedule(rule, [pages[i]], docUrn, ok) == PageAttempts(rule, pages[i], docUrn, ok) + Schedule(rule, [], docUrn, ok);
  }

  /**
   * Page `i`'s attempts sit, as one block, between those of the earlier and
   * those of the later pages; what the later pages attempt does not depend on
   * anything that happened for page `i` or before it.
   */
  lemma PageBlock(rule: SplitRule, pages: seq<Page>, i: nat, docUrn: string, ok: Attempt -> bool)
    requires i < |pages|
    ensures Schedule(rule, pages, docUrn, ok)
            == Schedule(rule, pages[..i], docUrn, ok)
               + PageAttempts(rule, pages[i], docUrn, ok)
               + Schedule(rule, pages[i + 1..], docUrn, ok)
  {
    assert pages == pages[..i] + ([pages[i]] + pages[i + 1..]);
    ScheduleAppend(rule, pages[..i], [pages[i]] + pages[i + 1..], docUrn, ok);
    ScheduleAppend(rule, [pages[i]], pages[i + 1..], docUrn, ok);
    assert Schedule(rule, [pages[i]], docUrn, ok) == PageAttempts(rule, pages[i], docUrn, ok);
  }

  /** The thumbnails of a concatenation are attempted as those of each part: no thumbnail's result stops the next. */
  lemma {:induction false} ThumbnailAttemptsAppend(rule: SplitRule, a: seq<ResourceNode>, b: seq<ResourceNode>, docUrn: string)
    ensures ThumbnailAttempts(rule, a + b, docUrn) == ThumbnailAttempts(rule, a, docUrn) + ThumbnailAttempts(rule, b, docUrn)
  {
    if a == [] {
      assert a + b == b;
    } else {
      assert (a + b)[1..] == a[1..] + b;
      ThumbnailAttemptsAppend(rule, a[1..], b, docUrn);
    }
  }

  /**
   * Exactly the thumbnails with a destination are attempted: every such
   * thumbnail's attempt is made, and every attempt made is such a
   * thumbnail's.
   */
  lemma {:induction false} ThumbnailAttemptsExact(rule: SplitRule, thumbs: seq<ResourceNode>, docUrn: string)
    ensures forall k :: 0 <= k < |thumbs| && Destination(rule, thumbs[k], docUrn).Some? ==>
              Destination(rule, thumbs[k], docUrn).value in ThumbnailAttempts(rule, thumbs, docUrn)
    ensures forall a :: a in ThumbnailAttempts(rule, thumbs, docUrn) ==>
              exists k :: 0 <= k < |thumbs| && Destination(rule, thumbs[k], docUrn) == Some(a)
  {
    if thumbs != [] {
      ThumbnailAttemptsExact(rule, thumbs[1..], docUrn);
      forall a | a in ThumbnailAttempts(rule, thumbs[1..], docUrn)
        ensures exists k :: 0 <= k < |thumbs| && Destination(rule, thumbs[k], docUrn) == Some(a)
      {
        var k :| 0 <= k < |thumbs[1..]| && Destination(rule, thumbs[1..][k], docUrn) == Some(a);
        assert thumbs[k + 1] == thumbs[1..][k];
      }
    }
  }

  /**
   * The shape of one page's attempts: skipped whole when there is no file or
   * no destination for it; otherwise the PDF comes first, the thumbnails
   * follow only when the PDF download succeeded, and then all of them do.
   */
  lemma PageAttemptsShape(rule: SplitRule, page: Page, docUrn: string, ok: Attempt -> bool)
    ensures var r := PageAttempts(rule, page, docUrn, ok);
      && (r == [] <==> page.file.None? || Destination(rule, page.file.value, docUrn).None?)
      && (r != [] ==> r[0] == Destination(rule, page.file.value, docUrn).value)
      && (|r| > 1 ==> ok(r[0]))
      && (r != [] && ok(r[0]) ==> r[1..] == ThumbnailAttempts(rule, page.thumbnails, docUrn))
      && (r != [] && !ok(r[0]) ==> |r| == 1)
  {
  }

  /** `urn` is the urn of the page's file or of one of its thumbnails. */
  predicate ListsResource(page: Page, urn: string)
  {
    (page.file.Some? && page.file.value.urn == Some(urn))
    || exists t :: t in page.thumbnails && t.urn == Some(urn)
  }

  /**
   * Every attempt of a run is for the file or a thumbnail of one of the
   * pages, and its destination is the suffix of its urn after the document
   * urn.
   */
  lemma {:induction false} ScheduleSound(rule: SplitRule, pages: seq<Page>, docUrn: string, ok: Attempt -> bool)
    ensures forall a :: a in Schedule(rule, pages, docUrn, ok) ==>
              && SecondPart(rule, a.urn, docUrn) == Some(a.dest)
              && exists i :: 0 <= i < |pages| && ListsResource(pages[i], a.urn)
  {
    if pages != [] {
      ScheduleSound(rule, pages[1..], docUrn, ok);
      var page := pages[0];
      ThumbnailAttemptsExact(rule, page.thumbnails, docUrn);
      forall a | a in Schedule(rule, pages, docUrn, ok)
        ensures SecondPart(rule, a.urn, docUrn) == Some(a.dest)
        ensures exists i :: 0 <= i < |pages| && ListsResource(pages[i], a.urn)
      {
        if a in PageAttempts(rule, page, docUrn, ok) {
          if a == PageAttempts(rule, page, docUrn, ok)[0] {
            assert ListsResource(pages[0], a.urn);
          } else {
            assert a in ThumbnailAttempts(rule, page.thumbnails, docUrn);
            var k :| 0 <= k < |page.thumbnails| && Destination(rule, page.thumbnails[k], docUrn) == Some(a);
            assert page.thumbnails[k] in pages[0].thumbnails;
            assert ListsResource(pages[0], a.urn);
          }
        } else {
          assert a in Schedule(rule, pages[1..], docUrn, ok);
          var i :| 0 <= i < |pages[1..]| && ListsResource(pages[1..][i], a.urn);
          assert pages[i + 1] == pages[1..][i];
        }
      }
    }
  }

  /**
   * One viewable "Page 1" with a PDF node "<doc>/p1.pdf" and a thumbnail
   * node "<doc>/p1_thumb.png": the PDF is fetched to "/p1.pdf" and, when that
   * succeeds, the thumbnail to "/p1_thumb.png"; when it fails, nothing else.
   */
  lemma OnePageScenario(rule: SplitRule, doc: string, ok: Attempt -> bool)
    requires |doc| > 0 && !Occurs("/p1.pdf", doc) && !Occurs("/p1_thumb.png", doc)
    ensures
      var pdfNode := ResourceNode(Some(PdfPageRole), Some(ResourceType), Some(doc + "/p1.pdf"));
      var thumbNode := ResourceNode(Some(ThumbnailRole), Some(ResourceType), Some(doc + "/p1_thumb.png"));
      var pdf := Attempt(doc + "/p1.pdf", "/p1.pdf");
      var thumb := Attempt(doc + "/p1_thumb.png", "/p1_thumb.png");
      Schedule(rule, PagesOf([Viewable(Some("Page 1"), [pdfNode, thumbNode])]), doc, ok)
      == if ok(pdf) then [pdf, thumb] else [pdf]
  {
    var pdfNode := ResourceNode(Some(PdfPageRole), Some(ResourceType), Some(doc + "/p1.pdf"));
    var thumbNode := ResourceNode(Some(ThumbnailRole), Some(ResourceType), Some(doc + "/p1_thumb.png"));
    var v := Viewable(Some("Page 1"), [pdfNode, thumbNode]);
    SecondPartOfPrefixed(rule, doc, "/p1.pdf");
    SecondPartOfPrefixed(rule, doc, "/p1_thumb.png");
    assert [pdfNode, thumbNode][1..] == [thumbNode];
    assert FirstMatch(v.children, PdfPageRole, ResourceType) == Some(pdfNode);
    assert Matching(v.children, ThumbnailRole, ResourceType) == [thumbNode];
    var pages := PagesOf([v]);
    assert pages == [Page(Some("Page 1"), Some(pdfNode), [thumbNode])];
    assert ThumbnailAttempts(rule, [thumbNode], doc) == [Attempt(doc + "/p1_thumb.png", "/p1_thumb.png")];
    assert Schedule(rule, pages, doc, ok) == PageAttempts(rule, pages[0], doc, ok) + Schedule(rule, pages[1..], doc, ok);
  }
}

# Translated PDF pages downloader: selection and download schedule

This project models the core of a tool that fetches a document's derivative
manifest from a cloud design-data platform and downloads, for each page,
its PDF resource and its thumbnail images. The tool has two clients that
mirror each other: a C# program (`Program.cs`) and a Node.js script
(`index.js`). The model covers what both clients decide, stated over plain
data:

- **Resource-node selection.** Among a viewable's children, pick the first
  node with a given `role` and `type` (`GetViewableItem`, `Array.find`), or
  all of them in order (`GetViewableItems`, `Array.filter`). A node is a
  record with optional `role`, `type` and `urn` fields. A node without a
  `role` or a `type` key is never picked.
- **Page descriptors.** Each viewable gives one `{name, file, thumbnails}`
  descriptor, in viewable order. `file` is the first "pdf-page"/"resource"
  child and `thumbnails` are all "thumbnail"/"resource" children. With no
  viewables the run aborts before the download folder is touched.
- **HTTP status handling.** C#'s `HttpErrorHandler` accepts any 2xx status.
  For anything else it throws, or returns true when told not to throw. The
  script's `getItem` proceeds only on exactly 200 and only with an open
  write stream. It writes `JSON.stringify(body)` when the body is an object
  and the file extension is ".json", and the body unchanged otherwise. The
  stream's `write` accepts only a string, a Buffer or a Uint8Array: any
  other body written unchanged (null, a parsed object, a number) throws,
  and `getItem` returns false.
- **Destination suffix.** The destination of a resource is
  `resourceUrn.Split(documentUrn)[1]` (`split(urn)[1]` in the script). This
  is the text after the first occurrence of the document urn, up to the next
  occurrence. When the document urn does not occur, there is no suffix and
  the page or thumbnail is skipped.
- **Download schedule.** Pages are visited in order. A page's PDF is
  attempted first. Its thumbnails are attempted only when the PDF download
  succeeded, because the thumbnail loop sits inside the page's `try`. A
  failing thumbnail stops neither the other thumbnails nor the later pages.
  A page with no file, or whose file urn has no suffix, is skipped whole.
  Whether each download succeeds is a parameter, an oracle over the attempt.
  For the script it is built from `getItem` over the server's response.

Modules: `Wrappers` (Option), `Manifest` (nodes, viewables, pages),
`Selection` (find/filter and page descriptors), `UrnSplit` (the library
split and element [1]), `Downloads` (the schedule as a function),
`Decimal` (the status code in the exception message), and one module per
client: `CsharpClient` for `Program.cs` and `JsClient` for `index.js`. The
client modules hold the loops, as methods proved against the functions in
`Selection` and `Downloads`.

Behaviour of the code that the model follows and that is easy to misread:

- A failed PDF download skips that page's thumbnails, because the thumbnail
  loop is inside the same `try` as the PDF download.
- A child is skipped when it lacks either key, `role` or `type`, not only
  when it lacks both.
- `getItem` treats every status other than exactly 200 as a failure, so a
  201 or a 204 also fails. C#'s `HttpErrorHandler` accepts all of 2xx.
- The C# program deletes and recreates `download/<document urn>` before
  downloading. The script only makes sure the folder exists, so files from
  an earlier run stay.
- For an empty document urn the two splits differ. .NET returns the whole
  string as the only element, so element [1] never exists. JavaScript
  splits into UTF-16 code units.

## Model

| member | source | states |
|---|---|---|
| `Manifest.IsEligible` | Program.cs:189-195 | a node is selected for a role and a type when it has both keys and both values are equal to the ones asked for (also index.js:56-57) |
| `Selection.FirstMatch` | index.js:56 | `find`: when it gives a node, that node is one of the children and has the role and the type |
| `Selection.FirstMatchSpec` | index.js:56 | `find` gives nothing exactly when no child has the role and the type; otherwise it gives a child that has them and that no earlier child with them precedes |
| `Selection.Matching` | index.js:57 | `filter` never gives more entries than there are children |
| `Selection.MatchingMembers` | index.js:57 | a node is in the filtered list exactly when it is a child that has the role and the type |
| `Selection.MatchingAppend` | Program.cs:208-232 | filtering a concatenation is the concatenation of the filtered parts, so one child's selection never depends on another |
| `Selection.MatchingCount` | Program.cs:221-224 | each matching child is kept as many times as it occurs, and every other child is dropped |
| `Selection.PositionsInRange` | Program.cs:208-232 | every recorded position is the index of a child |
| `Selection.PositionsIncreasing` | Program.cs:208-232 | the positions of the matching children are strictly increasing, as the loop visits them |
| `Selection.PositionsExact` | Program.cs:208-232 | a child is matching exactly when its index is among the positions |
| `Selection.MatchingAtPositions` | Program.cs:208-232 | the filtered list has one entry per position, and entry k is the child at position k |
| `Selection.FirstMatchIsHeadOfMatching` | Program.cs:184-232 | `GetViewableItem` gives null exactly when `GetViewableItems` gives an empty list, and otherwise that list's first element |
| `Selection.MissingKeyNeverSelected` | Program.cs:189-190 | a child lacking `role` or `type` is neither the first match nor in the filtered list (the same test is at Program.cs:215-216) |
| `Selection.PageOf` | index.js:55-63 | one viewable's descriptor: the name is the viewable's, the file when present is a "pdf-page"/"resource" child, and there are never more thumbnails than children |
| `Selection.PagesOf` | Program.cs:294-310 | one descriptor per viewable: as many descriptors as viewables |
| `Selection.PageOfDescribesViewable` | index.js:55-57 | a descriptor copies the name; its file is the first "pdf-page"/"resource" child or absent when there is none; its thumbnails are exactly the "thumbnail"/"resource" children, each as often as it occurs |
| `UrnSplit.IndexOfFromSpec` | Program.cs:330 | the search finds an occurrence at or after `from` with none before it, and reports none only when the separator occurs nowhere there |
| `UrnSplit.IndexOfFromFinds` | Program.cs:330 | an occurrence with no earlier one from `from` on is exactly what the search finds |
| `UrnSplit.SplitFrom` | index.js:81 | splitting a non-empty separator always yields at least one piece |
| `UrnSplit.JoinSplitFrom` | index.js:81 | joining the pieces of the text from `from` on, with the separator between them, gives that text back |
| `UrnSplit.JoinSplit` | Program.cs:330 | joining the pieces with the separator gives back the original urn |
| `UrnSplit.SplitFromPiecesAreFree` | index.js:81 | no piece of the text from `from` on contains the separator |
| `UrnSplit.SplitPiecesAreFree` | Program.cs:330 | no piece contains the separator |
| `UrnSplit.JoinCharacters` | index.js:95 | JavaScript's split on an empty separator loses nothing: for a non-empty urn, joining the pieces with nothing between them gives the urn back |
| `UrnSplit.SplitParts` | Program.cs:330 | the array the library split returns; it is empty only for JavaScript's split of an empty urn on an empty separator, and .NET always returns at least one element |
| `UrnSplit.SecondPart` | index.js:81 | `Split(..)[1]`: element [1] of that array, absent when there is none; what it holds is stated by the lemmas below |
| `UrnSplit.SecondPartDefinedIffOccurs` | Program.cs:345 | for a non-empty document urn, element [1] exists exactly when the document urn occurs in the resource urn |
| `UrnSplit.SecondPartAfterFirst` | Program.cs:345 | element [1] is the first piece of the text that follows the first occurrence of the document urn |
| `UrnSplit.FirstPieceEnds` | index.js:95 | the first piece from a position is the text there up to the next occurrence of the document urn: no occurrence starts inside it, and it is followed by the end of the urn or by an occurrence |
| `UrnSplit.SecondPartIsFree` | Program.cs:330 | element [1] never contains the document urn |
| `UrnSplit.SecondPartIsNextSegment` | index.js:95 | element [1] exists when the document urn occurs, is the text right after its first occurrence, contains the start of no occurrence, and ends at the end of the urn or where the next occurrence starts |
| `UrnSplit.SecondPartOfPrefixed` | index.js:81 | a urn "<doc>" + tail, with a tail that does not repeat the document urn, yields the tail (e.g. "/p1.pdf") |
| `UrnSplit.EmptySeparator` | Program.cs:330 | with an empty document urn, .NET never has element [1], while JavaScript gives the second character |
| `Downloads.Destination` | Program.cs:330 | the attempt for one node: its urn and the suffix after the document urn, or nothing; stated by `DestinationSpec` |
| `Downloads.DestinationSpec` | Program.cs:326-330 | a node has an attempt exactly when it has a urn with a suffix, and the attempt carries that urn and that suffix |
| `Downloads.ThumbnailAttempts` | Program.cs:337-356 | the thumbnail loop never makes more attempts than there are thumbnails |
| `Downloads.PageAttempts` | Program.cs:324-357 | one page's try block makes at most the PDF attempt plus one attempt per thumbnail |
| `Downloads.Schedule` | Program.cs:322-362 | the attempts of a run, page after page; its order and content are stated by the lemmas below |
| `Downloads.ScheduleAppend` | Program.cs:322-362 | the attempts for a list of pages are those of its first part followed by those of the rest, so earlier pages' failures do not change later pages |
| `Downloads.ScheduleExtend` | index.js:75-111 | visiting one more page appends exactly that page's attempts |
| `Downloads.PageBlock` | Program.cs:322-362 | each page's attempts form one block between the earlier and the later pages' attempts |
| `Downloads.ThumbnailAttemptsAppend` | Program.cs:337-356 | the thumbnails of a concatenation are attempted as those of each part, whatever earlier attempts returned |
| `Downloads.ThumbnailAttemptsExact` | index.js:89-106 | every thumbnail whose urn has a suffix is attempted, and every thumbnail attempt comes from such a thumbnail |
| `Downloads.PageAttemptsShape` | Program.cs:324-357 | a page is skipped whole exactly when it has no file or the file has no destination; otherwise the PDF comes first, thumbnails follow only after a successful PDF download, and then all of them are attempted |
| `Downloads.ScheduleSound` | index.js:75-111 | every attempt is for the file or a thumbnail of some page, and its destination is the suffix of its urn after the document urn |
| `Downloads.OnePageScenario` | Program.cs:292-362 | for one page with "<doc>/p1.pdf" and "<doc>/p1_thumb.png", the run attempts "/p1.pdf" and then, if that succeeded, "/p1_thumb.png"; otherwise it attempts only the PDF |
| `Decimal.NatDigits` | Program.cs:46 | the status code is written as a non-empty run of decimal digits, with no leading zero |
| `Decimal.IntToString` | Program.cs:46 | the status code's text is non-empty and starts with '-' exactly when the code is negative |
| `Decimal.NatDigitsRoundTrip` | Program.cs:46 | reading the digits back gives the number |
| `Decimal.IntToStringRoundTrip` | Program.cs:46 | a negative code is written as '-' followed by its magnitude's digits, and any other code as its own digits |
| `CsharpClient.HttpErrorHandler` | Program.cs:41-50 | returns false exactly for 200 <= status < 300; otherwise returns true when not asked to throw, and throws "msg (HTTP status)" when asked to |
| `CsharpClient.GetViewableItem` | Program.cs:184-206 | the loop returns the first child that has both keys and matches role and type, or null |
| `CsharpClient.GetViewableItems` | Program.cs:208-232 | the loop returns exactly the matching children, in order |
| `CsharpClient.CollectPages` | Program.cs:292-310 | one descriptor per viewable, in viewable order, each the viewable's page descriptor |
| `CsharpClient.DownloadThumbnails` | Program.cs:337-356 | the thumbnail loop attempts exactly the scheduled thumbnails, in order, and goes on after a failed one |
| `CsharpClient.DownloadPage` | Program.cs:324-357 | one page's try block makes exactly the page's scheduled attempts |
| `CsharpClient.DownloadPages` | Program.cs:322-362 | the nested loops make exactly the scheduled attempts, in order |
| `CsharpClient.RunDownload` | Program.cs:292-320 | aborts with "No PDF page found. Task Aborted" exactly when there are no viewables, before touching the folder or downloading; otherwise recreates the folder and makes the scheduled attempts |
| `JsClient.IsObject` | index.js:30 | `typeof res.body === 'object'`: true for null, Buffers and parsed objects, false for strings, numbers, booleans and undefined |
| `JsClient.Writable` | index.js:30-35 | `wstream.write` accepts the chunk: a `JSON.stringify` result, a string or a Buffer; any other chunk throws, and the catch at index.js:35 turns that into a false result |
| `JsClient.ContentToWrite` | index.js:30 | the body is stringified exactly when it is an object and the extension is ".json"; the content is always the response's own body |
| `JsClient.GetItem` | index.js:22-40 | returns true exactly for status 200, an opened stream and a chunk `write` accepts; writes only then, and what it writes is the chosen content |
| `JsClient.GetItemBodies` | index.js:30-39 | with status 200 and an open stream, a string or a Buffer is always written, null or a parsed object only into a ".json" file, and a number, a boolean or undefined never |
| `JsClient.GetItemSucceeds` | index.js:78-98 | the success oracle of the script's downloads is `getItem`'s result for the attempt's response, extension and stream |
| `JsClient.CollectPages` | index.js:53-64 | `pages.length` equals `viewables.length`, in the same order, each entry the viewable's page descriptor |
| `JsClient.DownloadThumbnails` | index.js:89-106 | the thumbnail loop attempts exactly the scheduled thumbnails, in order, each through `getItem`, and goes on after a failed one |
| `JsClient.DownloadPage` | index.js:76-110 | one page's try block makes exactly the page's scheduled attempts, success being `getItem`'s result |
| `JsClient.DownloadPages` | index.js:75-111 | the nested loops make exactly the scheduled attempts, in order |
| `JsClient.RunDownload` | index.js:53-73 | throws "Nothing to download" exactly when there are no viewables, before creating the folder or downloading; otherwise ensures the folder and makes the scheduled attempts |

## Left out

- OAuth token acquisition and reading the client id and secret from the environment (`OauthExecAsync`, `ReadConfigFromEnvOrSettings`, the `oauth` helper module). These are remote calls and process state.
- Resolving the item, version and derivative urn, and fetching the manifest (`GetItemAsync`, `GetVersionDerivativeUrnAsync`, `GetVersionRefDerivativeUrnAsync`, `GetVersionRefAsync`, `getManifest`). These are SDK network calls over the vendor's JSON. The model starts from the children of the first derivative, so an empty `derivatives` list (which throws) is not modelled.
- Transferring bytes and the file system: `DownloadDerivativeFileAsync`, `FileStream`, `Directory.Delete`/`CreateDirectory`, `mkdirp`, `fs.createWriteStream`. A download's success is an oracle over the attempt; opening the write stream and the server's response are parameters. The folder step is recorded as a value (`Recreated` or `Ensured`).
- Oracle purity: a download oracle is a fixed function, so the model does not capture a resource whose download gives different results at different times.
- Path rules: `Path.Join`, `Path.Combine`, `path.join`, `path.extname` and the assembly location are library code. A destination is the suffix relative to `download/<document urn>`, and the extension is supplied as a function of that suffix.
- `JSON.stringify` and the bytes of a body: the written content only records whether the body was stringified and which body it was.
- Logging (`Console.WriteLine`, `console.error`, `console.log(pages)`) and the text of the per-page and per-thumbnail error messages, including the thumbnail `resolution` they print. Control flow does not depend on them.
- `async`/`await`: each call is taken to complete before the next one, as the single sequential control flow does.
- Dynamic JSON typing: a `role` or `type` that is not a string, JavaScript's loose `==` on such values, a child that is not a JSON object (`JObject.Parse` throws), and a viewable without `children` are not modelled. A key set to null is treated like a missing key; neither ever matches.
- The C# program ends with an unhandled exception when there are no pages, and the script logs the thrown string. Both are modelled as the `Aborted` outcome carrying the message.
- `UrnSplit.Characters`: JavaScript's `split("")` cuts into UTF-16 code units, while a character of the model is one element of the string, so a character outside the Basic Multilingual Plane is one piece here and two in JavaScript. The script's document urn is a non-empty constant, so this path is not reached there.
- Iteration order of the C# children: `GetViewableItem`, `GetViewableItems` and the page loop iterate a `DynamicDictionaryItems` over the parsed manifest (Program.cs:184, Program.cs:208, Program.cs:290, Program.cs:297). The model takes that iteration to follow the manifest array's order; the wrapper's enumerator is not part of this model.
